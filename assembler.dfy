/**
 * The two directory scanners, `_scan_models` and `_scan_macros`, for the files of
 * one directory: what they collect into `doc_blocks` (name -> description, in
 * insertion order) and `dbt_blocks` (the list of property records).
 *
 * Each scanner is a method with the loops of the source, proved equal to a fold
 * over the files (`ScanModelsFrom`, `ScanMacrosFrom`); the lemmas are about those
 * folds. An exception anywhere aborts the whole run, so a scan yields `Err`.
 */
module Assembler {
  import opened Results
  import opened PyText
  import opened Fragment
  import opened Comments
  import opened Constructs

  // ---------------------------------------------------------------------------
  // doc_blocks: a Python dict from name to description
  // ---------------------------------------------------------------------------

  /**
   * An insertion-ordered dictionary: `keys` in the order of first insertion and
   * `values` the current value of each key.
   */
  datatype DocMap = DocMap(keys: seq<string>, values: map<string, string>)

  const EmptyDocs := DocMap([], map[])

  /** Each key listed once, and listed exactly when it has a value. */
  predicate ValidDocs(d: DocMap) {
    && (forall i, j :: 0 <= i < j < |d.keys| ==> d.keys[i] != d.keys[j])
    && (forall k <- d.keys :: k in d.values)
    && (forall k <- d.values :: k in d.keys)
  }

  /**
   * `d[k] = v`: a new key goes to the end of the order; an existing key keeps its
   * place and takes the new value.
   */
  function Put(d: DocMap, k: string, v: string): (r: DocMap)
    ensures r.values == d.values[k := v]
    ensures k in d.values ==> r.keys == d.keys
    ensures k !in d.values ==> r.keys == d.keys + [k]
  {
    if k in d.values then DocMap(d.keys, d.values[k := v])
    else DocMap(d.keys + [k], d.values[k := v])
  }

  /** `Put` keeps the dictionary well formed. */
  lemma PutValid(d: DocMap, k: string, v: string)
    requires ValidDocs(d)
    ensures ValidDocs(Put(d, k, v))
  {
  }

  /** The last write wins: writing a key twice is writing it once, with the later value. */
  lemma PutLastWins(d: DocMap, k: string, v1: string, v2: string)
    ensures Put(Put(d, k, v1), k, v2) == Put(d, k, v2)
  {
  }

  // ---------------------------------------------------------------------------
  // What one directory yields
  // ---------------------------------------------------------------------------

  /** A file of the directory: its name and its text. */
  datatype SourceFile = SourceFile(name: string, content: string)

  /** A property record, the dict `b`: its entries in insertion order. */
  type Record = seq<Entry>

  /** The collected `doc_blocks` and `dbt_blocks`. */
  datatype Collected = Collected(docs: DocMap, records: seq<Record>)

  const Nothing := Collected(EmptyDocs, [])

  /**
   * `fname[-3:] == "sql"`: a file the scanners read, the one whose name ends in
   * `sql` (a name shorter than three characters is its own last three).
   */
  predicate IsSqlFile(fname: string)
    ensures IsSqlFile(fname) <==> |fname| >= 3 && fname[|fname| - 3..] == "sql"
  {
    Slice(fname, -3, |fname|) == "sql"
  }

  /** `fname[0:-4]`: the model name, the file name less `.sql`. */
  function ModelName(fname: string): (n: string)
    ensures IsSqlFile(fname) && |fname| >= 4 ==> n + fname[|fname| - 4..] == fname
  {
    Slice(fname, 0, -4)
  }

  /** A file name ending in `sql` is read, and its model name drops four characters. */
  lemma SqlFileNames(base: string)
    ensures IsSqlFile(base + ".sql") && ModelName(base + ".sql") == base
    ensures !IsSqlFile(base + ".yml")
  {
    var f := base + ".sql";
    assert Slice(f, -3, |f|) == f[|f| - 3..];
    assert f[|f| - 3..] == "sql";
    assert Slice(f, 0, -4) == f[..|f| - 4];
    assert f[..|f| - 4] == base;
    var g := base + ".yml";
    assert Slice(g, -3, |g|) == g[|g| - 3..];
    assert g[|g| - 3..][0] == 'y';
  }

  /**
   * `"{{ doc('%s') }}" % name`: the reference a record uses for its description.
   * The name sits at a fixed place in it, so it can be read back (`DocTarget`).
   */
  function DocRef(name: string): (r: string)
    ensures |r| == |name| + 13 && r[8..|r| - 5] == name
  {
    var r := "{{ doc('" + name + "') }}";
    assert r[8..|r| - 5] == name;
    r
  }

  /** The name a record's doc reference points at, when its second entry is one. */
  function DocTarget(rec: seq<Entry>): (t: Option<string>)
    ensures forall k :: |rec| >= 2 && rec[1] == Entry("description", Quoted(DocRef(k))) ==> t == Some(k)
  {
    if |rec| >= 2 && rec[1].key == "description" && rec[1].value.Quoted? && |rec[1].value.q| >= 13 then
      Some(rec[1].value.q[8..|rec[1].value.q| - 5])
    else None
  }

  /**
   * The loaded fragment: `{}` when the body has no fence, the loader's value
   * otherwise, and a failure when the loader raises.
   */
  function LoadFragment(fragment: Option<string>, load: Loader): (r: Result<Node>)
    ensures fragment.None? ==> r == Ok(Map([]))
    ensures fragment.Some? ==> (r.Err? <==> load(fragment.value).None?)
    ensures r.Err? ==> r.error == MalformedFragment(fragment.value)
  {
    match fragment
    case None => Ok(Map([]))
    case Some(text) =>
      match load(text)
      case None => Err(MalformedFragment(text))
      case Some(n) => Ok(n)
  }

  /** The name of a record: the text of its leading `name` entry. */
  function RecordName(r: Record): string {
    if |r| > 0 && r[0].key == "name" && r[0].value.Quoted? then r[0].value.q else ""
  }

  function Names(records: seq<Record>): (ns: seq<string>)
    ensures |ns| == |records| && forall i :: 0 <= i < |records| ==> ns[i] == RecordName(records[i])
  {
    seq(|records|, i requires 0 <= i < |records| => RecordName(records[i]))
  }

  // ---------------------------------------------------------------------------
  // _scan_models
  // ---------------------------------------------------------------------------

  const ModelKeys := ["columns", "docs"]

  /** The record of a described model: its name, its doc reference, then the extras. */
  function ModelRecord(tname: string, extra: seq<Entry>): (r: Record)
    ensures RecordName(r) == tname
  {
    [Entry("name", Quoted(tname)), Entry("description", Quoted(DocRef(tname)))] + extra
  }

  /**
   * What a described model adds: its doc block, and a record whose extras are the
   * listed keys of the quoted fragment.
   */
  function AddModel(acc: Collected, tname: string, description: string, frag: Node): (r: Result<Collected>)
    ensures r.Ok? ==> r.value.docs == Put(acc.docs, tname, description)
    ensures r.Ok? ==> |r.value.records| == |acc.records| + 1 && r.value.records[..|acc.records|] == acc.records
    ensures r.Ok? ==> |r.value.records[|acc.records|]| >= 2 && r.value.records[|acc.records|][..2] == ModelRecord(tname, [])
    ensures r.Ok? ==> forall e <- r.value.records[|acc.records|][2..] :: e.key in ModelKeys
    ensures r.Ok? ==> Whitelist(QuoteDict(frag), ModelKeys) == Ok(r.value.records[|acc.records|][2..])
    ensures r.Err? <==> Whitelist(QuoteDict(frag), ModelKeys).Err?
    ensures frag.Map? ==> r.Ok?
  {
    var extra :- Whitelist(QuoteDict(frag), ModelKeys);
    var rec := ModelRecord(tname, extra);
    assert rec[2..] == extra;
    Ok(Collected(Put(acc.docs, tname, description), acc.records + [rec]))
  }

  /**
   * Two described models of the same name (in one directory, `a.sql` and `a_sql`
   * both give `a`) both keep their record, while the later description replaces
   * the earlier doc block.
   */
  lemma SameModelNameShareDocBlock(acc: Collected, tname: string, d1: string, d2: string, f1: Node, f2: Node)
    requires AddModel(acc, tname, d1, f1).Ok?
    requires AddModel(AddModel(acc, tname, d1, f1).value, tname, d2, f2).Ok?
    ensures var r := AddModel(AddModel(acc, tname, d1, f1).value, tname, d2, f2).value;
      && |r.records| == |acc.records| + 2
      && RecordName(r.records[|acc.records|]) == tname
      && RecordName(r.records[|acc.records| + 1]) == tname
      && r.docs == Put(acc.docs, tname, d2)
  {
    var r1 := AddModel(acc, tname, d1, f1).value;
    var r := AddModel(r1, tname, d2, f2).value;
    assert r.records[|acc.records|] == r.records[..|r1.records|][|acc.records|];
    assert r1.records[|acc.records|][..2] == ModelRecord(tname, []);
    assert r.records[|acc.records|][..2] == ModelRecord(tname, []);
    assert r.records[|acc.records| + 1][..2] == ModelRecord(tname, []);
    PutLastWins(acc.docs, tname, d1, d2);
  }

  /**
   * One file of a models directory. A file not ending in `sql` is skipped. The
   * fragment is loaded whether or not the description is empty; only a described
   * model is added.
   */
  function ModelStep(acc: Collected, f: SourceFile, load: Loader): (r: Result<Collected>)
    ensures !IsSqlFile(f.name) ==> r == Ok(acc)
    ensures var frag := ReadBlocks(f.content).fragment;
      IsSqlFile(f.name) && frag.Some? && load(frag.value).None? ==> r == Err(MalformedFragment(frag.value))
    ensures var split := ReadBlocks(f.content);
      IsSqlFile(f.name) && split.description == "" && (split.fragment.None? || load(split.fragment.value).Some?) ==> r == Ok(acc)
  {
    if !IsSqlFile(f.name) then Ok(acc)
    else
      var split := ReadBlocks(f.content);
      var frag :- LoadFragment(split.fragment, load);
      if split.description == "" then Ok(acc)
      else AddModel(acc, ModelName(f.name), split.description, frag)
  }

  /**
   * The scan of the remaining files, from what was collected so far: it only
   * appends records.
   */
  function ScanModelsFrom(acc: Collected, files: seq<SourceFile>, load: Loader): (r: Result<Collected>)
    ensures r.Ok? ==> acc.records <= r.value.records
    decreases |files|
  {
    if files == [] then Ok(acc)
    else
      var next :- ModelStep(acc, files[0], load);
      ScanModelsFrom(next, files[1..], load)
  }

  /** `_scan_models` on the files of one directory. */
  method ScanModels(files: seq<SourceFile>, load: Loader) returns (r: Result<Collected>)
    ensures r == ScanModelsFrom(Nothing, files, load)
  {
    var docs := EmptyDocs;
    var records: seq<Record> := [];
    var i := 0;
    while i < |files|
      invariant 0 <= i <= |files|
      invariant ScanModelsFrom(Collected(docs, records), files[i..], load) == ScanModelsFrom(Nothing, files, load)
    {
      var f := files[i];
      assert files[i..][0] == f && files[i..][1..] == files[i + 1..];
      if IsSqlFile(f.name) {
        var tname := ModelName(f.name);
        var split := ReadBlocks(f.content);
        var frag := LoadFragment(split.fragment, load);
        if frag.Err? {
          return Err(frag.error);
        }
        if split.description != "" {
          docs := Put(docs, tname, split.description);
          var extra := Whitelist(QuoteDict(frag.value), ModelKeys);
          if extra.Err? {
            return Err(extra.error);
          }
          records := records + [ModelRecord(tname, extra.value)];
        }
      }
      i := i + 1;
    }
    return Ok(Collected(docs, records));
  }

  /** A file the models scanner makes a record of. */
  predicate Described(f: SourceFile) {
    IsSqlFile(f.name) && ReadBlocks(f.content).description != ""
  }

  function CountDescribed(files: seq<SourceFile>): nat {
    if files == [] then 0 else (if Described(files[0]) then 1 else 0) + CountDescribed(files[1..])
  }

  /** A successful models scan makes one record per described `sql` file. */
  lemma {:induction false} ScanModelsCount(acc: Collected, files: seq<SourceFile>, load: Loader)
    requires ScanModelsFrom(acc, files, load).Ok?
    ensures |ScanModelsFrom(acc, files, load).value.records| == |acc.records| + CountDescribed(files)
    ensures acc.records <= ScanModelsFrom(acc, files, load).value.records
    decreases |files|
  {
    if files != [] {
      var f := files[0];
      var next := ModelStep(acc, f, load).value;
      if Described(f) {
        var split := ReadBlocks(f.content);
        assert next == AddModel(acc, ModelName(f.name), split.description, LoadFragment(split.fragment, load).value).value;
      } else {
        assert next == acc;
      }
      ScanModelsCount(next, files[1..], load);
    }
  }

  /** A comment's fragment is absent, or one the loader reads as a mapping. */
  predicate LoadsToMap(fragment: Option<string>, load: Loader) {
    fragment.None? || (load(fragment.value).Some? && load(fragment.value).value.Map?)
  }

  /**
   * A described `sql` file whose fragment is absent or a mapping adds its record:
   * looking a key up in a mapping cannot raise.
   */
  lemma DescribedModelStepOk(acc: Collected, f: SourceFile, load: Loader)
    requires Described(f) && LoadsToMap(ReadBlocks(f.content).fragment, load)
    ensures var r := ModelStep(acc, f, load);
      && r.Ok?
      && |r.value.records| == |acc.records| + 1
      && r.value.records[..|acc.records|] == acc.records
      && RecordName(r.value.records[|acc.records|]) == ModelName(f.name)
  {
    var split := ReadBlocks(f.content);
    var frag := LoadFragment(split.fragment, load);
    assert frag.Ok? && frag.value.Map?;
    var r := AddModel(acc, ModelName(f.name), split.description, frag.value).value;
    assert r.records[|acc.records|][..2] == ModelRecord(ModelName(f.name), []);
    assert r.records[|acc.records|][0] == r.records[|acc.records|][..2][0];
  }

  /** Every `sql` file of a models directory has no fragment or a mapping one. */
  predicate ModelFragmentsAreMaps(files: seq<SourceFile>, load: Loader) {
    forall f <- files :: IsSqlFile(f.name) ==> LoadsToMap(ReadBlocks(f.content).fragment, load)
  }

  /**
   * A models directory whose fragments are all absent or mappings is scanned
   * without error, with one record per described `sql` file.
   */
  lemma {:induction false} ScanModelsOk(acc: Collected, files: seq<SourceFile>, load: Loader)
    requires ModelFragmentsAreMaps(files, load)
    ensures ScanModelsFrom(acc, files, load).Ok?
    ensures |ScanModelsFrom(acc, files, load).value.records| == |acc.records| + CountDescribed(files)
    decreases |files|
  {
    if files != [] {
      var f := files[0];
      assert f in files;
      if Described(f) {
        DescribedModelStepOk(acc, f, load);
      }
      var next := ModelStep(acc, f, load);
      assert next.Ok?;
      assert forall g <- files[1..] :: g in files;
      ScanModelsOk(next.value, files[1..], load);
    }
    ScanModelsCount(acc, files, load);
  }

  /**
   * What the models scanner keeps true: a well-formed doc dictionary whose keys
   * are exactly the record names, and every record leading with its name and a
   * reference to the doc block of that name.
   */
  predicate ModelsConsistent(c: Collected) {
    && ValidDocs(c.docs)
    && (forall k <- c.docs.values :: k in Names(c.records))
    && (forall k <- Names(c.records) :: k in c.docs.values)
    && (forall i :: 0 <= i < |c.records| ==>
          |c.records[i]| >= 2 && c.records[i][1] == Entry("description", Quoted(DocRef(RecordName(c.records[i])))))
  }

  lemma AddModelConsistent(acc: Collected, tname: string, description: string, frag: Node)
    requires ModelsConsistent(acc) && AddModel(acc, tname, description, frag).Ok?
    ensures ModelsConsistent(AddModel(acc, tname, description, frag).value)
  {
    var r := AddModel(acc, tname, description, frag).value;
    var rec := r.records[|acc.records|];
    assert r.records == acc.records + [rec];
    assert rec[..2] == ModelRecord(tname, []);
    assert RecordName(rec) == tname && rec[1] == Entry("description", Quoted(DocRef(tname)));
    PutValid(acc.docs, tname, description);
    assert Names(r.records) == Names(acc.records) + [tname];
  }

  lemma ModelStepConsistent(acc: Collected, f: SourceFile, load: Loader)
    requires ModelsConsistent(acc) && ModelStep(acc, f, load).Ok?
    ensures ModelsConsistent(ModelStep(acc, f, load).value)
  {
    if IsSqlFile(f.name) {
      var split := ReadBlocks(f.content);
      if split.description != "" {
        AddModelConsistent(acc, ModelName(f.name), split.description, LoadFragment(split.fragment, load).value);
      }
    }
  }

  /** The models scan keeps the doc dictionary and the records consistent. */
  lemma {:induction false} ScanModelsConsistent(acc: Collected, files: seq<SourceFile>, load: Loader)
    requires ModelsConsistent(acc) && ScanModelsFrom(acc, files, load).Ok?
    ensures ModelsConsistent(ScanModelsFrom(acc, files, load).value)
    decreases |files|
  {
    if files != [] {
      ModelStepConsistent(acc, files[0], load);
      ScanModelsConsistent(ModelStep(acc, files[0], load).value, files[1..], load);
    }
  }

  /**
   * Every successful models scan of a directory, from nothing, ends consistent:
   * each doc block has a record and each record has its doc block.
   */
  lemma ModelsScanConsistent(files: seq<SourceFile>, load: Loader)
    requires ScanModelsFrom(Nothing, files, load).Ok?
    ensures ModelsConsistent(ScanModelsFrom(Nothing, files, load).value)
  {
    ScanModelsConsistent(Nothing, files, load);
  }

  /**
   * A described model whose fragment is given as an empty fence fails: the loader
   * yields `None` for empty text, and `key in None` raises.
   */
  lemma EmptyFenceFailsModel(acc: Collected, f: SourceFile, load: Loader)
    requires Described(f) && ReadBlocks(f.content).fragment == Some("") && load("") == Some(Null)
    ensures ModelStep(acc, f, load) == Err(FragmentTypeError("columns"))
  {
  }

  // ---------------------------------------------------------------------------
  // _scan_macros
  // ---------------------------------------------------------------------------

  const MacroKeys := ["arguments", "docs"]

  /**
   * What a construct adds: a record named by `ResourceName`; when described, a doc
   * block keyed by its base name and a doc reference in the record; when the
   * fragment is truthy, the listed keys of the quoted fragment.
   */
  function AddConstruct(acc: Collected, c: Construct, description: string, frag: Node): (r: Result<Collected>)
    ensures r.Ok? ==> r.value.docs == if description != "" then Put(acc.docs, c.name, description) else acc.docs
    ensures r.Ok? ==> |r.value.records| == |acc.records| + 1 && r.value.records[..|acc.records|] == acc.records
    ensures r.Ok? ==> |r.value.records[|acc.records|]| >= 1 && RecordName(r.value.records[|acc.records|]) == ResourceName(c)
    ensures r.Ok? && description == "" ==> forall e <- r.value.records[|acc.records|][1..] :: e.key in MacroKeys
    ensures r.Ok? && description != "" ==>
      (|r.value.records[|acc.records|]| >= 2
       && r.value.records[|acc.records|][1] == Entry("description", Quoted(DocRef(c.name))))
    ensures !Truthy(frag) ==> r.Ok? && |r.value.records[|acc.records|]| == if description != "" then 2 else 1
    ensures r.Err? <==> Truthy(frag) && Whitelist(QuoteDict(frag), MacroKeys).Err?
    ensures frag.Map? ==> r.Ok?
    ensures r.Ok? ==> var rec, h := r.value.records[|acc.records|], if description != "" then 2 else 1;
      && |rec| >= h
      && if Truthy(frag) then Whitelist(QuoteDict(frag), MacroKeys) == Ok(rec[h..]) else rec[h..] == []
  {
    var described := description != "";
    var docs := if described then Put(acc.docs, c.name, description) else acc.docs;
    var head := [Entry("name", Quoted(ResourceName(c)))]
      + (if described then [Entry("description", Quoted(DocRef(c.name)))] else []);
    var extra :- if Truthy(frag) then Whitelist(QuoteDict(frag), MacroKeys) else Ok([]);
    var rec := head + extra;
    assert rec[0] == head[0];
    assert !described ==> rec[1..] == extra;
    assert described ==> rec[1] == head[1];
    assert rec[|head|..] == extra;
    Ok(Collected(docs, acc.records + [rec]))
  }

  /**
   * One construct block. The header is read first and fails when the header regex
   * does not match; the comment is then split as in `_read_blocks`, and the
   * fragment loaded; a construct is added whether or not it has a description.
   */
  function MacroBlockStep(acc: Collected, block: string, load: Loader): (r: Result<Collected>)
    ensures MatchHeader(block).None? ==> r == Err(MalformedHeader(block))
    ensures var frag := ReadBlocks(block).fragment;
      MatchHeader(block).Some? && frag.Some? && load(frag.value).None? ==> r == Err(MalformedFragment(frag.value))
  {
    var c :- ParseHeader(block);
    var split := ReadBlocks(block);
    var frag :- LoadFragment(split.fragment, load);
    AddConstruct(acc, c, split.description, frag)
  }

  /** The remaining blocks of a file: they only append records. */
  function MacroBlocksFrom(acc: Collected, blocks: seq<string>, load: Loader): (r: Result<Collected>)
    ensures r.Ok? ==> acc.records <= r.value.records
    decreases |blocks|
  {
    if blocks == [] then Ok(acc)
    else
      var next :- MacroBlockStep(acc, blocks[0], load);
      MacroBlocksFrom(next, blocks[1..], load)
  }

  /** One file of a macros directory: its construct blocks, unless it is skipped. */
  function MacroStep(acc: Collected, f: SourceFile, load: Loader): (r: Result<Collected>)
    ensures !IsSqlFile(f.name) ==> r == Ok(acc)
  {
    if !IsSqlFile(f.name) then Ok(acc) else MacroBlocksFrom(acc, FindAll(f.content), load)
  }

  /** The scan of the remaining files of a macros directory: it only appends records. */
  function ScanMacrosFrom(acc: Collected, files: seq<SourceFile>, load: Loader): (r: Result<Collected>)
    ensures r.Ok? ==> acc.records <= r.value.records
    decreases |files|
  {
    if files == [] then Ok(acc)
    else
      var next :- MacroStep(acc, files[0], load);
      ScanMacrosFrom(next, files[1..], load)
  }

  /** The inner loop of `_scan_macros`: the blocks of one file, in order. */
  method AddBlocks(acc: Collected, blocks: seq<string>, load: Loader) returns (r: Result<Collected>)
    ensures r == MacroBlocksFrom(acc, blocks, load)
  {
    var cur := acc;
    var j := 0;
    while j < |blocks|
      invariant 0 <= j <= |blocks|
      invariant MacroBlocksFrom(cur, blocks[j..], load) == MacroBlocksFrom(acc, blocks, load)
    {
      assert blocks[j..][0] == blocks[j] && blocks[j..][1..] == blocks[j + 1..];
      var next := MacroBlockStep(cur, blocks[j], load);
      if next.Err? {
        return Err(next.error);
      }
      cur := next.value;
      j := j + 1;
    }
    return Ok(cur);
  }

  /** `_scan_macros` on the files of one directory. */
  method ScanMacros(files: seq<SourceFile>, load: Loader) returns (r: Result<Collected>)
    ensures r == ScanMacrosFrom(Nothing, files, load)
  {
    var acc := Nothing;
    var i := 0;
    while i < |files|
      invariant 0 <= i <= |files|
      invariant ScanMacrosFrom(acc, files[i..], load) == ScanMacrosFrom(Nothing, files, load)
    {
      var f := files[i];
      assert files[i..][0] == f && files[i..][1..] == files[i + 1..];
      if IsSqlFile(f.name) {
        var blocks := FindAll(f.content);
        var next := AddBlocks(acc, blocks, load);
        if next.Err? {
          return Err(next.error);
        }
        acc := next.value;
      }
      i := i + 1;
    }
    return Ok(acc);
  }

  /** The number of construct blocks the scanner visits in the files. */
  function CountBlocks(files: seq<SourceFile>): nat {
    if files == [] then 0
    else (if IsSqlFile(files[0].name) then |FindAll(files[0].content)| else 0) + CountBlocks(files[1..])
  }

  lemma {:induction false} MacroBlocksCount(acc: Collected, blocks: seq<string>, load: Loader)
    requires MacroBlocksFrom(acc, blocks, load).Ok?
    ensures |MacroBlocksFrom(acc, blocks, load).value.records| == |acc.records| + |blocks|
    ensures acc.records <= MacroBlocksFrom(acc, blocks, load).value.records
    decreases |blocks|
  {
    if blocks != [] {
      var c := ParseHeader(blocks[0]).value;
      var split := ReadBlocks(blocks[0]);
      var next := AddConstruct(acc, c, split.description, LoadFragment(split.fragment, load).value).value;
      assert next == MacroBlockStep(acc, blocks[0], load).value;
      assert acc.records <= next.records;
      MacroBlocksCount(next, blocks[1..], load);
    }
  }

  /**
   * A successful macros scan makes exactly one record per construct block, whether
   * or not the block has a description.
   */
  lemma {:induction false} ScanMacrosCount(acc: Collected, files: seq<SourceFile>, load: Loader)
    requires ScanMacrosFrom(acc, files, load).Ok?
    ensures |ScanMacrosFrom(acc, files, load).value.records| == |acc.records| + CountBlocks(files)
    decreases |files|
  {
    if files != [] {
      var next := MacroStep(acc, files[0], load).value;
      if IsSqlFile(files[0].name) {
        MacroBlocksCount(acc, FindAll(files[0].content), load);
      }
      ScanMacrosCount(next, files[1..], load);
    }
  }

  /** A fragment that is absent, or that the loader reads as a falsy value or a mapping. */
  predicate LoadsToUsable(fragment: Option<string>, load: Loader) {
    fragment.None?
    || (load(fragment.value).Some? && (!Truthy(load(fragment.value).value) || load(fragment.value).value.Map?))
  }

  /**
   * A block whose header matches and whose fragment is absent, falsy or a mapping
   * adds its record, named by `ResourceName`.
   */
  lemma MacroBlockStepOk(acc: Collected, block: string, load: Loader)
    requires MatchHeader(block).Some? && LoadsToUsable(ReadBlocks(block).fragment, load)
    ensures var r := MacroBlockStep(acc, block, load);
      && r.Ok?
      && |r.value.records| == |acc.records| + 1
      && r.value.records[..|acc.records|] == acc.records
      && RecordName(r.value.records[|acc.records|]) == ResourceName(ParseHeader(block).value)
  {
    var frag := LoadFragment(ReadBlocks(block).fragment, load);
    assert frag.Ok? && (!Truthy(frag.value) || frag.value.Map?);
  }

  /** Every block has a matching header and an absent, falsy or mapping fragment. */
  predicate BlocksUsable(blocks: seq<string>, load: Loader) {
    forall b <- blocks :: MatchHeader(b).Some? && LoadsToUsable(ReadBlocks(b).fragment, load)
  }

  lemma {:induction false} MacroBlocksOk(acc: Collected, blocks: seq<string>, load: Loader)
    requires BlocksUsable(blocks, load)
    ensures MacroBlocksFrom(acc, blocks, load).Ok?
    decreases |blocks|
  {
    if blocks != [] {
      assert blocks[0] in blocks;
      MacroBlockStepOk(acc, blocks[0], load);
      assert forall b <- blocks[1..] :: b in blocks;
      MacroBlocksOk(MacroBlockStep(acc, blocks[0], load).value, blocks[1..], load);
    }
  }

  /** Every block of every `sql` file of a macros directory is usable. */
  predicate MacroFilesUsable(files: seq<SourceFile>, load: Loader) {
    forall f <- files :: IsSqlFile(f.name) ==> BlocksUsable(FindAll(f.content), load)
  }

  /**
   * A macros directory whose blocks all have a matching header and an absent,
   * falsy or mapping fragment is scanned without error, with one record per block.
   */
  lemma {:induction false} ScanMacrosOk(acc: Collected, files: seq<SourceFile>, load: Loader)
    requires MacroFilesUsable(files, load)
    ensures ScanMacrosFrom(acc, files, load).Ok?
    ensures |ScanMacrosFrom(acc, files, load).value.records| == |acc.records| + CountBlocks(files)
    decreases |files|
  {
    if files != [] {
      assert files[0] in files;
      if IsSqlFile(files[0].name) {
        MacroBlocksOk(acc, FindAll(files[0].content), load);
      }
      assert forall g <- files[1..] :: g in files;
      ScanMacrosOk(MacroStep(acc, files[0], load).value, files[1..], load);
    }
    ScanMacrosCount(acc, files, load);
  }

  /** The names the records' doc references point at, in record order. */
  function DocTargets(records: seq<Record>): seq<string>
    decreases |records|
  {
    if records == [] then []
    else
      DocTargets(records[..|records| - 1])
      + match DocTarget(records[|records| - 1]) case Some(k) => [k] case None => []
  }

  /**
   * What the macros scanner keeps true: a well-formed doc dictionary whose keys are
   * exactly the names the records' doc references point at. Each doc block is
   * referred to by a record, and each doc reference has its doc block.
   */
  predicate MacrosConsistent(c: Collected) {
    && ValidDocs(c.docs)
    && (forall k <- c.docs.values :: k in DocTargets(c.records))
    && (forall k <- DocTargets(c.records) :: k in c.docs.values)
  }

  lemma AddConstructConsistent(acc: Collected, c: Construct, description: string, frag: Node)
    requires MacrosConsistent(acc) && AddConstruct(acc, c, description, frag).Ok?
    ensures MacrosConsistent(AddConstruct(acc, c, description, frag).value)
  {
    var r := AddConstruct(acc, c, description, frag).value;
    var rec := r.records[|acc.records|];
    assert r.records == acc.records + [rec];
    assert r.records[..|r.records| - 1] == acc.records;
    if description != "" {
      assert DocTarget(rec) == Some(c.name);
      assert DocTargets(r.records) == DocTargets(acc.records) + [c.name];
      PutValid(acc.docs, c.name, description);
    } else {
      if |rec| >= 2 {
        assert rec[1] in rec[1..];
      }
      assert DocTarget(rec) == None;
      assert DocTargets(r.records) == DocTargets(acc.records);
    }
  }

  lemma MacroBlockStepConsistent(acc: Collected, block: string, load: Loader)
    requires MacrosConsistent(acc) && MacroBlockStep(acc, block, load).Ok?
    ensures MacrosConsistent(MacroBlockStep(acc, block, load).value)
  {
    var c := ParseHeader(block).value;
    var split := ReadBlocks(block);
    AddConstructConsistent(acc, c, split.description, LoadFragment(split.fragment, load).value);
  }

  lemma {:induction false} MacroBlocksConsistent(acc: Collected, blocks: seq<string>, load: Loader)
    requires MacrosConsistent(acc) && MacroBlocksFrom(acc, blocks, load).Ok?
    ensures MacrosConsistent(MacroBlocksFrom(acc, blocks, load).value)
    decreases |blocks|
  {
    if blocks != [] {
      MacroBlockStepConsistent(acc, blocks[0], load);
      MacroBlocksConsistent(MacroBlockStep(acc, blocks[0], load).value, blocks[1..], load);
    }
  }

  /** The macros scan keeps the doc dictionary and the doc references consistent. */
  lemma {:induction false} ScanMacrosConsistent(acc: Collected, files: seq<SourceFile>, load: Loader)
    requires MacrosConsistent(acc) && ScanMacrosFrom(acc, files, load).Ok?
    ensures MacrosConsistent(ScanMacrosFrom(acc, files, load).value)
    decreases |files|
  {
    if files != [] {
      if IsSqlFile(files[0].name) {
        MacroBlocksConsistent(acc, FindAll(files[0].content), load);
      }
      ScanMacrosConsistent(MacroStep(acc, files[0], load).value, files[1..], load);
    }
  }

  /**
   * Every successful macros scan of a directory, from nothing, ends consistent;
   * in particular its doc dictionary is well formed, as the doc file writer needs.
   */
  lemma MacrosScanConsistent(files: seq<SourceFile>, load: Loader)
    requires ScanMacrosFrom(Nothing, files, load).Ok?
    ensures MacrosConsistent(ScanMacrosFrom(Nothing, files, load).value)
  {
    ScanMacrosConsistent(Nothing, files, load);
  }

  /**
   * A test and a macro of the same base name, both described, share a doc block:
   * the later description replaces the earlier one, while each keeps its record.
   */
  lemma TestAndMacroShareDocBlock(acc: Collected, t: Construct, m: Construct, d1: string, d2: string, f1: Node, f2: Node)
    requires t.keyword == Test && m.keyword == Macro && t.name == m.name && d1 != "" && d2 != ""
    requires AddConstruct(acc, t, d1, f1).Ok?
    requires AddConstruct(AddConstruct(acc, t, d1, f1).value, m, d2, f2).Ok?
    ensures var r := AddConstruct(AddConstruct(acc, t, d1, f1).value, m, d2, f2).value;
      && |r.records| == |acc.records| + 2
      && RecordName(r.records[|acc.records|]) == "test_" + t.name
      && RecordName(r.records[|acc.records| + 1]) == m.name
      && r.docs.values == acc.docs.values[t.name := d2]
  {
    var r1 := AddConstruct(acc, t, d1, f1).value;
    var r := AddConstruct(r1, m, d2, f2).value;
    assert r.records[|acc.records|] == r.records[..|r1.records|][|acc.records|] == r1.records[|acc.records|];
    assert RecordName(r1.records[|acc.records|]) == ResourceName(t) == "test_" + t.name;
    assert RecordName(r.records[|r1.records|]) == ResourceName(m) == m.name;
    assert r.docs == Put(r1.docs, m.name, d2) && r1.docs == Put(acc.docs, t.name, d1);
    assert r.docs.values == acc.docs.values[t.name := d1][t.name := d2];
    Overwrite(acc.docs.values, t.name, d1, d2);
  }

  /** A second store under the same key replaces the first. */
  lemma Overwrite(values: map<string, string>, k: string, v1: string, v2: string)
    ensures values[k := v1][k := v2] == values[k := v2]
  {
  }
}
