/**
 * The text the writers produce: `_write_doc_md` in full, and the part of
 * `_write_property_yml` before the YAML dump of the records.
 */
module Output {
  import opened Fragment
  import opened Assembler

  /** The banner every doc file starts with. */
  const DocHeader := "# This file was auto-generated by dbtdocstr.\n# Don't manually update.\n"

  /** The banner every property file starts with, ending in the YAML document marker. */
  const PropertyHeader := "# This file was auto-generated by dbtdocstr.\n# Don't manually update.\n---\n"

  /** The top-level key of the property file each scanner writes. */
  const ModelsKind := "models"
  const MacrosKind := "macros"

  /** One doc block: the `docs` tag naming it, its text, and the closing tag. */
  function DocSection(key: string, text: string): string {
    "{% docs " + key + " %}\n" + text + "\n" + "{% enddocs %}\n\n"
  }

  /** The doc blocks of `keys`, in that order. */
  function Sections(keys: seq<string>, values: map<string, string>): string
    requires forall k <- keys :: k in values
  {
    if keys == [] then ""
    else Sections(keys[..|keys| - 1], values) + DocSection(keys[|keys| - 1], values[keys[|keys| - 1]])
  }

  /** The doc file: the banner, then every doc block in insertion order. */
  function DocText(d: DocMap): (text: string)
    requires forall k <- d.keys :: k in d.values
    ensures |text| >= |DocHeader| && text[..|DocHeader|] == DocHeader
  {
    DocHeader + Sections(d.keys, d.values)
  }

  /** `_write_doc_md`: the banner, then one doc block per key, written in order. */
  method WriteDocText(d: DocMap) returns (text: string)
    requires forall k <- d.keys :: k in d.values
    ensures text == DocText(d)
  {
    text := DocHeader;
    if d.keys == [] {
      return;
    }
    for i := 0 to |d.keys|
      invariant text == DocHeader + Sections(d.keys[..i], d.values)
    {
      var key := d.keys[i];
      text := text + DocSection(key, d.values[key]);
      assert d.keys[..i + 1][..i] == d.keys[..i];
    }
    assert d.keys[..|d.keys|] == d.keys;
  }

  /** The doc file is the banner alone exactly when there are no doc blocks. */
  lemma DocTextEmpty(d: DocMap)
    requires forall k <- d.keys :: k in d.values
    ensures DocText(d) == DocHeader <==> d.keys == []
  {
    if d.keys != [] {
      assert |DocText(d)| > |DocHeader|;
    }
  }

  /** The doc blocks depend only on the values of the keys written. */
  lemma {:induction false} SectionsFrame(keys: seq<string>, v1: map<string, string>, v2: map<string, string>)
    requires forall k <- keys :: k in v1 && k in v2 && v1[k] == v2[k]
    ensures Sections(keys, v1) == Sections(keys, v2)
  {
    if keys != [] {
      SectionsFrame(keys[..|keys| - 1], v1, v2);
    }
  }

  /** Adding a new name appends its doc block at the end of the doc file. */
  lemma DocTextPutNew(d: DocMap, k: string, v: string)
    requires ValidDocs(d) && k !in d.values
    ensures DocText(Put(d, k, v)) == DocText(d) + DocSection(k, v)
  {
    var e := Put(d, k, v);
    assert e.keys[..|e.keys| - 1] == d.keys && e.keys[|e.keys| - 1] == k;
    SectionsFrame(d.keys, d.values, e.values);
    var before := Sections(d.keys, d.values);
    assert Sections(e.keys, e.values) == before + DocSection(k, v);
    assert DocHeader + (before + DocSection(k, v)) == DocHeader + before + DocSection(k, v);
  }

  /**
   * The head of the property file: the banner alone when there are no records,
   * otherwise followed by the version line and the top-level key.
   */
  function PropertyFileHead(records: seq<Record>, kind: string): (head: string)
    ensures |head| >= |PropertyHeader| && head[..|PropertyHeader|] == PropertyHeader
  {
    if records == [] then PropertyHeader else PropertyHeader + "version: 2\n" + kind + ":\n"
  }

  /** The property file holds more than the banner exactly when there is a record. */
  lemma PropertyFileHeadEmpty(records: seq<Record>, kind: string)
    ensures PropertyFileHead(records, kind) == PropertyHeader <==> records == []
    ensures records != [] ==> PropertyFileHead(records, kind)[..|PropertyHeader|] == PropertyHeader
  {
    if records != [] {
      assert |PropertyFileHead(records, kind)| > |PropertyHeader|;
    }
  }

  /**
   * The property file of a models directory names `models`, and holds records
   * exactly when some `sql` file of the directory is described.
   */
  lemma ModelsPropertyHead(files: seq<SourceFile>, load: Loader)
    requires ScanModelsFrom(Nothing, files, load).Ok?
    ensures PropertyFileHead(ScanModelsFrom(Nothing, files, load).value.records, ModelsKind)
      == if CountDescribed(files) == 0 then PropertyHeader else PropertyHeader + "version: 2\n" + ModelsKind + ":\n"
  {
    var c := ScanModelsFrom(Nothing, files, load).value;
    ScanModelsCount(Nothing, files, load);
    assert c.records == [] <==> CountDescribed(files) == 0;
  }

  /**
   * The property file of a macros directory names `macros`, and holds records
   * exactly when the `sql` files of the directory hold a construct block.
   */
  lemma MacrosPropertyHead(files: seq<SourceFile>, load: Loader)
    requires ScanMacrosFrom(Nothing, files, load).Ok?
    ensures PropertyFileHead(ScanMacrosFrom(Nothing, files, load).value.records, MacrosKind)
      == if CountBlocks(files) == 0 then PropertyHeader else PropertyHeader + "version: 2\n" + MacrosKind + ":\n"
  {
    var c := ScanMacrosFrom(Nothing, files, load).value;
    ScanMacrosCount(Nothing, files, load);
    assert c.records == [] <==> CountBlocks(files) == 0;
  }

  /**
   * After a models scan the doc file is the banner alone exactly when the
   * property file is: both are empty exactly when no model is described.
   */
  lemma ModelsDocFileEmpty(files: seq<SourceFile>, load: Loader)
    requires ScanModelsFrom(Nothing, files, load).Ok?
    ensures var c := ScanModelsFrom(Nothing, files, load).value;
      ValidDocs(c.docs) && (DocText(c.docs) == DocHeader <==> c.records == [])
  {
    var c := ScanModelsFrom(Nothing, files, load).value;
    ModelsScanConsistent(files, load);
    DocTextEmpty(c.docs);
    if c.records != [] {
      assert Names(c.records)[0] in Names(c.records);
      assert Names(c.records)[0] in c.docs.values;
    }
    if c.docs.keys != [] {
      assert c.docs.keys[0] in c.docs.values;
    }
  }

  /**
   * After a macros scan the doc file is the banner alone exactly when no record
   * carries a doc reference.
   */
  lemma MacrosDocFileEmpty(files: seq<SourceFile>, load: Loader)
    requires ScanMacrosFrom(Nothing, files, load).Ok?
    ensures var c := ScanMacrosFrom(Nothing, files, load).value;
      ValidDocs(c.docs) && (DocText(c.docs) == DocHeader <==> DocTargets(c.records) == [])
  {
    var c := ScanMacrosFrom(Nothing, files, load).value;
    MacrosScanConsistent(files, load);
    DocTextEmpty(c.docs);
    if DocTargets(c.records) != [] {
      assert DocTargets(c.records)[0] in DocTargets(c.records);
    }
    if c.docs.keys != [] {
      assert c.docs.keys[0] in c.docs.values;
    }
  }
}
