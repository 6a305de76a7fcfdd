/**
 * The structured fragment embedded in a doc comment: the value `yaml.load` returns,
 * as a tagged tree, and the `_quote_dict` walk that marks its strings as `quoted`.
 */
module Fragment {
  import opened Results
  import PyText

  /**
   * A loaded YAML value. `Quoted` is a string wrapped in the `quoted` subclass of
   * `str`; the loader itself never produces one. Mapping keys are strings, and a
   * mapping's entries keep the order of the document.
   */
  datatype Node =
    | Null
    | Bool(b: bool)
    | Int(i: int)
    | Str(s: string)
    | Quoted(q: string)
    | Seq(items: seq<Node>)
    | Map(entries: seq<Entry>)

  datatype Entry = Entry(key: string, value: Node)

  /** The loader, `yaml.load(text)`, taken as given: `None` when it raises. */
  type Loader = string -> Option<Node>

  /**
   * Python truthiness of a loaded value (`if a_dbt:`). A falsy value is one
   * `_quote_dict` returns from at once.
   */
  predicate Truthy(n: Node)
    ensures !Truthy(n) ==> QuoteDict(n) == n
  {
    match n
    case Null => false
    case Bool(b) => b
    case Int(i) => i != 0
    case Str(s) => s != ""
    case Quoted(q) => q != ""
    case Seq(items) => items != []
    case Map(entries) => entries != []
  }

  function Keys(es: seq<Entry>): (ks: seq<string>)
    ensures |ks| == |es| && forall i :: 0 <= i < |es| ==> ks[i] == es[i].key
  {
    seq(|es|, i requires 0 <= i < |es| => es[i].key)
  }

  // ---------------------------------------------------------------------------
  // _quote_dict
  // ---------------------------------------------------------------------------

  /**
   * The effect of `_quote_dict(d)` on `d`: nothing unless `d` is a non-empty
   * mapping; otherwise every value of the mapping goes through `QuoteValue`.
   */
  function QuoteDict(d: Node): (r: Node)
    ensures r.Map? <==> d.Map?
    ensures d.Map? ==> Keys(r.entries) == Keys(d.entries)
    decreases d, 0
  {
    match d
    case Map(es) =>
      Map(seq(|es|, i requires 0 <= i < |es| => Entry(es[i].key, QuoteValue(es[i].value))))
    case _ => d
  }

  /**
   * What one loop iteration of `_quote_dict` does to a mapping value: a list has
   * each of its elements passed to `_quote_dict` (so only mapping elements change),
   * a mapping is walked, a string becomes `quoted`, anything else is left alone.
   */
  function QuoteValue(v: Node): (r: Node)
    ensures r.Seq? <==> v.Seq?
    ensures v.Seq? ==> |r.items| == |v.items|
    ensures r.Map? <==> v.Map?
    ensures v.Map? ==> Keys(r.entries) == Keys(v.entries)
    ensures v.Str? ==> r == Quoted(v.s)
    decreases v, 1
  {
    match v
    case Seq(xs) => Seq(seq(|xs|, i requires 0 <= i < |xs| => QuoteDict(xs[i])))
    case Map(_) => QuoteDict(v)
    case Str(s) => Quoted(s)
    case Quoted(q) => Quoted(q)
    case _ => v
  }

  /** The reach of `_quote_dict`: no plain string is left where the walk marks strings. */
  predicate DictQuoted(d: Node)
    decreases d, 0
  {
    match d
    case Map(es) => forall i :: 0 <= i < |es| ==> ValueQuoted(es[i].value)
    case _ => true
  }

  predicate ValueQuoted(v: Node)
    decreases v, 1
  {
    match v
    case Str(_) => false
    case Map(_) => DictQuoted(v)
    case Seq(xs) => forall i :: 0 <= i < |xs| ==> DictQuoted(xs[i])
    case _ => true
  }

  /** The walk reaches every place in its scope: afterwards nothing there is a plain string. */
  lemma {:induction false} QuoteDictQuotes(d: Node)
    ensures DictQuoted(QuoteDict(d))
    decreases d, 0
  {
    match d
    case Map(es) =>
      forall i | 0 <= i < |es| ensures ValueQuoted(QuoteValue(es[i].value)) {
        assert es[i] in es;
        QuoteValueQuotes(es[i].value);
      }
    case _ =>
  }

  lemma {:induction false} QuoteValueQuotes(v: Node)
    ensures ValueQuoted(QuoteValue(v))
    decreases v, 1
  {
    match v
    case Seq(xs) =>
      forall i | 0 <= i < |xs| ensures DictQuoted(QuoteDict(xs[i])) {
        assert xs[i] in xs;
        QuoteDictQuotes(xs[i]);
      }
    case Map(_) => QuoteDictQuotes(v);
    case _ =>
  }

  /** An already-quoted tree is a fixed point of the walk. */
  lemma {:induction false} QuoteDictFixes(d: Node)
    requires DictQuoted(d)
    ensures QuoteDict(d) == d
    decreases d, 0
  {
    match d
    case Map(es) =>
      var es' := QuoteDict(d).entries;
      forall i | 0 <= i < |es| ensures es'[i] == es[i] {
        assert es[i] in es;
        QuoteValueFixes(es[i].value);
      }
      assert es' == es;
    case _ =>
  }

  lemma {:induction false} QuoteValueFixes(v: Node)
    requires ValueQuoted(v)
    ensures QuoteValue(v) == v
    decreases v, 1
  {
    match v
    case Seq(xs) =>
      var xs' := QuoteValue(v).items;
      forall i | 0 <= i < |xs| ensures xs'[i] == xs[i] {
        assert xs[i] in xs;
        QuoteDictFixes(xs[i]);
      }
      assert xs' == xs;
    case Map(_) => QuoteDictFixes(v);
    case _ =>
  }

  /** Quoting twice is quoting once. */
  lemma QuoteDictIdempotent(d: Node)
    ensures QuoteDict(QuoteDict(d)) == QuoteDict(d)
  {
    QuoteDictQuotes(d);
    QuoteDictFixes(QuoteDict(d));
  }

  /** Only a non-empty mapping is changed (`if not d` / `if not isinstance(d, dict)`). */
  lemma QuoteDictNoop(d: Node)
    requires !d.Map? || d.entries == []
    ensures QuoteDict(d) == d
  {
  }

  /**
   * Value by value: a string value becomes `quoted` with the same text; a mapping
   * value is walked; a list value keeps its length, its mapping elements are walked
   * and every other element (strings and nested lists included) is left as it was;
   * any other value is unchanged.
   */
  lemma QuoteDictValues(d: Node, i: nat)
    requires d.Map? && i < |d.entries|
    ensures var v, v' := d.entries[i].value, QuoteDict(d).entries[i].value;
      && (v.Str? ==> v' == Quoted(v.s))
      && (v.Quoted? ==> v' == v)
      && (v.Map? ==> v' == QuoteDict(v))
      && (v.Seq? ==> v'.Seq? && |v'.items| == |v.items|
                     && forall j :: 0 <= j < |v.items| ==>
                          v'.items[j] == (if v.items[j].Map? then QuoteDict(v.items[j]) else v.items[j]))
      && (v.Null? || v.Bool? || v.Int? ==> v' == v)
  {
    var v := d.entries[i].value;
    if v.Seq? {
      forall j | 0 <= j < |v.items| && !v.items[j].Map? ensures QuoteDict(v.items[j]) == v.items[j] {
        QuoteDictNoop(v.items[j]);
      }
    }
  }

  /** Forgetting the `quoted` marker: what the tree says as plain YAML values. */
  function Plain(n: Node): (r: Node)
    decreases n
  {
    match n
    case Quoted(q) => Str(q)
    case Seq(xs) => Seq(seq(|xs|, i requires 0 <= i < |xs| => Plain(xs[i])))
    case Map(es) => Map(seq(|es|, i requires 0 <= i < |es| => Entry(es[i].key, Plain(es[i].value))))
    case _ => n
  }

  /** Quoting changes no text and no structure: only the marker is added. */
  lemma {:induction false} QuoteDictPlain(d: Node)
    ensures Plain(QuoteDict(d)) == Plain(d)
    decreases d, 0
  {
    match d
    case Map(es) =>
      var a, b := Plain(QuoteDict(d)).entries, Plain(d).entries;
      forall i | 0 <= i < |es| ensures a[i] == b[i] {
        assert es[i] in es;
        QuoteValuePlain(es[i].value);
      }
      assert a == b;
    case _ =>
  }

  lemma {:induction false} QuoteValuePlain(v: Node)
    ensures Plain(QuoteValue(v)) == Plain(v)
    decreases v, 1
  {
    match v
    case Seq(xs) =>
      var a, b := Plain(QuoteValue(v)).items, Plain(v).items;
      forall i | 0 <= i < |xs| ensures a[i] == b[i] {
        assert xs[i] in xs;
        QuoteDictPlain(xs[i]);
      }
      assert a == b;
    case Map(_) => QuoteDictPlain(v);
    case _ =>
  }

  /**
   * `_quote_dict` as the source runs it: a loop over the mapping's items that
   * rewrites string values and recurses into mapping values and into the elements
   * of list values. The Python mapping is updated in place; here the updated
   * entries are returned.
   */
  method QuoteInPlace(d: Node) returns (r: Node)
    ensures r == QuoteDict(d)
    decreases d
  {
    if !d.Map? || d.entries == [] {
      return d;
    }
    var es := d.entries;
    for k := 0 to |es|
      invariant |es| == |d.entries|
      invariant forall j :: 0 <= j < k ==> es[j] == QuoteDict(d).entries[j]
      invariant forall j :: k <= j < |es| ==> es[j] == d.entries[j]
    {
      var key, v := es[k].key, es[k].value;
      assert es[k] in d.entries;
      if v.Seq? {
        var items := v.items;
        for m := 0 to |items|
          invariant |items| == |v.items|
          invariant forall j :: 0 <= j < m ==> items[j] == QuoteDict(v.items[j])
          invariant forall j :: m <= j < |items| ==> items[j] == v.items[j]
        {
          assert v.items[m] in v.items;
          var q := QuoteInPlace(items[m]);
          items := items[m := q];
        }
        assert items == QuoteValue(v).items;
        es := es[k := Entry(key, Seq(items))];
      }
      if v.Map? {
        var q := QuoteInPlace(v);
        es := es[k := Entry(key, q)];
      }
      if v.Str? || v.Quoted? {
        es := es[k := Entry(key, Quoted(if v.Str? then v.s else v.q))];
      }
    }
    r := Map(es);
  }

  // ---------------------------------------------------------------------------
  // Copying whitelisted keys: `if key in a_dbt: b[key] = a_dbt[key]`
  // ---------------------------------------------------------------------------

  /** The value under `key` in a list of entries (a Python dict has at most one). */
  function Get(es: seq<Entry>, key: string): (r: Option<Node>)
    ensures r.None? <==> key !in Keys(es)
    ensures r.Some? ==> exists i :: 0 <= i < |es| && es[i] == Entry(key, r.value)
  {
    if es == [] then None
    else if es[0].key == key then Some(es[0].value)
    else
      var r := Get(es[1..], key);
      assert Keys(es) == [es[0].key] + Keys(es[1..]);
      assert r.Some? ==> exists i :: 0 <= i < |es| && es[i] == Entry(key, r.value) by {
        if r.Some? {
          var i :| 0 <= i < |es[1..]| && es[1..][i] == Entry(key, r.value);
          assert es[i + 1] == Entry(key, r.value);
        }
      }
      r
  }

  /**
   * `key in a_dbt` followed by `a_dbt[key]` on whatever the loader returned. A
   * mapping answers with the value, if any. On a list, `in` compares elements with
   * the string, and a hit then fails on `a_dbt[key]`; on a string, `in` is a
   * substring test, and a hit fails the same way. `None`, booleans and numbers
   * fail on `in` itself.
   */
  function Lookup(frag: Node, key: string): (r: Result<Option<Node>>)
    ensures frag.Map? ==> r == Ok(Get(frag.entries, key))
    ensures r.Err? ==> r.error == FragmentTypeError(key)
    ensures (frag.Null? || frag.Bool? || frag.Int?) ==> r.Err?
    ensures r == Ok(None) || frag.Map? || r.Err?
  {
    match frag
    case Map(es) => Ok(Get(es, key))
    case Seq(xs) => if Str(key) in xs || Quoted(key) in xs then Err(FragmentTypeError(key)) else Ok(None)
    case Str(s) => if PyText.Find(s, key, 0) >= 0 then Err(FragmentTypeError(key)) else Ok(None)
    case Quoted(q) => if PyText.Find(q, key, 0) >= 0 then Err(FragmentTypeError(key)) else Ok(None)
    case _ => Err(FragmentTypeError(key))
  }

  /**
   * The entries `b[key] = a_dbt[key]` adds to a record, for the listed keys in
   * order: exactly the listed keys the fragment mapping holds, with its values.
   */
  function Whitelist(frag: Node, keys: seq<string>): (r: Result<seq<Entry>>)
    ensures r.Ok? ==> forall e :: e in r.value ==> e.key in keys
    ensures r.Ok? && frag.Map? ==>
      forall e :: e in r.value ==> Get(frag.entries, e.key) == Some(e.value)
    ensures r.Ok? && !frag.Map? ==> r.value == []
    ensures frag.Map? ==> r.Ok?
  {
    if keys == [] then Ok([])
    else
      var hit :- Lookup(frag, keys[0]);
      var rest :- Whitelist(frag, keys[1..]);
      var here := if hit.Some? then [Entry(keys[0], hit.value)] else [];
      Ok(here + rest)
  }

  /** The keys of two entry lists joined are their keys joined. */
  lemma KeysAppend(a: seq<Entry>, b: seq<Entry>)
    ensures Keys(a + b) == Keys(a) + Keys(b)
  {
    assert forall i :: 0 <= i < |a| + |b| ==> Keys(a + b)[i] == (Keys(a) + Keys(b))[i];
  }

  /** The keys of `keys` that occur in `ks`, in the order of `keys`. */
  function ListedIn(keys: seq<string>, ks: seq<string>): (r: seq<string>)
    ensures forall k <- r :: k in keys && k in ks
  {
    if keys == [] then []
    else (if keys[0] in ks then [keys[0]] else []) + ListedIn(keys[1..], ks)
  }

  /**
   * On a mapping, the record gets the listed keys the mapping holds, one entry
   * each, in the order they are listed.
   */
  lemma {:induction false} WhitelistInOrder(frag: Node, keys: seq<string>)
    requires frag.Map? && Whitelist(frag, keys).Ok?
    ensures Keys(Whitelist(frag, keys).value) == ListedIn(keys, Keys(frag.entries))
  {
    if keys != [] {
      var hit := Get(frag.entries, keys[0]);
      assert Lookup(frag, keys[0]) == Ok(hit);
      var rest := Whitelist(frag, keys[1..]).value;
      var here := if hit.Some? then [Entry(keys[0], hit.value)] else [];
      assert Whitelist(frag, keys).value == here + rest;
      WhitelistInOrder(frag, keys[1..]);
      KeysAppend(here, rest);
      assert Keys(here) == if keys[0] in Keys(frag.entries) then [keys[0]] else [];
    }
  }

  /** No listed key the fragment mapping holds is left out of the record. */
  lemma {:induction false} WhitelistKeepsListed(frag: Node, keys: seq<string>, k: string)
    requires frag.Map? && Whitelist(frag, keys).Ok?
    requires k in keys && k in Keys(frag.entries)
    ensures k in Keys(Whitelist(frag, keys).value)
  {
    var hit := Get(frag.entries, keys[0]);
    assert Lookup(frag, keys[0]) == Ok(hit);
    var rest := Whitelist(frag, keys[1..]).value;
    var here := if hit.Some? then [Entry(keys[0], hit.value)] else [];
    assert Whitelist(frag, keys).value == here + rest;
    if k == keys[0] {
      assert hit.Some?;
      assert Keys(here + rest)[0] == k;
    } else {
      assert k in keys[1..];
      WhitelistKeepsListed(frag, keys[1..], k);
      KeysAppend(here, rest);
    }
  }
}
