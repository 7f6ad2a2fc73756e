/** The JSON-like values the editor holds in memory: what `JSON.parse`,
    the table-literal reader and the save-file objects produce. Object
    properties are kept in insertion order. */
module JsValue {
  import opened Wrappers

  datatype JVal =
    | JNull
    | JBool(b: bool)
    | JNum(n: int)
    | JStr(s: string)
    | JArr(items: seq<JVal>)
    | JObj(fields: seq<Field>)

  datatype Field = Field(key: string, value: JVal)

  function Keys(fs: seq<Field>): (ks: seq<string>)
    ensures |ks| == |fs|
    ensures forall i :: 0 <= i < |fs| ==> ks[i] == fs[i].key
  {
    if fs == [] then [] else [fs[0].key] + Keys(fs[1..])
  }

  /** No property name occurs twice, as in every JavaScript object. */
  predicate DistinctKeys(fs: seq<Field>)
  {
    forall i, j :: 0 <= i < j < |fs| ==> fs[i].key != fs[j].key
  }

  /** Position of the property named `k`, if there is one. */
  function KeyIndex(fs: seq<Field>, k: string): (r: Option<nat>)
    ensures r.None? <==> k !in Keys(fs)
    ensures r.Some? ==> r.value < |fs| && fs[r.value].key == k
    ensures r.Some? ==> forall j :: 0 <= j < r.value ==> fs[j].key != k
  {
    if fs == [] then None
    else if fs[0].key == k then Some(0)
    else
      match KeyIndex(fs[1..], k)
      case None => None
      case Some(i) => Some(i + 1)
  }

  /** `obj[k]`, with `None` for `undefined`. */
  function Get(fs: seq<Field>, k: string): (r: Option<JVal>)
    ensures r.None? <==> k !in Keys(fs)
    ensures forall i :: 0 <= i < |fs| && fs[i].key == k && DistinctKeys(fs) ==> r == Some(fs[i].value)
  {
    match KeyIndex(fs, k)
    case None => None
    case Some(i) => Some(fs[i].value)
  }

  /** `obj[k] = v`: an existing property keeps its place and takes the new
      value, a new property goes last, nothing else changes. */
  function Put(fs: seq<Field>, k: string, v: JVal): (r: seq<Field>)
    ensures k in Keys(fs) ==> Keys(r) == Keys(fs)
    ensures k !in Keys(fs) ==> r == fs + [Field(k, v)]
  {
    match KeyIndex(fs, k)
    case None =>
      assert Keys(fs + [Field(k, v)]) == Keys(fs) + [k];
      fs + [Field(k, v)]
    case Some(i) =>
      var r := fs[i := Field(k, v)];
      assert Keys(r) == Keys(fs);
      r
  }

  /** The rest of what an assignment does: every other property keeps its
      place and value, and on an object without repeated names the names
      stay distinct and the new value is read back. */
  lemma PutFacts(fs: seq<Field>, k: string, v: JVal)
    ensures forall i :: 0 <= i < |fs| && fs[i].key != k ==> Put(fs, k, v)[i] == fs[i]
    ensures DistinctKeys(fs) ==> DistinctKeys(Put(fs, k, v)) && Get(Put(fs, k, v), k) == Some(v)
    ensures DistinctKeys(fs) ==> forall k' :: k' != k ==> Get(Put(fs, k, v), k') == Get(fs, k')
  {
    var r := Put(fs, k, v);
    match KeyIndex(fs, k)
    case None =>
      assert Keys(r) == Keys(fs) + [k];
    case Some(i) =>
      assert r == fs[i := Field(k, v)];
      assert Keys(r) == Keys(fs);
  }

  /** The names of `a + [f]` are distinct exactly when those of `a` are and
      `f`'s name is not among them. */
  lemma DistinctSnoc(a: seq<Field>, f: Field)
    requires DistinctKeys(a + [f])
    ensures DistinctKeys(a) && f.key !in Keys(a)
  {
    forall i, j | 0 <= i < j < |a| ensures a[i].key != a[j].key {
      assert (a + [f])[i] == a[i] && (a + [f])[j] == a[j];
    }
    forall i | 0 <= i < |a| ensures Keys(a)[i] != f.key {
      assert (a + [f])[i] == a[i] && (a + [f])[|a|] == f;
    }
  }

  /** JavaScript truthiness: `null`, `false`, `0` and `""` are falsy. */
  predicate Truthy(v: JVal)
  {
    match v
    case JNull => false
    case JBool(b) => b
    case JNum(n) => n != 0
    case JStr(s) => s != ""
    case JArr(_) => true
    case JObj(_) => true
  }

  /** `typeof v === 'object'`, which holds of `null` and of arrays too. */
  predicate TypeofObject(v: JVal)
  {
    v.JNull? || v.JArr? || v.JObj?
  }

  /** `v[k]` for a property name that is not an array index: only objects
      have such properties. */
  function Member(v: JVal, k: string): Option<JVal>
  {
    if v.JObj? then Get(v.fields, k) else None
  }

  /** Reading a property just written gives the written value, and every
      other property reads as before, whatever duplicates `fs` holds. */
  lemma PutGet(fs: seq<Field>, k: string, v: JVal, k': string)
    ensures Get(Put(fs, k, v), k) == Some(v)
    ensures k' != k ==> Get(Put(fs, k, v), k') == Get(fs, k')
  {
    var r := Put(fs, k, v);
    match KeyIndex(fs, k)
    case None =>
      assert Keys(r) == Keys(fs) + [k];
      KeyIndexAppend(fs, k, v, k);
      KeyIndexAppend(fs, k, v, k');
    case Some(i) =>
      KeyIndexUpdate(fs, i, v, k);
      KeyIndexUpdate(fs, i, v, k');
  }

  lemma {:induction false} KeyIndexAppend(fs: seq<Field>, k: string, v: JVal, k': string)
    requires k !in Keys(fs)
    ensures KeyIndex(fs + [Field(k, v)], k') ==
      if k' in Keys(fs) then KeyIndex(fs, k') else if k' == k then Some(|fs|) else None
    decreases |fs|
  {
    if fs != [] {
      assert (fs + [Field(k, v)])[1..] == fs[1..] + [Field(k, v)];
      assert Keys(fs) == [fs[0].key] + Keys(fs[1..]);
      KeyIndexAppend(fs[1..], k, v, k');
    }
  }

  lemma KeyIndexUpdate(fs: seq<Field>, i: nat, v: JVal, k': string)
    requires i < |fs| && KeyIndex(fs, fs[i].key) == Some(i)
    ensures KeyIndex(fs[i := Field(fs[i].key, v)], k') ==
      if k' == fs[i].key then Some(i) else KeyIndex(fs, k')
  {
    var r := fs[i := Field(fs[i].key, v)];
    assert Keys(r) == Keys(fs);
    KeyIndexOfKeys(r, fs, k');
  }

  /** The position of a property depends on the property names only. */
  lemma {:induction false} KeyIndexOfKeys(a: seq<Field>, b: seq<Field>, k: string)
    requires Keys(a) == Keys(b)
    ensures KeyIndex(a, k) == KeyIndex(b, k)
    decreases |a|
  {
    if a != [] {
      assert a[0].key == Keys(a)[0] == b[0].key;
      assert Keys(a[1..]) == Keys(a)[1..];
      assert Keys(b[1..]) == Keys(b)[1..];
      KeyIndexOfKeys(a[1..], b[1..], k);
    }
  }
}
