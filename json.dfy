/** JSON-style values and Python's insertion-ordered dict with string keys. */
module Json {
  import opened Outcomes

  datatype Json =
    | Null
    | Bool(b: bool)
    | Num(n: int)
    | Str(s: string)
    | Arr(items: seq<Json>)
    | Obj(fields: seq<Field>)

  /** One key/value entry of a dict; a dict is its entries in insertion order. */
  datatype Field = Field(key: string, value: Json)

  function Keys(d: seq<Field>): (ks: seq<string>)
    ensures |ks| == |d| && forall i :: 0 <= i < |d| ==> ks[i] == d[i].key
  {
    if d == [] then [] else [d[0].key] + Keys(d[1..])
  }

  /** Python dicts never hold a key twice. */
  predicate DistinctKeys(d: seq<Field>) {
    forall i, j :: 0 <= i < j < |d| ==> d[i].key != d[j].key
  }

  /** `d.get(k)`: the value of the first entry with key `k`. */
  function Get(d: seq<Field>, k: string): (r: Option<Json>)
    ensures r.Some? <==> k in Keys(d)
  {
    if d == [] then None
    else if d[0].key == k then Some(d[0].value)
    else Get(d[1..], k)
  }

  /** In a dict without duplicate keys, each entry's key reads that entry's value. */
  lemma {:induction false} GetAt(d: seq<Field>, i: nat)
    requires DistinctKeys(d) && i < |d|
    ensures Get(d, d[i].key) == Some(d[i].value)
  {
    if i > 0 {
      assert d[0].key != d[i].key;
      assert DistinctKeys(d[1..]) by {
        forall a, b | 0 <= a < b < |d[1..]| ensures d[1..][a].key != d[1..][b].key {
          assert d[1..][a] == d[a + 1] && d[1..][b] == d[b + 1];
        }
      }
      assert d[1..][i - 1] == d[i];
      GetAt(d[1..], i - 1);
    }
  }

  /** `d[k] = v`: an existing key keeps its position and takes the new value,
      a new key is appended at the end. */
  function Put(d: seq<Field>, k: string, v: Json): seq<Field> {
    if d == [] then [Field(k, v)]
    else if d[0].key == k then [Field(k, v)] + d[1..]
    else [d[0]] + Put(d[1..], k, v)
  }

  /** After `d[k] = v`, `k` reads `v` and every other key reads what it read before. */
  lemma {:induction false} PutGet(d: seq<Field>, k: string, v: Json, k': string)
    ensures Get(Put(d, k, v), k') == if k' == k then Some(v) else Get(d, k')
  {
    if d != [] && d[0].key != k {
      var r := Put(d, k, v);
      assert r[1..] == Put(d[1..], k, v);
      PutGet(d[1..], k, v, k');
    }
  }

  /** `d[k] = v` keeps the key order and appends a key it did not have. */
  lemma {:induction false} PutKeys(d: seq<Field>, k: string, v: Json)
    ensures Keys(Put(d, k, v)) == if k in Keys(d) then Keys(d) else Keys(d) + [k]
  {
    if d != [] {
      assert Keys(d) == [d[0].key] + Keys(d[1..]);
      if d[0].key == k {
        assert Keys(Put(d, k, v)) == [k] + Keys(d[1..]);
      } else {
        var r := Put(d, k, v);
        assert r[1..] == Put(d[1..], k, v);
        PutKeys(d[1..], k, v);
        assert Keys(r) == [d[0].key] + Keys(r[1..]);
      }
    }
  }

  /** A dict never acquires a duplicate key by assignment. */
  lemma PutDistinct(d: seq<Field>, k: string, v: Json)
    requires DistinctKeys(d)
    ensures DistinctKeys(Put(d, k, v))
  {
    PutKeys(d, k, v);
    var r := Put(d, k, v);
    assert Keys(r) == if k in Keys(d) then Keys(d) else Keys(d) + [k];
    forall i, j | 0 <= i < j < |r| ensures r[i].key != r[j].key {
      assert Keys(r)[i] == r[i].key && Keys(r)[j] == r[j].key;
      if j < |d| { assert Keys(d)[i] == d[i].key && Keys(d)[j] == d[j].key; }
    }
  }

  /** Two assignments with different keys keep the key order and append each new key. */
  lemma PutTwiceKeys(d: seq<Field>, k1: string, v1: Json, k2: string, v2: Json)
    requires k1 != k2
    ensures Keys(Put(Put(d, k1, v1), k2, v2)) ==
      Keys(d) + (if k1 in Keys(d) then [] else [k1]) + (if k2 in Keys(d) then [] else [k2])
  {
    var d1 := Put(d, k1, v1);
    var ks := Keys(d);
    PutKeys(d, k1, v1);
    PutKeys(d1, k2, v2);
    assert k2 in ks + [k1] <==> k2 in ks;
  }
}
