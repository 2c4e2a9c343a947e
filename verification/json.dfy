/** The JSON tree the editor works on (serde_json's `Value`), restricted to
    integer numbers. An object is a sequence of key/value entries; parsed JSON
    never repeats a key, and lookups below return the first entry with the key. */
module JsonValue {
  import opened Wrappers

  datatype Json =
    | JNull
    | JBool(b: bool)
    | JNum(n: int)
    | JStr(s: string)
    | JArr(items: seq<Json>)
    | JObj(entries: seq<(string, Json)>)

  /** The keys of an entry sequence, in order. */
  function Keys<V>(entries: seq<(string, V)>): (ks: seq<string>)
    ensures |ks| == |entries|
    ensures forall i :: 0 <= i < |entries| ==> ks[i] == entries[i].0
  {
    if |entries| == 0 then [] else [entries[0].0] + Keys(entries[1..])
  }

  predicate DistinctKeys<V>(entries: seq<(string, V)>) {
    forall i, j :: 0 <= i < j < |entries| ==> entries[i].0 != entries[j].0
  }

  /** Position of the first entry with `key`. */
  function IndexOf<V>(entries: seq<(string, V)>, key: string): (r: Option<nat>)
    ensures r.Some? ==> r.value < |entries| && entries[r.value].0 == key
    ensures r.Some? ==> forall j :: 0 <= j < r.value ==> entries[j].0 != key
    ensures r.None? ==> forall j :: 0 <= j < |entries| ==> entries[j].0 != key
  {
    if |entries| == 0 then None
    else if entries[0].0 == key then Some(0)
    else
      var rest := IndexOf(entries[1..], key);
      if rest.None? then None else Some(rest.value + 1)
  }

  /** `map.get(key)`. */
  function Get<V>(entries: seq<(string, V)>, key: string): (r: Option<V>)
    ensures r.Some? <==> key in Keys(entries)
  {
    var i := IndexOf(entries, key);
    if i.None? then None else Some(entries[i.value].1)
  }

  /** With distinct keys, the entry at position `i` is the one `Get` finds. */
  lemma GetDistinct<V>(entries: seq<(string, V)>, i: nat)
    requires DistinctKeys(entries) && i < |entries|
    ensures Get(entries, entries[i].0) == Some(entries[i].1)
  {
    var k := IndexOf(entries, entries[i].0);
    assert k.Some?;
    assert k.value == i;
  }

  /** `IndexOf` only looks at the keys. */
  lemma IndexOfSameKeys<V>(a: seq<(string, V)>, b: seq<(string, V)>, key: string)
    requires Keys(a) == Keys(b)
    ensures IndexOf(a, key) == IndexOf(b, key)
  {
    if |a| > 0 {
      assert Keys(a[1..]) == Keys(a)[1..];
      assert Keys(b[1..]) == Keys(b)[1..];
      IndexOfSameKeys(a[1..], b[1..], key);
    }
  }

  lemma IndexOfAppend<V>(entries: seq<(string, V)>, k: string, v: V, key: string)
    ensures IndexOf(entries + [(k, v)], key) ==
      if IndexOf(entries, key).Some? then IndexOf(entries, key)
      else if k == key then Some(|entries|)
      else None
  {
    var r := entries + [(k, v)];
    if |entries| > 0 {
      assert r[1..] == entries[1..] + [(k, v)];
      IndexOfAppend(entries[1..], k, v, key);
    }
  }

  /** `map.insert(key, v)`: replaces the value of an existing key in place,
      otherwise appends a new entry. */
  function Put<V>(entries: seq<(string, V)>, key: string, v: V): (r: seq<(string, V)>)
    ensures Get(r, key) == Some(v)
    ensures key in Keys(entries) ==> Keys(r) == Keys(entries)
    ensures key !in Keys(entries) ==> Keys(r) == Keys(entries) + [key]
    ensures DistinctKeys(entries) ==> DistinctKeys(r)
  {
    var i := IndexOf(entries, key);
    if i.Some? then
      var r := entries[i.value := (key, v)];
      assert Keys(r) == Keys(entries);
      assert IndexOf(r, key) == IndexOf(entries, key) by {
        IndexOfSameKeys(r, entries, key);
      }
      r
    else
      var r := entries + [(key, v)];
      assert Keys(r) == Keys(entries) + [key];
      assert IndexOf(r, key) == Some(|entries|) by {
        IndexOfAppend(entries, key, v, key);
      }
      r
  }

  /** `insert` leaves every other key's value alone. */
  lemma PutOthers<V>(entries: seq<(string, V)>, key: string, v: V, k: string)
    requires k != key
    ensures Get(Put(entries, key, v), k) == Get(entries, k)
  {
    var i := IndexOf(entries, key);
    if i.Some? {
      IndexOfSameKeys(Put(entries, key, v), entries, k);
    } else {
      IndexOfAppend(entries, key, v, k);
    }
  }

  /** `insert` adds no entry other than `(key, v)`. */
  lemma PutEntries<V>(entries: seq<(string, V)>, key: string, v: V)
    ensures forall e :: e in Put(entries, key, v) ==> e in entries || e == (key, v)
  {
    var r := Put(entries, key, v);
    var i := IndexOf(entries, key);
    if i.Some? {
      assert r == entries[i.value := (key, v)];
      forall j | 0 <= j < |r| ensures r[j] in entries || r[j] == (key, v) {
        if j != i.value {
          assert r[j] == entries[j];
        }
      }
    } else {
      assert r == entries + [(key, v)];
      forall j | 0 <= j < |r| ensures r[j] in entries || r[j] == (key, v) {
        if j < |entries| {
          assert r[j] == entries[j];
        }
      }
    }
  }

  /** Inserting a key that is not there appends it. */
  lemma PutFresh<V>(entries: seq<(string, V)>, key: string, v: V)
    requires key !in Keys(entries)
    ensures Put(entries, key, v) == entries + [(key, v)]
  {
    assert IndexOf(entries, key).None?;
  }
}
