/** The `mutableMapOf<String, Int>()` (a LinkedHashMap) that main.kt fills by
    read-modify-write: an association list without repeated keys, in the
    order the keys were first inserted. Iterating it, as `mapNotNull` does,
    visits the entries in that order. */
module LinkedTable {
  import opened Wrappers

  datatype Entry = Entry(key: string, count: int)

  type Table = seq<Entry>

  predicate DistinctKeys(t: Table) {
    forall i, j :: 0 <= i < j < |t| ==> t[i].key != t[j].key
  }

  predicate HasKey(t: Table, k: string) {
    exists i :: 0 <= i < |t| && t[i].key == k
  }

  /** Index of the entry holding `k`, if any: the first, the only one in a
      table without repeated keys. */
  function IndexOf(t: Table, k: string): (r: Option<nat>)
    ensures r.Some? ==> r.value < |t| && t[r.value].key == k
    ensures r.Some? ==> forall j :: 0 <= j < r.value ==> t[j].key != k
    ensures r.None? <==> !HasKey(t, k)
  {
    if t == [] then None
    else if t[0].key == k then Some(0)
    else match IndexOf(t[1..], k)
      case Some(i) => Some(i + 1)
      case None => None
  }

  /** Two tables with the same keys in the same places find every key in the
      same place. */
  lemma {:induction false} SameKeysSameIndex(t: Table, u: Table, k: string)
    requires |t| == |u| && forall i :: 0 <= i < |t| ==> t[i].key == u[i].key
    ensures IndexOf(t, k) == IndexOf(u, k)
  {
    if t != [] && t[0].key != k {
      assert u[0].key == t[0].key;
      forall i | 0 <= i < |t[1..]| ensures t[1..][i].key == u[1..][i].key {
        assert t[1..][i] == t[i + 1] && u[1..][i] == u[i + 1];
      }
      SameKeysSameIndex(t[1..], u[1..], k);
    }
  }

  /** `get(k)`: the value stored under `k`, if any. */
  function Get(t: Table, k: string): (r: Option<int>)
    ensures r.None? <==> !HasKey(t, k)
    ensures r.Some? ==> exists i :: 0 <= i < |t| && t[i] == Entry(k, r.value)
  {
    match IndexOf(t, k)
    case Some(i) => assert t[i] == Entry(k, t[i].count); Some(t[i].count)
    case None => None
  }

  /** `getOrDefault(k, d)`. */
  function GetOrDefault(t: Table, k: string, d: int): int {
    match Get(t, k)
    case Some(v) => v
    case None => d
  }

  /** In a table without repeated keys, every entry is what `get` finds. */
  lemma GetEntry(t: Table, i: nat)
    requires DistinctKeys(t) && i < |t|
    ensures Get(t, t[i].key) == Some(t[i].count)
  {
    var r := IndexOf(t, t[i].key);
    assert r.Some? by { assert HasKey(t, t[i].key); }
    assert r.value == i;
  }

  /** `put(k, v)`: a new key goes at the end; an existing key keeps its place
      and takes the new value. */
  function Put(t: Table, k: string, v: int): (r: Table)
    ensures HasKey(t, k) ==> |r| == |t| && forall i :: 0 <= i < |t| ==> r[i].key == t[i].key
    ensures !HasKey(t, k) ==> r == t + [Entry(k, v)]
  {
    match IndexOf(t, k)
    case Some(i) => t[i := Entry(k, v)]
    case None => t + [Entry(k, v)]
  }

  /** After `put(k, v)`, `k` holds `v` and every other key keeps its value. */
  lemma GetPut(t: Table, k: string, v: int, a: string)
    ensures Get(Put(t, k, v), a) == if a == k then Some(v) else Get(t, a)
  {
    var r := Put(t, k, v);
    match IndexOf(t, k)
    case Some(i) =>
      SameKeysSameIndex(r, t, a);
    case None =>
      var ia := IndexOf(t, a);
      var ra := IndexOf(r, a);
      if ia.Some? {
        assert r[ia.value] == t[ia.value];
      } else if a == k {
        assert r[|t|].key == k;
      }
  }

  lemma DistinctPut(t: Table, k: string, v: int)
    requires DistinctKeys(t)
    ensures DistinctKeys(Put(t, k, v))
  {
    var r := Put(t, k, v);
    if !HasKey(t, k) {
      forall i, j | 0 <= i < j < |r| ensures r[i].key != r[j].key {
        if j == |t| {
          assert r[i] == t[i] && r[j].key == k;
        } else {
          assert r[i] == t[i] && r[j] == t[j];
        }
      }
    }
  }

  /** `map[k] = map.getOrDefault(k, 0) + c`: the read-modify-write of
      main.kt. Afterwards `k` holds its old total (0 when absent) plus `c`;
      the keys already present keep their places, and a new key goes last. */
  function Add(t: Table, k: string, c: int): (r: Table)
    ensures Get(r, k) == Some(GetOrDefault(t, k, 0) + c)
    ensures HasKey(t, k) ==> |r| == |t| && forall i :: 0 <= i < |t| ==> r[i].key == t[i].key
    ensures !HasKey(t, k) ==> r == t + [Entry(k, c)]
  {
    var v := GetOrDefault(t, k, 0) + c;
    GetPut(t, k, v, k);
    Put(t, k, v)
  }

  /** The read-modify-write adds `c` under `k` and leaves every other key
      alone. */
  lemma GetAdd(t: Table, k: string, c: int, a: string)
    ensures Get(Add(t, k, c), a) == if a == k then Some(GetOrDefault(t, k, 0) + c) else Get(t, a)
  {
    var v := GetOrDefault(t, k, 0) + c;
    assert Add(t, k, c) == Put(t, k, v);
    GetPut(t, k, v, a);
  }

  /** The read-modify-write introduces no repeated key. */
  lemma DistinctAdd(t: Table, k: string, c: int)
    requires DistinctKeys(t)
    ensures DistinctKeys(Add(t, k, c))
  {
    DistinctPut(t, k, GetOrDefault(t, k, 0) + c);
  }

  /** `values.sum()`. */
  function SumValues(t: Table): int {
    if t == [] then 0 else t[0].count + SumValues(t[1..])
  }

  /** Replacing a value changes the sum by the difference; inserting adds it. */
  lemma {:induction false} SumUpdate(t: Table, i: nat, e: Entry)
    requires i < |t|
    ensures SumValues(t[i := e]) == SumValues(t) - t[i].count + e.count
  {
    if i > 0 {
      assert t[i := e][1..] == t[1..][i - 1 := e];
      SumUpdate(t[1..], i - 1, e);
    }
  }

  lemma {:induction false} SumAppend(t: Table, e: Entry)
    ensures SumValues(t + [e]) == SumValues(t) + e.count
  {
    if t != [] {
      assert (t + [e])[1..] == t[1..] + [e];
      SumAppend(t[1..], e);
    }
  }

  /** Replacing a value changes the sum by the difference; inserting adds it. */
  lemma SumPut(t: Table, k: string, v: int)
    ensures SumValues(Put(t, k, v)) == SumValues(t) - GetOrDefault(t, k, 0) + v
  {
    match IndexOf(t, k)
    case Some(i) => SumUpdate(t, i, Entry(k, v));
    case None => SumAppend(t, Entry(k, v));
  }

  /** With no negative value, no single value exceeds the sum. */
  lemma {:induction false} ValueWithinSum(t: Table, k: string)
    requires forall i :: 0 <= i < |t| ==> t[i].count >= 0
    ensures 0 <= GetOrDefault(t, k, 0) <= SumValues(t)
  {
    if t != [] {
      assert forall i :: 0 <= i < |t[1..]| ==> t[1..][i].count >= 0 by {
        assert forall i :: 0 <= i < |t[1..]| ==> t[1..][i] == t[i + 1];
      }
      ValueWithinSum(t[1..], k);
      SumNonNegative(t[1..]);
    }
  }

  lemma {:induction false} SumNonNegative(t: Table)
    requires forall i :: 0 <= i < |t| ==> t[i].count >= 0
    ensures SumValues(t) >= 0
  {
    if t != [] {
      assert forall i :: 0 <= i < |t[1..]| ==> t[1..][i] == t[i + 1];
      SumNonNegative(t[1..]);
    }
  }
}
