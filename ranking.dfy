/** `sortedByDescending { key }` (a stable sort, so rows with equal keys keep
    their input order) and the display floor applied to the sorted rows. */
module Ranking {

  predicate NonIncreasing<T>(s: seq<T>, key: T -> int) {
    forall i, j :: 0 <= i < j < |s| ==> key(s[i]) >= key(s[j])
  }

  /** Puts `x` after the rows with a larger key and before the rest. */
  function Insert<T>(x: T, s: seq<T>, key: T -> int): seq<T> {
    if s == [] || key(s[0]) <= key(x) then [x] + s
    else [s[0]] + Insert(x, s[1..], key)
  }

  /** The rows of `s` whose key is `v`, in order. */
  function WithKey<T>(s: seq<T>, key: T -> int, v: int): seq<T> {
    if s == [] then []
    else (if key(s[0]) == v then [s[0]] else []) + WithKey(s[1..], key, v)
  }

  /** The rows of `s` whose key is at least `floor`, in order. */
  function AtLeast<T>(s: seq<T>, key: T -> int, floor: int): seq<T> {
    if s == [] then []
    else (if key(s[0]) >= floor then [s[0]] else []) + AtLeast(s[1..], key, floor)
  }

  predicate AllAtMost<T>(s: seq<T>, key: T -> int, bound: int) {
    forall i :: 0 <= i < |s| ==> key(s[i]) <= bound
  }

  lemma {:induction false} InsertBounded<T>(x: T, s: seq<T>, key: T -> int, bound: int)
    requires key(x) <= bound && AllAtMost(s, key, bound)
    ensures AllAtMost(Insert(x, s, key), key, bound)
  {
    if s != [] && key(s[0]) > key(x) {
      assert AllAtMost(s[1..], key, bound) by {
        assert forall i :: 0 <= i < |s[1..]| ==> s[1..][i] == s[i + 1];
      }
      InsertBounded(x, s[1..], key, bound);
    }
  }

  lemma NonIncreasingTail<T>(s: seq<T>, key: T -> int)
    requires s != [] && NonIncreasing(s, key)
    ensures NonIncreasing(s[1..], key) && AllAtMost(s[1..], key, key(s[0]))
  {
    assert forall i :: 0 <= i < |s[1..]| ==> s[1..][i] == s[i + 1];
  }

  lemma {:induction false} InsertSorted<T>(x: T, s: seq<T>, key: T -> int)
    requires NonIncreasing(s, key)
    ensures NonIncreasing(Insert(x, s, key), key)
  {
    if s != [] && key(s[0]) > key(x) {
      NonIncreasingTail(s, key);
      InsertSorted(x, s[1..], key);
      InsertBounded(x, s[1..], key, key(s[0]));
      var r := Insert(x, s[1..], key);
      assert Insert(x, s, key) == [s[0]] + r;
    }
  }

  lemma {:induction false} InsertPermutes<T>(x: T, s: seq<T>, key: T -> int)
    ensures multiset(Insert(x, s, key)) == multiset(s) + multiset{x}
  {
    if s != [] && key(s[0]) > key(x) {
      InsertPermutes(x, s[1..], key);
      assert s == [s[0]] + s[1..];
    }
  }

  lemma {:induction false} InsertStable<T>(x: T, s: seq<T>, key: T -> int, v: int)
    ensures WithKey(Insert(x, s, key), key, v) == (if key(x) == v then [x] else []) + WithKey(s, key, v)
  {
    var own := if key(x) == v then [x] else [];
    if s == [] || key(s[0]) <= key(x) {
      var r := [x] + s;
      assert r[0] == x && r[1..] == s;
      assert WithKey(r, key, v) == own + WithKey(s, key, v);
    } else {
      var head := if key(s[0]) == v then [s[0]] else [];
      var r := [s[0]] + Insert(x, s[1..], key);
      assert r[0] == s[0] && r[1..] == Insert(x, s[1..], key);
      InsertStable(x, s[1..], key, v);
      assert WithKey(r, key, v) == head + (own + WithKey(s[1..], key, v));
      assert WithKey(s, key, v) == head + WithKey(s[1..], key, v);
      assert head == [] || own == [];
    }
  }

  /** `sortedByDescending`: the rows in non-increasing key order, a
      permutation of the input. */
  function SortDescending<T>(s: seq<T>, key: T -> int): (r: seq<T>)
    ensures NonIncreasing(r, key)
    ensures multiset(r) == multiset(s)
  {
    if s == [] then []
    else
      var sorted := SortDescending(s[1..], key);
      InsertSorted(s[0], sorted, key);
      InsertPermutes(s[0], sorted, key);
      assert s == [s[0]] + s[1..];
      Insert(s[0], sorted, key)
  }

  /** The sort is stable: the rows sharing any one key come out in the order
      they went in. */
  lemma {:induction false} SortDescendingStable<T>(s: seq<T>, key: T -> int, v: int)
    ensures WithKey(SortDescending(s, key), key, v) == WithKey(s, key, v)
  {
    if s != [] {
      SortDescendingStable(s[1..], key, v);
      InsertStable(s[0], SortDescending(s[1..], key), key, v);
    }
  }

  /** `x` occurs in `s` somewhere before an occurrence of `y`. */
  predicate Before<T(==)>(s: seq<T>, x: T, y: T) {
    exists p, q :: 0 <= p < q < |s| && s[p] == x && s[q] == y
  }

  /** Any two rows of `r` with equal keys appear in `s` in the same order. */
  predicate TiesKept<T(==)>(r: seq<T>, s: seq<T>, key: T -> int) {
    forall i, j :: 0 <= i < j < |r| && key(r[i]) == key(r[j]) ==> Before(s, r[i], r[j])
  }

  /** Insertion puts `x` after exactly the leading rows with a larger key. */
  lemma {:induction false} InsertSplit<T>(x: T, t: seq<T>, key: T -> int) returns (k: nat)
    ensures k <= |t| && Insert(x, t, key) == t[..k] + [x] + t[k..]
    ensures forall m :: 0 <= m < k ==> key(t[m]) > key(x)
  {
    if t == [] || key(t[0]) <= key(x) {
      k := 0;
    } else {
      var k' := InsertSplit(x, t[1..], key);
      k := k' + 1;
      assert t[..k] == [t[0]] + t[1..][..k'];
      assert t[k..] == t[1..][k'..];
    }
  }

  lemma BeforeInTail<T>(s: seq<T>, x: T, y: T)
    requires s != [] && Before(s[1..], x, y)
    ensures Before(s, x, y)
  {
    var p, q :| 0 <= p < q < |s[1..]| && s[1..][p] == x && s[1..][q] == y;
    assert s[p + 1] == x && s[q + 1] == y;
  }

  lemma FirstBeforeTail<T>(s: seq<T>, y: T)
    requires s != [] && y in s[1..]
    ensures Before(s, s[0], y)
  {
    var q :| 0 <= q < |s[1..]| && s[1..][q] == y;
    assert s[q + 1] == y;
  }

  /** Keeping or dropping the first row of `s` in front of an in-order
      selection from the rest gives an in-order selection from `s`. */
  lemma PrefixedInOrder<T>(s: seq<T>, head: seq<T>, rest: seq<T>)
    requires s != [] && (head == [] || head == [s[0]])
    requires forall k :: 0 <= k < |rest| ==> rest[k] in s[1..]
    requires forall i, j :: 0 <= i < j < |rest| ==> Before(s[1..], rest[i], rest[j])
    ensures forall i, j :: 0 <= i < j < |head + rest| ==> Before(s, (head + rest)[i], (head + rest)[j])
  {
    var r := head + rest;
    forall i, j | 0 <= i < j < |r| ensures Before(s, r[i], r[j]) {
      assert r[j] == rest[j - |head|];
      if i < |head| {
        FirstBeforeTail(s, r[j]);
      } else {
        assert r[i] == rest[i - |head|];
        BeforeInTail(s, r[i], r[j]);
      }
    }
  }

  /** The sort is stable in the pairwise sense: rows with equal keys come
      out in the order they went in. */
  lemma {:induction false} SortDescendingTies<T>(s: seq<T>, key: T -> int)
    ensures TiesKept(SortDescending(s, key), s, key)
  {
    if s != [] {
      var t := SortDescending(s[1..], key);
      SortDescendingTies(s[1..], key);
      var k := InsertSplit(s[0], t, key);
      var r := SortDescending(s, key);
      assert r == t[..k] + [s[0]] + t[k..];
      forall i, j | 0 <= i < j < |r| && key(r[i]) == key(r[j]) ensures Before(s, r[i], r[j]) {
        Spliced(t, k, s[0], i);
        Spliced(t, k, s[0], j);
        InsertedTie(s, t, key, k, i, j);
      }
    }
  }

  lemma Spliced<T>(t: seq<T>, k: nat, x: T, i: nat)
    requires k <= |t| && i <= |t|
    ensures (t[..k] + [x] + t[k..])[i] == if i < k then t[i] else if i == k then x else t[i - 1]
  {
  }

  /** One pair of rows after `s[0]` is put at `k` among the sorted rest. */
  lemma InsertedTie<T>(s: seq<T>, t: seq<T>, key: T -> int, k: nat, i: nat, j: nat)
    requires s != [] && k <= |t| && i < j <= |t|
    requires multiset(t) == multiset(s[1..]) && TiesKept(t, s[1..], key)
    requires forall m :: 0 <= m < k ==> key(t[m]) > key(s[0])
    requires var x, y := (if i < k then t[i] else if i == k then s[0] else t[i - 1]),
                         (if j < k then t[j] else if j == k then s[0] else t[j - 1]);
      key(x) == key(y)
    ensures Before(s, if i < k then t[i] else if i == k then s[0] else t[i - 1],
                      if j < k then t[j] else if j == k then s[0] else t[j - 1])
  {
    if j == k {
      assert false;
    } else if i == k {
      assert t[j - 1] in multiset(s[1..]);
      FirstBeforeTail(s, t[j - 1]);
    } else {
      var ti := if i < k then i else i - 1;
      var tj := if j < k then j else j - 1;
      assert ti < tj && key(t[ti]) == key(t[tj]);
      BeforeInTail(s, t[ti], t[tj]);
    }
  }

  lemma {:induction false} AtLeastCount<T>(s: seq<T>, key: T -> int, floor: int, x: T)
    ensures multiset(AtLeast(s, key, floor))[x] == if key(x) >= floor then multiset(s)[x] else 0
  {
    if s != [] {
      AtLeastCount(s[1..], key, floor, x);
      assert s == [s[0]] + s[1..];
    }
  }

  lemma {:induction false} AtLeastSorted<T>(s: seq<T>, key: T -> int, floor: int)
    requires NonIncreasing(s, key)
    ensures NonIncreasing(AtLeast(s, key, floor), key)
  {
    if s != [] {
      NonIncreasingTail(s, key);
      AtLeastSorted(s[1..], key, floor);
      AtLeastBounded(s[1..], key, floor, key(s[0]));
    }
  }

  lemma {:induction false} AtLeastBounded<T>(s: seq<T>, key: T -> int, floor: int, bound: int)
    requires AllAtMost(s, key, bound)
    ensures AllAtMost(AtLeast(s, key, floor), key, bound)
  {
    if s != [] {
      assert AllAtMost(s[1..], key, bound) by {
        assert forall i :: 0 <= i < |s[1..]| ==> s[1..][i] == s[i + 1];
      }
      AtLeastBounded(s[1..], key, floor, bound);
    }
  }

  /** Every row kept is at or above the floor. */
  lemma {:induction false} AtLeastAbove<T>(s: seq<T>, key: T -> int, floor: int)
    ensures forall i :: 0 <= i < |AtLeast(s, key, floor)| ==> key(AtLeast(s, key, floor)[i]) >= floor
  {
    if s != [] {
      var head := if key(s[0]) >= floor then [s[0]] else [];
      var rest := AtLeast(s[1..], key, floor);
      AtLeastAbove(s[1..], key, floor);
      assert AtLeast(s, key, floor) == head + rest;
      forall i | 0 <= i < |head + rest| ensures key((head + rest)[i]) >= floor {
        if i >= |head| {
          assert (head + rest)[i] == rest[i - |head|];
        }
      }
    }
  }

  lemma {:induction false} AtLeastInsert<T>(x: T, t: seq<T>, key: T -> int, floor: int)
    ensures multiset(AtLeast(Insert(x, t, key), key, floor))
         == multiset(AtLeast(t, key, floor)) + (if key(x) >= floor then multiset{x} else multiset{})
  {
    if t == [] || key(t[0]) <= key(x) {
      assert ([x] + t)[1..] == t;
    } else {
      var r := [t[0]] + Insert(x, t[1..], key);
      assert r[1..] == Insert(x, t[1..], key);
      AtLeastInsert(x, t[1..], key, floor);
    }
  }

  lemma {:induction false} AtLeastSortPermutes<T>(s: seq<T>, key: T -> int, floor: int)
    ensures multiset(AtLeast(SortDescending(s, key), key, floor)) == multiset(AtLeast(s, key, floor))
  {
    if s != [] {
      AtLeastSortPermutes(s[1..], key, floor);
      AtLeastInsert(s[0], SortDescending(s[1..], key), key, floor);
    }
  }

  /** The filter keeps the rows it lets through in their order. */
  lemma {:induction false} AtLeastOrder<T>(s: seq<T>, key: T -> int, floor: int)
    ensures forall i, j :: 0 <= i < j < |AtLeast(s, key, floor)| ==> Before(s, AtLeast(s, key, floor)[i], AtLeast(s, key, floor)[j])
  {
    if s != [] {
      var head := if key(s[0]) >= floor then [s[0]] else [];
      var rest := AtLeast(s[1..], key, floor);
      var r := AtLeast(s, key, floor);
      assert r == head + rest;
      AtLeastOrder(s[1..], key, floor);
      forall i, j | 0 <= i < j < |r| ensures Before(s, r[i], r[j]) {
        assert r[j] == rest[j - |head|];
        if i < |head| {
          AtLeastCount(s[1..], key, floor, r[j]);
          assert r[j] in multiset(rest);
          FirstBeforeTail(s, r[j]);
        } else {
          assert r[i] == rest[i - |head|];
          BeforeInTail(s, r[i], r[j]);
        }
      }
    }
  }

  /** Sorting and then cutting at the floor keeps ties in input order. */
  lemma AtLeastSortTies<T>(s: seq<T>, key: T -> int, floor: int)
    ensures TiesKept(AtLeast(SortDescending(s, key), key, floor), s, key)
  {
    var sorted := SortDescending(s, key);
    var r := AtLeast(sorted, key, floor);
    AtLeastOrder(sorted, key, floor);
    SortDescendingTies(s, key);
    forall i, j | 0 <= i < j < |r| && key(r[i]) == key(r[j]) ensures Before(s, r[i], r[j]) {
      var p, q :| 0 <= p < q < |sorted| && sorted[p] == r[i] && sorted[q] == r[j];
    }
  }

  /** The rows kept are exactly those at or above the floor. */
  lemma AtLeastMembers<T>(s: seq<T>, key: T -> int, floor: int)
    ensures forall x :: x in AtLeast(s, key, floor) <==> x in s && key(x) >= floor
  {
    forall x ensures x in AtLeast(s, key, floor) <==> x in s && key(x) >= floor {
      AtLeastCount(s, key, floor, x);
      assert x in AtLeast(s, key, floor) <==> x in multiset(AtLeast(s, key, floor));
      assert x in s <==> x in multiset(s);
    }
  }

  /** The rows a ranking shows: sorted descending, then cut at the floor.
      They are in non-increasing order, they are exactly the rows at or
      above the floor, each as often as it occurs, and rows with equal keys
      keep their input order. */
  function Shown<T(!new,==)>(s: seq<T>, key: T -> int, floor: int): (r: seq<T>)
    ensures NonIncreasing(r, key)
    ensures multiset(r) == multiset(AtLeast(s, key, floor))
    ensures forall x :: x in r <==> x in s && key(x) >= floor
    ensures TiesKept(r, s, key)
  {
    var sorted := SortDescending(s, key);
    AtLeastSortTies(s, key, floor);
    AtLeastSorted(sorted, key, floor);
    AtLeastSortPermutes(s, key, floor);
    AtLeastMembers(s, key, floor);
    assert forall x :: x in AtLeast(sorted, key, floor) <==> x in multiset(AtLeast(sorted, key, floor));
    AtLeast(sorted, key, floor)
  }

  /** Rows drawn from `s` that keep ties in `s`'s order: when no two rows of
      `s` share an identity, no two of them do either. */
  lemma RankedDistinct<T>(r: seq<T>, s: seq<T>, key: T -> int, id: T -> string)
    requires forall x :: x in r ==> x in s
    requires TiesKept(r, s, key)
    requires forall i, j :: 0 <= i < j < |s| ==> id(s[i]) != id(s[j])
    ensures forall i, j :: 0 <= i < j < |r| ==> id(r[i]) != id(r[j])
  {
    forall i, j | 0 <= i < j < |r| ensures id(r[i]) != id(r[j]) {
      assert r[i] in r && r[j] in r;
      var p :| 0 <= p < |s| && s[p] == r[i];
      var q :| 0 <= q < |s| && s[q] == r[j];
      if p == q {
        assert key(r[i]) == key(r[j]);
      }
    }
  }
}
