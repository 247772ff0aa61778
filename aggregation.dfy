/** The totals the two report modes build while the events stream past: each
    event adds its line count under a key of its own, read-modify-write, in
    one of three tables. */
module Aggregation {
  import opened Wrappers
  import opened NumstatParser
  import opened LinkedTable
  import opened Scopes

  /** Which table an event is counted in, and under which key: `None` for an
      event the table ignores. */
  type Grouping = Event -> Option<string>

  /** `allCommits`: every event, by author. */
  const ByAuthor: Grouping := (e: Event) => Some(e.author)

  /** `inFolderCommits`: events under one of the folders, by author. */
  function ByAuthorInFolders(folders: seq<string>): Grouping {
    (e: Event) => if AnyStartsWith(folders, e.file) then Some(e.author) else None
  }

  /** `folderCommits`: events under the first matching folder, by the
      directory below it. */
  function ByNextLevel(folders: seq<string>): Grouping {
    (e: Event) => BucketOf(folders, e.file)
  }

  function KeyOf(g: Grouping, e: Event): Option<string> {
    g(e)
  }

  function Count(t: Table, key: Option<string>, changed: int): Table {
    match key
    case Some(k) => Add(t, k, changed)
    case None => t
  }

  /** The table after the given events, in order, starting from an empty
      map: no key repeats, and every key is that of some counted event. */
  function Tally(events: seq<Event>, g: Grouping): (r: Table)
    ensures DistinctKeys(r)
    ensures |r| <= |events|
    ensures forall i :: 0 <= i < |r| ==> Counted(events, g, r[i].key)
  {
    if events == [] then []
    else
      var init, last := events[..|events| - 1], events[|events| - 1];
      var t := Tally(init, g);
      var r := Count(t, KeyOf(g, last), last.changed);
      assert DistinctKeys(r) by {
        if KeyOf(g, last).Some? {
          DistinctAdd(t, KeyOf(g, last).value, last.changed);
        }
      }
      assert forall i :: 0 <= i < |r| ==> Counted(events, g, r[i].key) by {
        forall i | 0 <= i < |r| ensures Counted(events, g, r[i].key) {
          CountedStep(events, g, r[i].key);
          if i < |t| {
            assert r[i].key == t[i].key;
          }
        }
      }
      r
  }

  /** The table is empty exactly when no event is counted. */
  lemma TallyEmpty(events: seq<Event>, g: Grouping)
    ensures Tally(events, g) != [] <==> exists i :: 0 <= i < |events| && KeyOf(g, events[i]).Some?
  {
    if i :| 0 <= i < |events| && KeyOf(g, events[i]).Some? {
      TallyMeaning(events, g, KeyOf(g, events[i]).value);
    }
  }

  /** The first event counted under `a` comes before every event counted
      under `b`. */
  predicate FirstBefore(events: seq<Event>, g: Grouping, a: string, b: string) {
    exists m :: 0 <= m < |events| && KeyOf(g, events[m]) == Some(a)
      && forall n :: 0 <= n <= m ==> KeyOf(g, events[n]) != Some(b)
  }

  /** The table lists its keys in the order their first events came: the
      LinkedHashMap's insertion order. */
  lemma {:induction false} TallyOrder(events: seq<Event>, g: Grouping, i: nat, j: nat)
    requires i < j < |Tally(events, g)|
    ensures FirstBefore(events, g, Tally(events, g)[i].key, Tally(events, g)[j].key)
  {
    var init, last := events[..|events| - 1], events[|events| - 1];
    var t, r := Tally(init, g), Tally(events, g);
    var a, b := r[i].key, r[j].key;
    assert r == Count(t, KeyOf(g, last), last.changed);
    if j < |t| {
      assert t[i].key == a && t[j].key == b;
      TallyOrder(init, g, i, j);
      var m :| 0 <= m < |init| && KeyOf(g, init[m]) == Some(a)
        && forall n :: 0 <= n <= m ==> KeyOf(g, init[n]) != Some(b);
      assert events[m] == init[m];
      assert forall n :: 0 <= n <= m ==> events[n] == init[n];
    } else {
      assert KeyOf(g, last) == Some(b) && !HasKey(t, b);
      TallyMeaning(init, g, b);
      assert t[i].key == a;
      assert Counted(init, g, a);
      var m :| 0 <= m < |init| && KeyOf(g, init[m]) == Some(a);
      assert forall n :: 0 <= n <= m ==> events[n] == init[n];
      assert forall n :: 0 <= n <= m ==> KeyOf(g, init[n]) != Some(b);
    }
  }

  /** Some event is counted under `k`. */
  predicate Counted(events: seq<Event>, g: Grouping, k: string) {
    exists i :: 0 <= i < |events| && KeyOf(g, events[i]) == Some(k)
  }

  /** The line counts of the events counted under `k`, added up. */
  function SumUnder(events: seq<Event>, g: Grouping, k: string): int {
    if events == [] then 0
    else
      var last := events[|events| - 1];
      SumUnder(events[..|events| - 1], g, k) + (if KeyOf(g, last) == Some(k) then last.changed else 0)
  }

  /** The line counts of all events counted under some key, added up. */
  function SumCounted(events: seq<Event>, g: Grouping): int {
    if events == [] then 0
    else
      var last := events[|events| - 1];
      SumCounted(events[..|events| - 1], g) + (if KeyOf(g, last).Some? then last.changed else 0)
  }

  lemma CountedStep(events: seq<Event>, g: Grouping, k: string)
    requires events != []
    ensures Counted(events, g, k)
        <==> Counted(events[..|events| - 1], g, k) || KeyOf(g, events[|events| - 1]) == Some(k)
  {
    var n := |events| - 1;
    var init := events[..n];
    if Counted(init, g, k) {
      var i :| 0 <= i < |init| && KeyOf(g, init[i]) == Some(k);
      assert events[i] == init[i];
    }
    if KeyOf(g, events[n]) == Some(k) {
      assert 0 <= n < |events|;
    }
    if Counted(events, g, k) {
      var i :| 0 <= i < |events| && KeyOf(g, events[i]) == Some(k);
      if i < n {
        assert init[i] == events[i];
      }
    }
  }

  lemma {:induction false} SumUnderUncounted(events: seq<Event>, g: Grouping, k: string)
    ensures !Counted(events, g, k) ==> SumUnder(events, g, k) == 0
  {
    if events != [] {
      CountedStep(events, g, k);
      SumUnderUncounted(events[..|events| - 1], g, k);
    }
  }

  /** The table holds a key exactly when some event was counted under it, and
      then it holds the sum of those events' line counts; no key repeats. */
  lemma {:induction false} TallyMeaning(events: seq<Event>, g: Grouping, k: string)
    ensures DistinctKeys(Tally(events, g))
    ensures Get(Tally(events, g), k) == if Counted(events, g, k) then Some(SumUnder(events, g, k)) else None
  {
    if events != [] {
      var init := events[..|events| - 1];
      var last := events[|events| - 1];
      var t := Tally(init, g);
      TallyMeaning(init, g, k);
      CountedStep(events, g, k);
      match KeyOf(g, last)
      case Some(key) =>
        assert Tally(events, g) == Add(t, key, last.changed);
        GetAdd(t, key, last.changed, k);
        if key == k {
          SumUnderUncounted(init, g, k);
          assert GetOrDefault(t, k, 0) == SumUnder(init, g, k);
          assert SumUnder(events, g, k) == SumUnder(init, g, k) + last.changed;
        } else {
          assert SumUnder(events, g, k) == SumUnder(init, g, k);
        }
      case None =>
        assert Tally(events, g) == t;
        assert SumUnder(events, g, k) == SumUnder(init, g, k);
    }
  }

  /** The values of the table add up to the line counts of all counted
      events. */
  lemma {:induction false} TallySum(events: seq<Event>, g: Grouping)
    ensures SumValues(Tally(events, g)) == SumCounted(events, g)
  {
    if events != [] {
      var init := events[..|events| - 1];
      var last := events[|events| - 1];
      TallySum(init, g);
      SumCount(Tally(init, g), KeyOf(g, last), last.changed);
    }
  }

  /** Counting an event adds its line count to the sum of the values, when
      it is counted at all. */
  lemma SumCount(t: Table, key: Option<string>, changed: int)
    ensures SumValues(Count(t, key, changed)) == SumValues(t) + (if key.Some? then changed else 0)
  {
    if key.Some? {
      var k := key.value;
      var v := GetOrDefault(t, k, 0) + changed;
      assert Count(t, key, changed) == Put(t, k, v);
      SumPut(t, k, v);
    }
  }

  predicate NoNegativeCounts(events: seq<Event>) {
    forall i :: 0 <= i < |events| ==> events[i].changed >= 0
  }

  lemma {:induction false} SumUnderInFolders(events: seq<Event>, folders: seq<string>, k: string)
    requires NoNegativeCounts(events)
    ensures 0 <= SumUnder(events, ByAuthorInFolders(folders), k) <= SumUnder(events, ByAuthor, k)
  {
    if events != [] {
      var init := events[..|events| - 1];
      assert NoNegativeCounts(init) by {
        assert forall i :: 0 <= i < |init| ==> init[i] == events[i];
      }
      SumUnderInFolders(init, folders, k);
    }
  }

  /** In folder mode every author in `inFolderCommits` is in `allCommits`,
      and, line counts being non-negative, with no larger total there. */
  lemma InFolderWithinAll(events: seq<Event>, folders: seq<string>, k: string)
    requires NoNegativeCounts(events)
    ensures HasKey(Tally(events, ByAuthorInFolders(folders)), k) ==> HasKey(Tally(events, ByAuthor), k)
    ensures 0 <= GetOrDefault(Tally(events, ByAuthorInFolders(folders)), k, 0)
              <= GetOrDefault(Tally(events, ByAuthor), k, 0)
  {
    TallyMeaning(events, ByAuthorInFolders(folders), k);
    TallyMeaning(events, ByAuthor, k);
    SumUnderInFolders(events, folders, k);
    if Counted(events, ByAuthorInFolders(folders), k) {
      var i :| 0 <= i < |events| && KeyOf(ByAuthorInFolders(folders), events[i]) == Some(k);
      assert KeyOf(ByAuthor, events[i]) == Some(k);
    }
  }

  lemma {:induction false} TallyNonNegative(events: seq<Event>, g: Grouping)
    requires NoNegativeCounts(events)
    ensures forall i :: 0 <= i < |Tally(events, g)| ==> Tally(events, g)[i].count >= 0
  {
    var t := Tally(events, g);
    forall i | 0 <= i < |t| ensures t[i].count >= 0 {
      TallyMeaning(events, g, t[i].key);
      GetEntry(t, i);
      SumUnderNonNegative(events, g, t[i].key);
    }
  }

  lemma {:induction false} SumUnderNonNegative(events: seq<Event>, g: Grouping, k: string)
    requires NoNegativeCounts(events)
    ensures SumUnder(events, g, k) >= 0
  {
    if events != [] {
      var init := events[..|events| - 1];
      assert NoNegativeCounts(init) by {
        assert forall i :: 0 <= i < |init| ==> init[i] == events[i];
      }
      SumUnderNonNegative(init, g, k);
    }
  }

  /** The callback of `contributionsByFolders`, run over the events: one pass
      updating `inFolderCommits` for events under a folder and `allCommits`
      for every event. */
  method AggregateByFolders(events: seq<Event>, folders: seq<string>) returns (inFolderCommits: Table, allCommits: Table)
    ensures inFolderCommits == Tally(events, ByAuthorInFolders(folders))
    ensures allCommits == Tally(events, ByAuthor)
  {
    inFolderCommits, allCommits := [], [];
    for i := 0 to |events|
      invariant inFolderCommits == Tally(events[..i], ByAuthorInFolders(folders))
      invariant allCommits == Tally(events[..i], ByAuthor)
    {
      var e := events[i];
      assert events[..i + 1][..i] == events[..i];
      if AnyStartsWith(folders, e.file) {
        inFolderCommits := Add(inFolderCommits, e.author, e.changed);
      }
      allCommits := Add(allCommits, e.author, e.changed);
    }
    assert events[..|events|] == events;
  }

  /** The callback of `contributionsByAuthor`, run over the events: an event
      under one of the folders adds to the bucket of the directory below the
      first folder it matches; any other event is ignored. */
  method AggregateByAuthor(events: seq<Event>, folders: seq<string>) returns (folderCommits: Table)
    ensures folderCommits == Tally(events, ByNextLevel(folders))
  {
    folderCommits := [];
    for i := 0 to |events|
      invariant folderCommits == Tally(events[..i], ByNextLevel(folders))
    {
      var e := events[i];
      assert events[..i + 1][..i] == events[..i];
      var folder := FirstMatch(folders, e.file);
      if folder.Some? {
        var nextLevelDirectory := NextLevelDirectory(e.file, folder.value);
        folderCommits := Add(folderCommits, nextLevelDirectory, e.changed);
      }
    }
    assert events[..|events|] == events;
  }
}
