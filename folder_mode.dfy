/** `contributionsByFolders`: for every author active enough, the share of
    their own changes that lies under the folders, and their share of all
    the changes under the folders. */
module FolderMode {
  import opened Wrappers
  import opened KotlinText
  import opened NumstatParser
  import opened LinkedTable
  import opened HalfUp
  import opened Scopes
  import opened Ranking
  import opened Aggregation
  import opened Report

  /** Authors with fewer changed lines than this get no `Contribution`. */
  const ActivityFloor := 10

  datatype Contribution = Contribution(author: string, percentageInFolder: int, percentageOfFolder: int)

  function InFolderShare(c: Contribution): int { c.percentageInFolder }
  function OfFolderShare(c: Contribution): int { c.percentageOfFolder }

  /** The entries of `allCommits` at or above the activity floor, in map
      order. */
  function Active(allCommits: Table): (r: Table)
    ensures forall e :: e in r <==> e in allCommits && e.count >= ActivityFloor
    ensures forall i :: 0 <= i < |r| ==> r[i].count >= ActivityFloor
    ensures forall i, j :: 0 <= i < j < |r| ==> Before(allCommits, r[i], r[j])
  {
    if allCommits == [] then []
    else
      var head := if allCommits[0].count >= ActivityFloor then [allCommits[0]] else [];
      var rest := Active(allCommits[1..]);
      assert forall k :: 0 <= k < |rest| ==> rest[k] in rest;
      PrefixedInOrder(allCommits, head, rest);
      head + rest
  }

  /** The `Contribution` of one author: the author's in-folder changes over
      all of the author's changes, and over all in-folder changes. A part
      between nothing and the whole gives a share between 0.00% and 100.00%;
      an author whose every change is in the folders gets 100.00%. */
  function ContributionOf(e: Entry, inFolderCommits: Table, totalInFolderCommits: int): (c: Contribution)
    requires e.count != 0 && totalInFolderCommits != 0
    ensures c.author == e.key
    ensures var inFolder := GetOrDefault(inFolderCommits, e.key, 0);
      0 <= inFolder <= e.count ==> 0 <= c.percentageInFolder <= 10000 && (inFolder == e.count ==> c.percentageInFolder == 10000)
    ensures var inFolder := GetOrDefault(inFolderCommits, e.key, 0);
      0 <= inFolder <= totalInFolderCommits ==> 0 <= c.percentageOfFolder <= 10000
  {
    var inFolder := GetOrDefault(inFolderCommits, e.key, 0);
    assert 0 <= inFolder <= e.count ==> 0 <= Percentage(inFolder, e.count) <= 10000
                                        && (inFolder == e.count ==> Percentage(inFolder, e.count) == 10000) by {
      if 0 <= inFolder <= e.count {
        PercentageBounds(inFolder, e.count);
      }
    }
    assert 0 <= inFolder <= totalInFolderCommits ==> 0 <= Percentage(inFolder, totalInFolderCommits) <= 10000 by {
      if 0 <= inFolder <= totalInFolderCommits {
        PercentageBounds(inFolder, totalInFolderCommits);
      }
    }
    Contribution(e.key, Percentage(inFolder, e.count), Percentage(inFolder, totalInFolderCommits))
  }

  /** The `mapNotNull` over `allCommits`: one contribution per active author,
      in map order; the first active author makes the division by a zero
      in-folder total throw. */
  function Contributions(allCommits: Table, inFolderCommits: Table, totalInFolderCommits: int): (r: Result<seq<Contribution>, Failure>)
    ensures r.Err? <==> totalInFolderCommits == 0 && Active(allCommits) != []
    ensures r.Err? ==> r.error == DivisionByZero
  {
    if allCommits == [] then Ok([])
    else if allCommits[0].count < ActivityFloor then
      assert Active(allCommits) == Active(allCommits[1..]);
      Contributions(allCommits[1..], inFolderCommits, totalInFolderCommits)
    else if totalInFolderCommits == 0 then Err(DivisionByZero)
    else
      assert Active(allCommits) == [allCommits[0]] + Active(allCommits[1..]);
      match Contributions(allCommits[1..], inFolderCommits, totalInFolderCommits)
      case Err(f) => Err(f)
      case Ok(cs) => Ok([ContributionOf(allCommits[0], inFolderCommits, totalInFolderCommits)] + cs)
  }

  /** A successful `mapNotNull` holds one contribution per active author, in
      map order, each built from that author's entry. */
  lemma {:induction false} ContributionsAt(allCommits: Table, inFolderCommits: Table, totalInFolderCommits: int, cs: seq<Contribution>)
    requires Contributions(allCommits, inFolderCommits, totalInFolderCommits) == Ok(cs)
    ensures |cs| == |Active(allCommits)|
    ensures forall j :: 0 <= j < |cs| ==>
      totalInFolderCommits != 0 && cs[j] == ContributionOf(Active(allCommits)[j], inFolderCommits, totalInFolderCommits)
  {
    if allCommits != [] {
      var tail := allCommits[1..];
      if allCommits[0].count < ActivityFloor {
        assert Active(allCommits) == Active(tail);
        ContributionsAt(tail, inFolderCommits, totalInFolderCommits, cs);
      } else {
        var active, later := Active(allCommits), Active(tail);
        assert active == [allCommits[0]] + later;
        var rest := Contributions(tail, inFolderCommits, totalInFolderCommits).value;
        assert cs == [ContributionOf(allCommits[0], inFolderCommits, totalInFolderCommits)] + rest;
        ContributionsAt(tail, inFolderCommits, totalInFolderCommits, rest);
        forall j | 0 <= j < |cs|
          ensures totalInFolderCommits != 0 && cs[j] == ContributionOf(active[j], inFolderCommits, totalInFolderCommits)
        {
          if j > 0 {
            assert cs[j] == rest[j - 1] && active[j] == later[j - 1];
          }
        }
      }
    }
  }

  function InFolderRows(cs: seq<Contribution>): (r: seq<Line>)
    ensures |r| == |cs|
    ensures forall i :: 0 <= i < |cs| ==> r[i] == InFolderLine(cs[i].author, cs[i].percentageInFolder)
  {
    if cs == [] then [] else [InFolderLine(cs[0].author, cs[0].percentageInFolder)] + InFolderRows(cs[1..])
  }

  function OfFolderRows(cs: seq<Contribution>): (r: seq<Line>)
    ensures |r| == |cs|
    ensures forall i :: 0 <= i < |cs| ==> r[i] == OfFolderLine(cs[i].author, cs[i].percentageOfFolder)
  {
    if cs == [] then [] else [OfFolderLine(cs[0].author, cs[0].percentageOfFolder)] + OfFolderRows(cs[1..])
  }

  /** The two rankings, separated by "---": one in-folder row per
      contribution the in-folder ranking shows, in its order, then the
      separator, then one of-folder row per contribution the of-folder
      ranking shows, in its order; none of them under 1.00%. */
  function FolderLines(cs: seq<Contribution>): (r: seq<Line>)
    ensures var a, b := Shown(cs, InFolderShare, DisplayFloor), Shown(cs, OfFolderShare, DisplayFloor);
      |r| == |a| + 1 + |b| && r[|a|] == Separator
      && (forall i :: 0 <= i < |a| ==> r[i] == InFolderLine(a[i].author, a[i].percentageInFolder))
      && (forall i :: 0 <= i < |b| ==> r[|a| + 1 + i] == OfFolderLine(b[i].author, b[i].percentageOfFolder))
    ensures var n := |Shown(cs, InFolderShare, DisplayFloor)|;
      n < |r| && r[n] == Separator
      && (forall i :: 0 <= i < n ==> r[i].InFolderLine? && r[i].percentage >= DisplayFloor)
      && (forall i :: n < i < |r| ==> r[i].OfFolderLine? && r[i].percentage >= DisplayFloor)
  {
    ShownAbove(cs, InFolderShare);
    ShownAbove(cs, OfFolderShare);
    LinesOf(cs);
    LinesAbove(cs);
    InFolderRows(Shown(cs, InFolderShare, DisplayFloor)) + [Separator] + OfFolderRows(Shown(cs, OfFolderShare, DisplayFloor))
  }

  lemma LinesOf(cs: seq<Contribution>)
    ensures var a, b := Shown(cs, InFolderShare, DisplayFloor), Shown(cs, OfFolderShare, DisplayFloor);
      var r := InFolderRows(a) + [Separator] + OfFolderRows(b);
      |r| == |a| + 1 + |b| && r[|a|] == Separator
      && (forall i :: 0 <= i < |a| ==> r[i] == InFolderLine(a[i].author, a[i].percentageInFolder))
      && (forall i :: 0 <= i < |b| ==> r[|a| + 1 + i] == OfFolderLine(b[i].author, b[i].percentageOfFolder))
  {
    RowsJoined(Shown(cs, InFolderShare, DisplayFloor), Shown(cs, OfFolderShare, DisplayFloor));
  }

  lemma LinesAbove(cs: seq<Contribution>)
    ensures var a, b := Shown(cs, InFolderShare, DisplayFloor), Shown(cs, OfFolderShare, DisplayFloor);
      var r := InFolderRows(a) + [Separator] + OfFolderRows(b);
      (forall i :: 0 <= i < |a| ==> r[i].InFolderLine? && r[i].percentage >= DisplayFloor)
      && (forall i :: |a| < i < |r| ==> r[i].OfFolderLine? && r[i].percentage >= DisplayFloor)
  {
    RankingsJoined(Shown(cs, InFolderShare, DisplayFloor), Shown(cs, OfFolderShare, DisplayFloor));
  }

  /** Every row shown reaches the display floor. */
  lemma ShownAbove(cs: seq<Contribution>, key: Contribution -> int)
    ensures forall i :: 0 <= i < |Shown(cs, key, DisplayFloor)| ==> key(Shown(cs, key, DisplayFloor)[i]) >= DisplayFloor
  {
    var shown := Shown(cs, key, DisplayFloor);
    assert forall i :: 0 <= i < |shown| ==> shown[i] in shown;
  }

  lemma RankingsJoined(byInFolder: seq<Contribution>, byOfFolder: seq<Contribution>)
    requires forall i :: 0 <= i < |byInFolder| ==> InFolderShare(byInFolder[i]) >= DisplayFloor
    requires forall i :: 0 <= i < |byOfFolder| ==> OfFolderShare(byOfFolder[i]) >= DisplayFloor
    ensures var r, n := InFolderRows(byInFolder) + [Separator] + OfFolderRows(byOfFolder), |byInFolder|;
      n < |r| && r[n] == Separator
      && (forall i :: 0 <= i < n ==> r[i].InFolderLine? && r[i].percentage >= DisplayFloor)
      && (forall i :: n < i < |r| ==> r[i].OfFolderLine? && r[i].percentage >= DisplayFloor)
  {
    InFolderRowsAbove(byInFolder);
    OfFolderRowsAbove(byOfFolder);
    Joined(InFolderRows(byInFolder), OfFolderRows(byOfFolder));
  }

  lemma RowsJoined(a: seq<Contribution>, b: seq<Contribution>)
    ensures var r := InFolderRows(a) + [Separator] + OfFolderRows(b);
      |r| == |a| + 1 + |b|
      && (forall i :: 0 <= i < |a| ==> r[i] == InFolderLine(a[i].author, a[i].percentageInFolder))
      && (forall i :: 0 <= i < |b| ==> r[|a| + 1 + i] == OfFolderLine(b[i].author, b[i].percentageOfFolder))
  {
    var x, y := InFolderRows(a), OfFolderRows(b);
    Joined(x, y);
  }

  lemma InFolderRowsAbove(cs: seq<Contribution>)
    requires forall i :: 0 <= i < |cs| ==> InFolderShare(cs[i]) >= DisplayFloor
    ensures forall i :: 0 <= i < |cs| ==> InFolderRows(cs)[i].InFolderLine? && InFolderRows(cs)[i].percentage >= DisplayFloor
  {
  }

  lemma OfFolderRowsAbove(cs: seq<Contribution>)
    requires forall i :: 0 <= i < |cs| ==> OfFolderShare(cs[i]) >= DisplayFloor
    ensures forall i :: 0 <= i < |cs| ==> OfFolderRows(cs)[i].OfFolderLine? && OfFolderRows(cs)[i].percentage >= DisplayFloor
  {
  }

  lemma Joined(a: seq<Line>, b: seq<Line>)
    ensures var r := a + [Separator] + b;
      |r| == |a| + |b| + 1 && r[|a|] == Separator
      && (forall i :: 0 <= i < |a| ==> r[i] == a[i])
      && (forall i :: |a| < i < |r| ==> r[i] == b[i - |a| - 1])
      && (forall i :: 0 <= i < |b| ==> r[|a| + 1 + i] == b[i])
  {
  }

  /** What is left to do once the events are in: the maps, the total, the
      contributions and the two rankings. */
  function FolderOutcome(printed: seq<Line>, events: seq<Event>, folders: seq<string>): (o: Outcome)
    ensures |printed| <= |o.printed| && o.printed[..|printed|] == printed
    ensures forall i :: |printed| <= i < |o.printed| ==> RankingLine(o.printed[i])
    ensures o.failure == None ==> Separator in o.printed
  {
    var inFolderCommits := Tally(events, ByAuthorInFolders(folders));
    var allCommits := Tally(events, ByAuthor);
    match Contributions(allCommits, inFolderCommits, SumValues(inFolderCommits))
    case Err(f) => Outcome(printed, Some(f))
    case Ok(cs) =>
      FolderLinesKinds(cs);
      Appended(printed, FolderLines(cs));
      Outcome(printed + FolderLines(cs), None)
  }

  /** A line of the folder report proper. */
  predicate RankingLine(l: Line) {
    l.InFolderLine? || l == Separator || l.OfFolderLine?
  }

  lemma FolderLinesKinds(cs: seq<Contribution>)
    ensures Separator in FolderLines(cs)
    ensures forall i :: 0 <= i < |FolderLines(cs)| ==> RankingLine(FolderLines(cs)[i])
  {
  }

  lemma Appended(a: seq<Line>, b: seq<Line>)
    ensures (a + b)[..|a|] == a
    ensures forall i :: |a| <= i < |a + b| ==> (a + b)[i] == b[i - |a|]
    ensures forall l :: l in b ==> l in a + b
  {
  }

  /** The whole of folder mode over the lines git writes. A stream that ends
      after an identity line throws before anything is printed; an empty
      stream prints the notice and then an empty report. */
  function FolderReport(folders: seq<string>, log: seq<string>): (o: Outcome)
    ensures o.failure == Some(NoSuchElement) <==> ParseLog(log) == EndedAfterAuthor
    ensures o.failure == Some(NoSuchElement) ==> o.printed == []
    ensures o.failure == None ==> Separator in o.printed
    ensures forall i :: 0 <= i < |o.printed| ==> o.printed[i] == NoCommitsNotice || RankingLine(o.printed[i])
  {
    match ParseLog(log)
    case EndedAfterAuthor => Outcome([], Some(NoSuchElement))
    case NoCommits => FolderOutcome([NoCommitsNotice], [], folders)
    case Events(events) => FolderOutcome([], events, folders)
  }

  /** `contributionsByFolders`, on the lines of git's output. */
  method ContributionsByFolders(folders: seq<string>, log: seq<string>) returns (o: Outcome)
    ensures o == FolderReport(folders, log)
  {
    var parsed := ForCommits(log);
    var printed: seq<Line>, events: seq<Event>;
    match parsed {
      case EndedAfterAuthor => return Outcome([], Some(NoSuchElement));
      case NoCommits => printed, events := [NoCommitsNotice], [];
      case Events(es) => printed, events := [], es;
    }
    var inFolderCommits, allCommits := AggregateByFolders(events, folders);
    var totalInFolderCommits := SumValues(inFolderCommits);
    var contributions := Contributions(allCommits, inFolderCommits, totalInFolderCommits);
    if contributions.Err? {
      return Outcome(printed, Some(contributions.error));
    }
    o := Outcome(printed + FolderLines(contributions.value), None);
  }

  /** A tally read at any key is the sum of the events counted under it. */
  lemma TallyAt(events: seq<Event>, g: Grouping, k: string)
    ensures GetOrDefault(Tally(events, g), k, 0) == SumUnder(events, g, k)
  {
    TallyMeaning(events, g, k);
    SumUnderUncounted(events, g, k);
  }

  /** An entry of a tally holds the sum of the events counted under its
      key. */
  lemma TallyEntry(events: seq<Event>, g: Grouping, e: Entry)
    requires e in Tally(events, g)
    ensures e.count == SumUnder(events, g, e.key)
  {
    var t := Tally(events, g);
    var i :| 0 <= i < |t| && t[i] == e;
    TallyMeaning(events, g, e.key);
    GetEntry(t, i);
    TallyAt(events, g, e.key);
  }

  /** Every author whose changes reach the activity floor appears in
      `allCommits`. */
  lemma ActiveAuthorListed(events: seq<Event>, k: string)
    requires SumUnder(events, ByAuthor, k) >= ActivityFloor
    ensures Entry(k, SumUnder(events, ByAuthor, k)) in Active(Tally(events, ByAuthor))
  {
    var t := Tally(events, ByAuthor);
    SumUnderUncounted(events, ByAuthor, k);
    TallyMeaning(events, ByAuthor, k);
    var i :| 0 <= i < |t| && t[i] == Entry(k, SumUnder(events, ByAuthor, k));
  }

  /** A contribution's author has changes reaching the floor, the folders
      hold some changes, and its first share is the author's in-folder
      changes over all of the author's changes, its second the same over all
      in-folder changes, each rounded half-up to hundredths of a percent. */
  predicate SharesOfEvents(events: seq<Event>, folders: seq<string>, c: Contribution) {
    var inFolder := SumUnder(events, ByAuthorInFolders(folders), c.author);
    var commits := SumUnder(events, ByAuthor, c.author);
    var total := SumCounted(events, ByAuthorInFolders(folders));
    commits >= ActivityFloor && total != 0
    && c.percentageInFolder == Percentage(inFolder, commits)
    && c.percentageOfFolder == Percentage(inFolder, total)
  }

  /** The contributions, stated over the events: there is one for an author
      exactly when the author's changes reach the floor; its first share is
      the author's in-folder changes over all of the author's changes, its
      second the same over all in-folder changes, each rounded half-up to
      hundredths of a percent. */
  lemma ContributionsOfEvents(events: seq<Event>, folders: seq<string>, cs: seq<Contribution>)
    requires Contributions(Tally(events, ByAuthor), Tally(events, ByAuthorInFolders(folders)),
                           SumValues(Tally(events, ByAuthorInFolders(folders)))) == Ok(cs)
    ensures forall k :: (exists j :: 0 <= j < |cs| && cs[j].author == k) <==> SumUnder(events, ByAuthor, k) >= ActivityFloor
    ensures forall j :: 0 <= j < |cs| ==> SharesOfEvents(events, folders, cs[j])
  {
    var g := ByAuthorInFolders(folders);
    var all := Tally(events, ByAuthor);
    var inFolderCommits := Tally(events, g);
    var active := Active(all);
    ContributionsAt(all, inFolderCommits, SumValues(inFolderCommits), cs);
    forall j | 0 <= j < |cs|
      ensures cs[j].author == active[j].key && SharesOfEvents(events, folders, cs[j])
    {
      assert active[j] in active;
      ContributionShares(events, folders, active[j], cs[j]);
    }
    ActiveAuthors(events, active, cs);
  }

  /** One contribution, stated over the events. */
  lemma ContributionShares(events: seq<Event>, folders: seq<string>, e: Entry, c: Contribution)
    requires e in Active(Tally(events, ByAuthor))
    requires SumValues(Tally(events, ByAuthorInFolders(folders))) != 0
    requires c == ContributionOf(e, Tally(events, ByAuthorInFolders(folders)), SumValues(Tally(events, ByAuthorInFolders(folders))))
    ensures c.author == e.key
    ensures SharesOfEvents(events, folders, c)
  {
    var g := ByAuthorInFolders(folders);
    TallySum(events, g);
    TallyEntry(events, ByAuthor, e);
    TallyAt(events, g, e.key);
  }

  /** The authors of the contributions are exactly those whose changes reach
      the floor. */
  lemma ActiveAuthors(events: seq<Event>, active: Table, cs: seq<Contribution>)
    requires active == Active(Tally(events, ByAuthor))
    requires |cs| == |active| && forall j :: 0 <= j < |cs| ==> cs[j].author == active[j].key
    ensures forall k :: (exists j :: 0 <= j < |cs| && cs[j].author == k) <==> SumUnder(events, ByAuthor, k) >= ActivityFloor
  {
    forall k ensures (exists j :: 0 <= j < |cs| && cs[j].author == k) <==> SumUnder(events, ByAuthor, k) >= ActivityFloor {
      if SumUnder(events, ByAuthor, k) >= ActivityFloor {
        var e := Entry(k, SumUnder(events, ByAuthor, k));
        ActiveAuthorListed(events, k);
        var j :| 0 <= j < |active| && active[j] == e;
        assert cs[j].author == k;
      }
      if j :| 0 <= j < |cs| && cs[j].author == k {
        assert active[j] in active;
        TallyEntry(events, ByAuthor, active[j]);
      }
    }
  }

  /** With non-negative line counts both shares lie between 0.00 and
      100.00. */
  lemma SharesBounded(events: seq<Event>, folders: seq<string>, cs: seq<Contribution>)
    requires NoNegativeCounts(events)
    requires Contributions(Tally(events, ByAuthor), Tally(events, ByAuthorInFolders(folders)),
                           SumValues(Tally(events, ByAuthorInFolders(folders)))) == Ok(cs)
    ensures forall j :: 0 <= j < |cs| ==>
      0 <= cs[j].percentageInFolder <= 10000 && 0 <= cs[j].percentageOfFolder <= 10000
  {
    var g := ByAuthorInFolders(folders);
    var inFolderCommits := Tally(events, g);
    var total := SumValues(inFolderCommits);
    var active := Active(Tally(events, ByAuthor));
    ContributionsAt(Tally(events, ByAuthor), inFolderCommits, total, cs);
    TallyNonNegative(events, g);
    SumNonNegative(inFolderCommits);
    forall j | 0 <= j < |cs|
      ensures 0 <= cs[j].percentageInFolder <= 10000 && 0 <= cs[j].percentageOfFolder <= 10000
    {
      var e := active[j];
      assert e in active;
      TallyEntry(events, ByAuthor, e);
      TallyAt(events, ByAuthor, e.key);
      InFolderWithinAll(events, folders, e.key);
      ValueWithinSum(inFolderCommits, e.key);
      PercentageBounds(GetOrDefault(inFolderCommits, e.key, 0), e.count);
      PercentageBounds(GetOrDefault(inFolderCommits, e.key, 0), total);
    }
  }

  /** Both rankings are non-increasing in their own share, show exactly the
      contributions at or above 1.00% each once, and keep map order among
      equal shares. */
  lemma FolderRankings(cs: seq<Contribution>, v: int)
    ensures NonIncreasing(Shown(cs, InFolderShare, DisplayFloor), InFolderShare)
    ensures NonIncreasing(Shown(cs, OfFolderShare, DisplayFloor), OfFolderShare)
    ensures forall c :: c in Shown(cs, InFolderShare, DisplayFloor) <==> c in cs && c.percentageInFolder >= DisplayFloor
    ensures forall c :: c in Shown(cs, OfFolderShare, DisplayFloor) <==> c in cs && c.percentageOfFolder >= DisplayFloor
    ensures multiset(Shown(cs, InFolderShare, DisplayFloor)) == multiset(AtLeast(cs, InFolderShare, DisplayFloor))
    ensures multiset(Shown(cs, OfFolderShare, DisplayFloor)) == multiset(AtLeast(cs, OfFolderShare, DisplayFloor))
    ensures WithKey(SortDescending(cs, InFolderShare), InFolderShare, v) == WithKey(cs, InFolderShare, v)
    ensures WithKey(SortDescending(cs, OfFolderShare), OfFolderShare, v) == WithKey(cs, OfFolderShare, v)
  {
    SortDescendingStable(cs, InFolderShare, v);
    SortDescendingStable(cs, OfFolderShare, v);
  }

  /** The contributions come in the order of the authors' first commits in
      the stream. */
  lemma ContributionsInOrder(events: seq<Event>, folders: seq<string>, cs: seq<Contribution>, p: nat, q: nat)
    requires Contributions(Tally(events, ByAuthor), Tally(events, ByAuthorInFolders(folders)),
                           SumValues(Tally(events, ByAuthorInFolders(folders)))) == Ok(cs)
    requires p < q < |cs|
    ensures FirstBefore(events, ByAuthor, cs[p].author, cs[q].author)
  {
    var all := Tally(events, ByAuthor);
    var inFolderCommits := Tally(events, ByAuthorInFolders(folders));
    var active := Active(all);
    ContributionsAt(all, inFolderCommits, SumValues(inFolderCommits), cs);
    assert cs[p].author == active[p].key && cs[q].author == active[q].key;
    var p', q' :| 0 <= p' < q' < |all| && all[p'] == active[p] && all[q'] == active[q];
    TallyOrder(events, ByAuthor, p', q');
  }

  /** Authors with equal shares are listed, in either ranking, in the order
      of their first commits in the stream. */
  lemma RankingTiesInStreamOrder(events: seq<Event>, folders: seq<string>, cs: seq<Contribution>, key: Contribution -> int)
    requires Contributions(Tally(events, ByAuthor), Tally(events, ByAuthorInFolders(folders)),
                           SumValues(Tally(events, ByAuthorInFolders(folders)))) == Ok(cs)
    ensures var shown := Shown(cs, key, DisplayFloor);
      forall i, j :: 0 <= i < j < |shown| && key(shown[i]) == key(shown[j]) ==>
        FirstBefore(events, ByAuthor, shown[i].author, shown[j].author)
  {
    var shown := Shown(cs, key, DisplayFloor);
    forall i, j | 0 <= i < j < |shown| && key(shown[i]) == key(shown[j])
      ensures FirstBefore(events, ByAuthor, shown[i].author, shown[j].author)
    {
      assert Before(cs, shown[i], shown[j]);
      var p, q :| 0 <= p < q < |cs| && cs[p] == shown[i] && cs[q] == shown[j];
      ContributionsInOrder(events, folders, cs, p, q);
    }
  }

  function AuthorOf(c: Contribution): string { c.author }

  /** No author has two contributions: each comes from an entry of
      `allCommits`, whose keys are distinct. */
  lemma ContributionAuthorsDistinct(events: seq<Event>, folders: seq<string>, cs: seq<Contribution>)
    requires Contributions(Tally(events, ByAuthor), Tally(events, ByAuthorInFolders(folders)),
                           SumValues(Tally(events, ByAuthorInFolders(folders)))) == Ok(cs)
    ensures forall i, j :: 0 <= i < j < |cs| ==> AuthorOf(cs[i]) != AuthorOf(cs[j])
  {
    var all := Tally(events, ByAuthor);
    var inFolderCommits := Tally(events, ByAuthorInFolders(folders));
    var active := Active(all);
    ContributionsAt(all, inFolderCommits, SumValues(inFolderCommits), cs);
    forall i, j | 0 <= i < j < |cs| ensures AuthorOf(cs[i]) != AuthorOf(cs[j]) {
      assert cs[i].author == active[i].key && cs[j].author == active[j].key;
      assert Before(all, active[i], active[j]);
      var p, q :| 0 <= p < q < |all| && all[p] == active[i] && all[q] == active[j];
    }
  }

  /** Rows of one of the two rankings, in non-increasing order of their
      percentage, no author twice, and authors with equal percentages in the
      order of their first commits in the stream. */
  predicate RankedAuthors(rows: seq<Line>, events: seq<Event>)
    requires forall i :: 0 <= i < |rows| ==> rows[i].InFolderLine? || rows[i].OfFolderLine?
  {
    forall i, j :: 0 <= i < j < |rows| ==>
      rows[i].percentage >= rows[j].percentage && rows[i].author != rows[j].author
      && (rows[i].percentage == rows[j].percentage ==> FirstBefore(events, ByAuthor, rows[i].author, rows[j].author))
  }

  /** The in-folder ranking as printed, stated over the events: a row
      `InFolderLine(a, p)` is there exactly when `a`'s changes reach the
      activity floor and `p`, their in-folder changes over all their
      changes rounded half-up, is at least 1.00%. */
  ghost predicate InFolderRanking(rows: seq<Line>, events: seq<Event>, folders: seq<string>) {
    (forall i :: 0 <= i < |rows| ==> rows[i].InFolderLine?)
    && RankedAuthors(rows, events)
    && forall a, p :: InFolderLine(a, p) in rows <==>
         var commits := SumUnder(events, ByAuthor, a);
         commits >= ActivityFloor && p == Percentage(SumUnder(events, ByAuthorInFolders(folders), a), commits)
         && p >= DisplayFloor
  }

  /** The of-folder ranking as printed, stated over the events: a row
      `OfFolderLine(a, p)` is there exactly when `a`'s changes reach the
      activity floor and `p`, their in-folder changes over all in-folder
      changes rounded half-up, is at least 1.00%. */
  ghost predicate OfFolderRanking(rows: seq<Line>, events: seq<Event>, folders: seq<string>) {
    (forall i :: 0 <= i < |rows| ==> rows[i].OfFolderLine?)
    && RankedAuthors(rows, events)
    && forall a, p :: OfFolderLine(a, p) in rows <==>
         var g := ByAuthorInFolders(folders);
         SumUnder(events, ByAuthor, a) >= ActivityFloor && SumCounted(events, g) != 0
         && p == Percentage(SumUnder(events, g, a), SumCounted(events, g)) && p >= DisplayFloor
  }

  /** The printed in-folder rows mean what `InFolderRanking` says. */
  lemma InFolderRowsMeaning(events: seq<Event>, folders: seq<string>, cs: seq<Contribution>)
    requires Contributions(Tally(events, ByAuthor), Tally(events, ByAuthorInFolders(folders)),
                           SumValues(Tally(events, ByAuthorInFolders(folders)))) == Ok(cs)
    ensures InFolderRanking(InFolderRows(Shown(cs, InFolderShare, DisplayFloor)), events, folders)
  {
    var a := Shown(cs, InFolderShare, DisplayFloor);
    ContributionsOfEvents(events, folders, cs);
    ContributionAuthorsDistinct(events, folders, cs);
    RankingTiesInStreamOrder(events, folders, cs, InFolderShare);
    RankedDistinct(a, cs, InFolderShare, AuthorOf);
    InFolderRowsRanked(a, events);
    forall x, p ensures InFolderLine(x, p) in InFolderRows(a) <==>
      var commits := SumUnder(events, ByAuthor, x);
      commits >= ActivityFloor && p == Percentage(SumUnder(events, ByAuthorInFolders(folders), x), commits)
      && p >= DisplayFloor
    {
      InFolderMember(a, cs, events, folders, x, p);
    }
  }

  lemma InFolderRowsRanked(a: seq<Contribution>, events: seq<Event>)
    requires NonIncreasing(a, InFolderShare)
    requires forall i, j :: 0 <= i < j < |a| ==> AuthorOf(a[i]) != AuthorOf(a[j])
    requires forall i, j :: 0 <= i < j < |a| && InFolderShare(a[i]) == InFolderShare(a[j]) ==>
      FirstBefore(events, ByAuthor, a[i].author, a[j].author)
    ensures var rows := InFolderRows(a);
      (forall i :: 0 <= i < |rows| ==> rows[i].InFolderLine?) && RankedAuthors(rows, events)
  {
  }

  /** One in-folder row, stated over the events. */
  lemma InFolderMember(a: seq<Contribution>, cs: seq<Contribution>, events: seq<Event>, folders: seq<string>, x: string, p: int)
    requires forall c :: c in a <==> c in cs && InFolderShare(c) >= DisplayFloor
    requires forall j :: 0 <= j < |cs| ==> SharesOfEvents(events, folders, cs[j])
    requires forall k :: (exists j :: 0 <= j < |cs| && cs[j].author == k) <==> SumUnder(events, ByAuthor, k) >= ActivityFloor
    ensures InFolderLine(x, p) in InFolderRows(a) <==>
      var commits := SumUnder(events, ByAuthor, x);
      commits >= ActivityFloor && p == Percentage(SumUnder(events, ByAuthorInFolders(folders), x), commits)
      && p >= DisplayFloor
  {
    var rows := InFolderRows(a);
    if InFolderLine(x, p) in rows {
      var i :| 0 <= i < |rows| && rows[i] == InFolderLine(x, p);
      assert a[i] in a;
      var j :| 0 <= j < |cs| && cs[j] == a[i];
      assert SharesOfEvents(events, folders, cs[j]);
    }
    var commits := SumUnder(events, ByAuthor, x);
    if commits >= ActivityFloor && p == Percentage(SumUnder(events, ByAuthorInFolders(folders), x), commits)
       && p >= DisplayFloor {
      var j :| 0 <= j < |cs| && cs[j].author == x;
      assert SharesOfEvents(events, folders, cs[j]);
      assert cs[j] in a;
      var i :| 0 <= i < |a| && a[i] == cs[j];
      assert rows[i] == InFolderLine(x, p);
    }
  }

  /** The printed of-folder rows mean what `OfFolderRanking` says. */
  lemma OfFolderRowsMeaning(events: seq<Event>, folders: seq<string>, cs: seq<Contribution>)
    requires Contributions(Tally(events, ByAuthor), Tally(events, ByAuthorInFolders(folders)),
                           SumValues(Tally(events, ByAuthorInFolders(folders)))) == Ok(cs)
    ensures OfFolderRanking(OfFolderRows(Shown(cs, OfFolderShare, DisplayFloor)), events, folders)
  {
    var b := Shown(cs, OfFolderShare, DisplayFloor);
    var g := ByAuthorInFolders(folders);
    ContributionsOfEvents(events, folders, cs);
    ContributionAuthorsDistinct(events, folders, cs);
    RankingTiesInStreamOrder(events, folders, cs, OfFolderShare);
    RankedDistinct(b, cs, OfFolderShare, AuthorOf);
    OfFolderRowsRanked(b, events);
    forall x, p ensures OfFolderLine(x, p) in OfFolderRows(b) <==>
      SumUnder(events, ByAuthor, x) >= ActivityFloor && SumCounted(events, g) != 0
      && p == Percentage(SumUnder(events, g, x), SumCounted(events, g)) && p >= DisplayFloor
    {
      OfFolderMember(b, cs, events, folders, x, p);
    }
  }

  lemma OfFolderRowsRanked(b: seq<Contribution>, events: seq<Event>)
    requires NonIncreasing(b, OfFolderShare)
    requires forall i, j :: 0 <= i < j < |b| ==> AuthorOf(b[i]) != AuthorOf(b[j])
    requires forall i, j :: 0 <= i < j < |b| && OfFolderShare(b[i]) == OfFolderShare(b[j]) ==>
      FirstBefore(events, ByAuthor, b[i].author, b[j].author)
    ensures var rows := OfFolderRows(b);
      (forall i :: 0 <= i < |rows| ==> rows[i].OfFolderLine?) && RankedAuthors(rows, events)
  {
  }

  /** One of-folder row, stated over the events. */
  lemma OfFolderMember(b: seq<Contribution>, cs: seq<Contribution>, events: seq<Event>, folders: seq<string>, x: string, p: int)
    requires forall c :: c in b <==> c in cs && OfFolderShare(c) >= DisplayFloor
    requires forall j :: 0 <= j < |cs| ==> SharesOfEvents(events, folders, cs[j])
    requires forall k :: (exists j :: 0 <= j < |cs| && cs[j].author == k) <==> SumUnder(events, ByAuthor, k) >= ActivityFloor
    ensures var g := ByAuthorInFolders(folders);
      OfFolderLine(x, p) in OfFolderRows(b) <==>
        SumUnder(events, ByAuthor, x) >= ActivityFloor && SumCounted(events, g) != 0
        && p == Percentage(SumUnder(events, g, x), SumCounted(events, g)) && p >= DisplayFloor
  {
    var rows := OfFolderRows(b);
    var g := ByAuthorInFolders(folders);
    if OfFolderLine(x, p) in rows {
      var i :| 0 <= i < |rows| && rows[i] == OfFolderLine(x, p);
      assert b[i] in b;
      var j :| 0 <= j < |cs| && cs[j] == b[i];
      assert SharesOfEvents(events, folders, cs[j]);
    }
    if SumUnder(events, ByAuthor, x) >= ActivityFloor && SumCounted(events, g) != 0
       && p == Percentage(SumUnder(events, g, x), SumCounted(events, g)) && p >= DisplayFloor {
      var j :| 0 <= j < |cs| && cs[j].author == x;
      assert SharesOfEvents(events, folders, cs[j]);
      assert cs[j] in b;
      var i :| 0 <= i < |b| && b[i] == cs[j];
      assert rows[i] == OfFolderLine(x, p);
    }
  }

  /** Some author is active exactly when some author's changes reach the
      activity floor. */
  lemma ActiveExists(events: seq<Event>)
    ensures Active(Tally(events, ByAuthor)) != [] <==> exists a :: SumUnder(events, ByAuthor, a) >= ActivityFloor
  {
    var active := Active(Tally(events, ByAuthor));
    if a :| SumUnder(events, ByAuthor, a) >= ActivityFloor {
      ActiveAuthorListed(events, a);
    }
    if active != [] {
      assert active[0] in active;
      TallyEntry(events, ByAuthor, active[0]);
    }
  }

  /** Folder mode once the events are in, stated over the events: it throws
      `DivisionByZero`, adding nothing, exactly when some author's changes
      reach the activity floor and the changes under the folders add up to
      zero; otherwise it adds the in-folder ranking, `---` and the of-folder
      ranking, each meaning what its predicate says. */
  lemma FolderOutcomeMeaning(printed: seq<Line>, events: seq<Event>, folders: seq<string>)
    ensures var o := FolderOutcome(printed, events, folders);
      o.failure.Some? <==>
        SumCounted(events, ByAuthorInFolders(folders)) == 0 && exists a :: SumUnder(events, ByAuthor, a) >= ActivityFloor
    ensures var o := FolderOutcome(printed, events, folders);
      o.failure.Some? ==> o.failure == Some(DivisionByZero) && o.printed == printed
    ensures var o := FolderOutcome(printed, events, folders);
      o.failure.None? ==>
        exists n :: |printed| <= n < |o.printed| && o.printed[n] == Separator
          && o.printed[..|printed|] == printed
          && InFolderRanking(o.printed[|printed|..n], events, folders)
          && OfFolderRanking(o.printed[n + 1..], events, folders)
  {
    var g := ByAuthorInFolders(folders);
    FolderOutcomeFails(printed, events, folders);
    match Contributions(Tally(events, ByAuthor), Tally(events, g), SumValues(Tally(events, g)))
    case Err(f) =>
    case Ok(cs) =>
      FolderOutcomeOk(printed, events, folders, cs);
      InFolderRowsMeaning(events, folders, cs);
      OfFolderRowsMeaning(events, folders, cs);
      var x := InFolderRows(Shown(cs, InFolderShare, DisplayFloor));
      var y := OfFolderRows(Shown(cs, OfFolderShare, DisplayFloor));
      assert FolderLines(cs) == x + [Separator] + y;
      SplitAtSeparator(printed, x, y, events, folders);
  }

  lemma FolderOutcomeFails(printed: seq<Line>, events: seq<Event>, folders: seq<string>)
    ensures var o := FolderOutcome(printed, events, folders);
      o.failure.Some? <==>
        SumCounted(events, ByAuthorInFolders(folders)) == 0 && exists a :: SumUnder(events, ByAuthor, a) >= ActivityFloor
    ensures var o := FolderOutcome(printed, events, folders);
      o.failure.Some? ==> o.failure == Some(DivisionByZero) && o.printed == printed
  {
    TallySum(events, ByAuthorInFolders(folders));
    ActiveExists(events);
  }

  /** The rankings printed after `printed`, with `---` between them. */
  lemma SplitAtSeparator(printed: seq<Line>, x: seq<Line>, y: seq<Line>, events: seq<Event>, folders: seq<string>)
    requires InFolderRanking(x, events, folders) && OfFolderRanking(y, events, folders)
    ensures var out := printed + (x + [Separator] + y);
      exists n :: |printed| <= n < |out| && out[n] == Separator
        && out[..|printed|] == printed
        && InFolderRanking(out[|printed|..n], events, folders)
        && OfFolderRanking(out[n + 1..], events, folders)
  {
    var out := printed + (x + [Separator] + y);
    var n := |printed| + |x|;
    assert out[n] == Separator;
    assert out[..|printed|] == printed;
    assert out[|printed|..n] == x;
    assert out[n + 1..] == y;
  }

  /** The whole of folder mode over a stream that parses to `events`: the
      report throws `DivisionByZero`, printing nothing, exactly when some
      author's changes reach the activity floor and the changes under the
      folders add up to zero; otherwise it prints the in-folder ranking,
      `---` and the of-folder ranking. */
  lemma FolderReportMeaning(folders: seq<string>, log: seq<string>, events: seq<Event>)
    requires ParseLog(log) == Events(events)
    ensures var o := FolderReport(folders, log);
      o.failure.Some? <==>
        SumCounted(events, ByAuthorInFolders(folders)) == 0 && exists a :: SumUnder(events, ByAuthor, a) >= ActivityFloor
    ensures var o := FolderReport(folders, log);
      o.failure.Some? ==> o.failure == Some(DivisionByZero) && o.printed == []
    ensures var o := FolderReport(folders, log);
      o.failure.None? ==>
        exists n :: 0 <= n < |o.printed| && o.printed[n] == Separator
          && InFolderRanking(o.printed[..n], events, folders)
          && OfFolderRanking(o.printed[n + 1..], events, folders)
  {
    var o := FolderReport(folders, log);
    FolderOutcomeMeaning([], events, folders);
    if o.failure.None? {
      var n :| 0 <= n < |o.printed| && o.printed[n] == Separator
        && InFolderRanking(o.printed[0..n], events, folders)
        && OfFolderRanking(o.printed[n + 1..], events, folders);
      assert o.printed[..n] == o.printed[0..n];
    }
  }

  /** Some author reaches the floor but nothing lies under the folders: the
      second division throws. */
  lemma NothingInFolders(events: seq<Event>, folders: seq<string>, k: string)
    requires SumUnder(events, ByAuthor, k) >= ActivityFloor
    requires forall i :: 0 <= i < |events| ==> !AnyStartsWith(folders, events[i].file)
    ensures Contributions(Tally(events, ByAuthor), Tally(events, ByAuthorInFolders(folders)),
                          SumValues(Tally(events, ByAuthorInFolders(folders)))) == Err(DivisionByZero)
  {
    var g := ByAuthorInFolders(folders);
    assert forall i :: 0 <= i < |events| ==> KeyOf(g, events[i]).None?;
    NothingCounted(events, g);
    TallySum(events, g);
    ActiveAuthorListed(events, k);
  }

  lemma {:induction false} NothingCounted(events: seq<Event>, g: Grouping)
    requires forall i :: 0 <= i < |events| ==> KeyOf(g, events[i]).None?
    ensures SumCounted(events, g) == 0
  {
    if events != [] {
      var init := events[..|events| - 1];
      assert forall i :: 0 <= i < |init| ==> init[i] == events[i];
      NothingCounted(init, g);
    }
  }

  /** An empty stream prints the notice and the bare separator. */
  lemma EmptyLog(folders: seq<string>)
    ensures FolderReport(folders, []) == Outcome([NoCommitsNotice, Separator], None)
  {
    assert Active([]) == [];
    assert Shown([], InFolderShare, DisplayFloor) == [];
    assert Shown([], OfFolderShare, DisplayFloor) == [];
  }

  /** One author, fifteen lines under `foo` and five elsewhere: 75.00% of
      their code is in the folders, and they account for all of it. */
  lemma OneAuthorExample(identity: string, l1: string, l2: string)
    requires identity == "a@x.com" && l1 == "10\t5\tfoo/bar.txt" && l2 == "3\t2\tbaz.txt"
    ensures FolderReport(["foo"], ["", identity, "", l1, l2])
         == Outcome([InFolderLine("a", 7500), Separator, OfFolderLine("a", 10000)], None)
  {
    var events := [Event("a", 15, "foo/bar.txt"), Event("a", 5, "baz.txt")];
    OneAuthorEvents(identity, l1, l2);
    OneAuthorTallies();
    OneAuthorContribution();
    var c := Contribution("a", 7500, 10000);
    FolderOutcomeOk([], events, ["foo"], [c]);
    OneAuthorLines(c);
  }

  lemma FolderOutcomeOk(printed: seq<Line>, events: seq<Event>, folders: seq<string>, cs: seq<Contribution>)
    requires Contributions(Tally(events, ByAuthor), Tally(events, ByAuthorInFolders(folders)),
                           SumValues(Tally(events, ByAuthorInFolders(folders)))) == Ok(cs)
    ensures FolderOutcome(printed, events, folders) == Outcome(printed + FolderLines(cs), None)
  {
  }

  lemma OneAuthorEvents(identity: string, l1: string, l2: string)
    requires identity == "a@x.com" && l1 == "10\t5\tfoo/bar.txt" && l2 == "3\t2\tbaz.txt"
    ensures ParseLog(["", identity, "", l1, l2])
         == Events([Event("a", 15, "foo/bar.txt"), Event("a", 5, "baz.txt")])
  {
    assert l1[0] == '1' && l2[0] == '3';
    ParseOneRecord(identity, l1, l2);
    ExampleKey();
    StatLines("a", [l1, l2]);
  }

  /** The stream of a single commit with two numstat lines gives their
      events. */
  lemma ParseOneRecord(identity: string, l1: string, l2: string)
    requires l1 != "" && l2 != ""
    ensures ParseLog(["", identity, "", l1, l2]) == Events(StatEvents(AuthorKey(identity), [l1, l2]))
  {
    var last := Commit(identity, [l1, l2]);
    assert NoEmptyStats([] + [last]);
    ParseGitLog([], last);
    assert Render([]) == [] && Expected([]) == [];
    assert [""] + Render([]) + [last.identity, ""] + last.stats == ["", identity, "", l1, l2];
    assert Expected([]) + StatEvents(AuthorKey(identity), [l1, l2]) == StatEvents(AuthorKey(identity), [l1, l2]);
  }

  lemma ExampleKey()
    ensures AuthorKey("a@x.com") == "a"
  {
  }

  lemma StatLines(author: string, stats: seq<string>)
    requires stats == ["10\t5\tfoo/bar.txt", "3\t2\tbaz.txt"]
    ensures StatEvents(author, stats) == [Event(author, 15, "foo/bar.txt"), Event(author, 5, "baz.txt")]
  {
    FirstLine(author);
    SecondLine(author);
    TwoStatLines(author, stats[0], stats[1], Event(author, 15, "foo/bar.txt"), Event(author, 5, "baz.txt"));
    assert stats == [stats[0], stats[1]];
  }

  lemma TwoStatLines(author: string, l1: string, l2: string, e1: Event, e2: Event)
    requires StatEvent(author, l1) == Some(e1) && StatEvent(author, l2) == Some(e2)
    ensures StatEvents(author, [l1, l2]) == [e1, e2]
  {
    assert [l1, l2][1..] == [l2];
    assert [l2][1..] == [];
    assert StatEvents(author, [l2]) == [e2] + StatEvents(author, []);
    assert StatEvents(author, [l1, l2]) == [e1] + StatEvents(author, [l2]);
  }

  lemma FirstLine(author: string)
    ensures StatEvent(author, "10\t5\tfoo/bar.txt") == Some(Event(author, 15, "foo/bar.txt"))
  {
    SmallDecimals();
    assert "10\t5\tfoo/bar.txt" == Decimal(10) + "\t" + Decimal(5) + "\t" + "foo/bar.txt";
    WholePathLine(author, 10, 5, "foo/bar.txt");
  }

  lemma SecondLine(author: string)
    ensures StatEvent(author, "3\t2\tbaz.txt") == Some(Event(author, 5, "baz.txt"))
  {
    SmallDecimals();
    assert "3\t2\tbaz.txt" == Decimal(3) + "\t" + Decimal(2) + "\t" + "baz.txt";
    WholePathLine(author, 3, 2, "baz.txt");
  }

  lemma SmallDecimals()
    ensures Decimal(10) == "10" && Decimal(5) == "5" && Decimal(3) == "3" && Decimal(2) == "2"
  {
    assert Decimal(1) == "1" && Decimal(0) == "0";
  }

  /** A numstat line whose path has no whitespace in it. */
  lemma WholePathLine(author: string, added: nat, removed: nat, path: string)
    requires added <= MaxInt && removed <= MaxInt && path != [] && NoWhitespace(path)
    ensures StatEvent(author, Decimal(added) + "\t" + Decimal(removed) + "\t" + path)
         == Some(Event(author, added + removed, path))
  {
    StatLineEvent(author, added, removed, path);
    assert path[..SpaceFrom(path, 0)] == path;
  }

  lemma OneAuthorTallies()
    ensures Tally([Event("a", 15, "foo/bar.txt"), Event("a", 5, "baz.txt")], ByAuthorInFolders(["foo"])) == [Entry("a", 15)]
    ensures Tally([Event("a", 15, "foo/bar.txt"), Event("a", 5, "baz.txt")], ByAuthor) == [Entry("a", 20)]
  {
    var e1, e2 := Event("a", 15, "foo/bar.txt"), Event("a", 5, "baz.txt");
    var g := ByAuthorInFolders(["foo"]);
    assert StartsWith("foo/bar.txt", "foo") && !StartsWith("baz.txt", "foo") by {
      assert "baz.txt"[..3][0] == 'b';
    }
    assert KeyOf(g, e1) == Some("a") && KeyOf(g, e2) == None;
    TwoEvents(e1, e2, g);
    TwoEvents(e1, e2, ByAuthor);
    assert HasKey([Entry("a", 15)], "a");
  }

  /** The tally of two events, one after the other. */
  lemma TwoEvents(e1: Event, e2: Event, g: Grouping)
    ensures Tally([e1, e2], g) == Count(Count([], KeyOf(g, e1), e1.changed), KeyOf(g, e2), e2.changed)
  {
    assert [e1, e2][..1] == [e1] && [e1][..0] == [];
  }

  lemma OneAuthorContribution()
    ensures Contributions([Entry("a", 20)], [Entry("a", 15)], SumValues([Entry("a", 15)])) == Ok([Contribution("a", 7500, 10000)])
  {
    RoundingExamples();
    assert SumValues([Entry("a", 15)]) == 15;
    assert GetOrDefault([Entry("a", 15)], "a", 0) == 15;
    assert [Entry("a", 20)][1..] == [];
    assert ContributionOf(Entry("a", 20), [Entry("a", 15)], 15) == Contribution("a", 7500, 10000);
    var all := [Entry("a", 20)];
    assert Contributions(all[1..], [Entry("a", 15)], 15) == Ok([]);
    assert [Contribution("a", 7500, 10000)] + [] == [Contribution("a", 7500, 10000)];
    assert Contributions([Entry("a", 20)], [Entry("a", 15)], 15) == Ok([Contribution("a", 7500, 10000)]);
  }

  lemma OneAuthorLines(c: Contribution)
    requires c == Contribution("a", 7500, 10000)
    ensures FolderLines([c]) == [InFolderLine("a", 7500), Separator, OfFolderLine("a", 10000)]
    ensures [] + FolderLines([c]) == FolderLines([c])
  {
    assert [c][1..] == [];
    assert SortDescending([c], InFolderShare) == [c];
    assert SortDescending([c], OfFolderShare) == [c];
    assert InFolderShare(c) >= DisplayFloor && OfFolderShare(c) >= DisplayFloor;
    assert AtLeast([c], InFolderShare, DisplayFloor) == [c] + AtLeast([], InFolderShare, DisplayFloor);
    assert AtLeast([c], OfFolderShare, DisplayFloor) == [c] + AtLeast([], OfFolderShare, DisplayFloor);
    assert Shown([c], InFolderShare, DisplayFloor) == [c];
    assert Shown([c], OfFolderShare, DisplayFloor) == [c];
  }
}
