/** `contributionsByAuthor`: how one author's changes spread over the
    directories one level below the folders. */
module AuthorMode {
  import opened Wrappers
  import opened KotlinText
  import opened NumstatParser
  import opened LinkedTable
  import opened Scopes
  import opened HalfUp
  import opened Ranking
  import opened Aggregation
  import opened Report

  /** `folder to percentageInFolder`. */
  datatype Share = Share(folder: string, percentage: int)

  function SharePercentage(s: Share): int { s.percentage }

  /** Without `--folders` the whole tree is one folder. */
  function FoldersOrRoot(folder: Option<seq<string>>): (folders: seq<string>)
    ensures folder.Some? ==> folders == folder.value
    ensures folder.None? ==> folders == [""]
  {
    match folder
    case Some(fs) => fs
    case None => [""]
  }

  /** The `mapNotNull` over `folderCommits`: each bucket's share of all the
      bucket totals, kept when it reaches 1.00%, in map order. Every entry is
      divided, so a non-empty map with a zero total throws. */
  function BucketShares(folderCommits: Table, totalChanges: int): (r: Result<seq<Share>, Failure>)
    ensures r.Err? <==> folderCommits != [] && totalChanges == 0
    ensures r.Err? ==> r.error == DivisionByZero
    ensures r.Ok? ==> |r.value| <= |folderCommits|
    ensures r.Ok? ==> forall s :: s in r.value <==>
      exists i :: 0 <= i < |folderCommits| && totalChanges != 0 && s.folder == folderCommits[i].key
                  && s.percentage == Percentage(folderCommits[i].count, totalChanges) && s.percentage >= DisplayFloor
    ensures r.Ok? ==> forall i, j :: 0 <= i < j < |r.value| ==> KeysBefore(folderCommits, r.value[i].folder, r.value[j].folder)
  {
    if folderCommits == [] then Ok([])
    else if totalChanges == 0 then Err(DivisionByZero)
    else
      var percentageInFolder := Percentage(folderCommits[0].count, totalChanges);
      match BucketShares(folderCommits[1..], totalChanges)
      case Err(f) => Err(f)
      case Ok(rest) =>
        var tail := folderCommits[1..];
        assert forall i :: 0 <= i < |tail| ==> tail[i] == folderCommits[i + 1];
        var head := if percentageInFolder >= DisplayFloor then [Share(folderCommits[0].key, percentageInFolder)] else [];
        SharesPrefixed(folderCommits, head, rest);
        Ok(head + rest)
  }

  /** A share of the first entry put before shares of later entries that are
      in order keeps the whole in order. */
  lemma SharesPrefixed(t: Table, head: seq<Share>, rest: seq<Share>)
    requires t != [] && |head| <= 1 && (head != [] ==> head[0].folder == t[0].key)
    requires forall k :: 0 <= k < |rest| ==> exists q :: 1 <= q < |t| && t[q].key == rest[k].folder
    requires forall i, j :: 0 <= i < j < |rest| ==> KeysBefore(t[1..], rest[i].folder, rest[j].folder)
    ensures forall i, j :: 0 <= i < j < |head + rest| ==> KeysBefore(t, (head + rest)[i].folder, (head + rest)[j].folder)
  {
    var r := head + rest;
    forall i, j | 0 <= i < j < |r| ensures KeysBefore(t, r[i].folder, r[j].folder) {
      assert r[j] == rest[j - |head|];
      if i < |head| {
        var q :| 1 <= q < |t| && t[q].key == r[j].folder;
        assert t[0].key == r[i].folder;
      } else {
        assert r[i] == rest[i - |head|];
        var p, q :| 0 <= p < q < |t[1..]| && t[1..][p].key == r[i].folder && t[1..][q].key == r[j].folder;
        assert t[p + 1].key == r[i].folder && t[q + 1].key == r[j].folder;
      }
    }
  }

  /** An entry with key `a` comes before one with key `b` in `t`. */
  predicate KeysBefore(t: Table, a: string, b: string) {
    exists p, q :: 0 <= p < q < |t| && t[p].key == a && t[q].key == b
  }

  function BucketLines(author: string, shares: seq<Share>): (r: seq<Line>)
    ensures |r| == |shares|
    ensures forall i :: 0 <= i < |shares| ==> r[i] == BucketLine(author, shares[i].folder, shares[i].percentage)
  {
    if shares == [] then [] else [BucketLine(author, shares[0].folder, shares[0].percentage)] + BucketLines(author, shares[1..])
  }

  /** What is left once the events are in: the bucket totals, their shares
      and the ranking. It keeps what was printed before and adds only bucket
      rows for `author`; it throws, adding nothing, exactly when some event
      lies under the folders and the changes there add up to zero. */
  function AuthorOutcome(printed: seq<Line>, author: string, events: seq<Event>, folders: seq<string>): (o: Outcome)
    ensures |printed| <= |o.printed| && o.printed[..|printed|] == printed
    ensures forall i :: |printed| <= i < |o.printed| ==> o.printed[i].BucketLine? && o.printed[i].author == author
    ensures o.failure.Some? <==>
      (exists i :: 0 <= i < |events| && KeyOf(ByNextLevel(folders), events[i]).Some?)
      && SumCounted(events, ByNextLevel(folders)) == 0
    ensures o.failure.Some? ==> o.failure == Some(DivisionByZero) && o.printed == printed
  {
    var g := ByNextLevel(folders);
    var folderCommits := Tally(events, g);
    TallySum(events, g);
    TallyEmpty(events, g);
    var shares := BucketShares(folderCommits, SumValues(folderCommits));
    if shares.Err? then Outcome(printed, Some(shares.error))
    else
      var rows := BucketLines(author, SortDescending(shares.value, SharePercentage));
      RowsAppended(printed, author, rows);
      Outcome(printed + rows, None)
  }

  lemma RowsAppended(printed: seq<Line>, author: string, rows: seq<Line>)
    requires forall i :: 0 <= i < |rows| ==> rows[i].BucketLine? && rows[i].author == author
    ensures (printed + rows)[..|printed|] == printed
    ensures forall i :: |printed| <= i < |printed + rows| ==> (printed + rows)[i].BucketLine? && (printed + rows)[i].author == author
  {
    assert forall i :: |printed| <= i < |printed + rows| ==> (printed + rows)[i] == rows[i - |printed|];
  }

  /** The whole of author mode over the lines git writes for that author. The
      heading comes first, before git runs, so it is there whatever
      happens; every later line is the notice or a bucket row. */
  function AuthorReport(author: string, folder: Option<seq<string>>, log: seq<string>): (o: Outcome)
    ensures o.printed != [] && o.printed[0] == Searching(author)
    ensures forall i :: 1 <= i < |o.printed| ==> o.printed[i] == NoCommitsNotice || o.printed[i].BucketLine?
    ensures o.failure == Some(NoSuchElement) <==> ParseLog(log) == EndedAfterAuthor
    ensures o.failure == Some(NoSuchElement) ==> o.printed == [Searching(author)]
  {
    var folders := FoldersOrRoot(folder);
    match ParseLog(log)
    case EndedAfterAuthor => Outcome([Searching(author)], Some(NoSuchElement))
    case NoCommits => AuthorOutcome([Searching(author), NoCommitsNotice], author, [], folders)
    case Events(events) => AuthorOutcome([Searching(author)], author, events, folders)
  }

  /** `contributionsByAuthor`, on the lines of git's output. */
  method ContributionsByAuthor(author: string, folder: Option<seq<string>>, log: seq<string>) returns (o: Outcome)
    ensures o == AuthorReport(author, folder, log)
  {
    var folders := FoldersOrRoot(folder);
    var printed := [Searching(author)];
    var parsed := ForCommits(log);
    var events: seq<Event>;
    match parsed {
      case EndedAfterAuthor => return Outcome(printed, Some(NoSuchElement));
      case NoCommits => printed, events := printed + [NoCommitsNotice], [];
      case Events(es) => events := es;
    }
    var folderCommits := AggregateByAuthor(events, folders);
    var totalChanges := SumValues(folderCommits);
    var shares := BucketShares(folderCommits, totalChanges);
    if shares.Err? {
      return Outcome(printed, Some(shares.error));
    }
    o := Outcome(printed + BucketLines(author, SortDescending(shares.value, SharePercentage)), None);
  }

  /** The rows, stated over the events: non-increasing; a bucket is shown
      exactly when some event falls in it and its changes are at least 1.00%
      of all the changes under the folders, rounded half-up; rows with equal
      shares keep the order in which their buckets first appeared. */
  lemma BucketRows(events: seq<Event>, folders: seq<string>, shares: seq<Share>, v: int)
    requires var t := Tally(events, ByNextLevel(folders)); BucketShares(t, SumValues(t)) == Ok(shares)
    ensures NonIncreasing(SortDescending(shares, SharePercentage), SharePercentage)
    ensures multiset(SortDescending(shares, SharePercentage)) == multiset(shares)
    ensures WithKey(SortDescending(shares, SharePercentage), SharePercentage, v) == WithKey(shares, SharePercentage, v)
    ensures forall s :: s in SortDescending(shares, SharePercentage) <==>
      var g := ByNextLevel(folders);
      Counted(events, g, s.folder) && SumCounted(events, g) != 0
      && s.percentage == Percentage(SumUnder(events, g, s.folder), SumCounted(events, g))
      && s.percentage >= DisplayFloor
    ensures var sorted := SortDescending(shares, SharePercentage);
      forall i, j :: 0 <= i < j < |sorted| && sorted[i].percentage == sorted[j].percentage ==>
        FirstBefore(events, ByNextLevel(folders), sorted[i].folder, sorted[j].folder)
  {
    var g := ByNextLevel(folders);
    var t := Tally(events, g);
    SortDescendingStable(shares, SharePercentage, v);
    var sorted := SortDescending(shares, SharePercentage);
    BucketTiesInStreamOrder(events, folders, shares);
    TallySum(events, g);
    forall s ensures s in sorted <==> s in shares {
      assert s in sorted <==> multiset(sorted)[s] > 0;
    }
    forall s ensures s in shares <==>
      Counted(events, g, s.folder) && SumCounted(events, g) != 0
      && s.percentage == Percentage(SumUnder(events, g, s.folder), SumCounted(events, g))
      && s.percentage >= DisplayFloor
    {
      TallyMeaning(events, g, s.folder);
      if s in shares {
        var i :| 0 <= i < |t| && s.folder == t[i].key && s.percentage == Percentage(t[i].count, SumValues(t));
        GetEntry(t, i);
      }
      if Counted(events, g, s.folder) && SumCounted(events, g) != 0
         && s.percentage == Percentage(SumUnder(events, g, s.folder), SumCounted(events, g))
         && s.percentage >= DisplayFloor {
        var i :| 0 <= i < |t| && t[i] == Entry(s.folder, SumUnder(events, g, s.folder));
      }
    }
  }

  /** Buckets with equal shares are listed in the order in which their
      first changes came in the stream. */
  lemma BucketTiesInStreamOrder(events: seq<Event>, folders: seq<string>, shares: seq<Share>)
    requires var t := Tally(events, ByNextLevel(folders)); BucketShares(t, SumValues(t)) == Ok(shares)
    ensures var sorted := SortDescending(shares, SharePercentage);
      forall i, j :: 0 <= i < j < |sorted| && sorted[i].percentage == sorted[j].percentage ==>
        FirstBefore(events, ByNextLevel(folders), sorted[i].folder, sorted[j].folder)
  {
    var sorted := SortDescending(shares, SharePercentage);
    SortDescendingTies(shares, SharePercentage);
    forall i, j | 0 <= i < j < |sorted| && sorted[i].percentage == sorted[j].percentage
      ensures FirstBefore(events, ByNextLevel(folders), sorted[i].folder, sorted[j].folder)
    {
      assert SharePercentage(sorted[i]) == SharePercentage(sorted[j]);
      assert Before(shares, sorted[i], sorted[j]);
      SharesBefore(events, folders, shares, sorted[i], sorted[j]);
    }
  }

  lemma SharesBefore(events: seq<Event>, folders: seq<string>, shares: seq<Share>, x: Share, y: Share)
    requires var t := Tally(events, ByNextLevel(folders)); BucketShares(t, SumValues(t)) == Ok(shares)
    requires Before(shares, x, y)
    ensures FirstBefore(events, ByNextLevel(folders), x.folder, y.folder)
  {
    var p, q :| 0 <= p < q < |shares| && shares[p] == x && shares[q] == y;
    SharesInStreamOrder(events, folders, shares, p, q);
  }

  /** The shares come in the order of their buckets' first changes. */
  lemma SharesInStreamOrder(events: seq<Event>, folders: seq<string>, shares: seq<Share>, p: nat, q: nat)
    requires var t := Tally(events, ByNextLevel(folders)); BucketShares(t, SumValues(t)) == Ok(shares)
    requires p < q < |shares|
    ensures FirstBefore(events, ByNextLevel(folders), shares[p].folder, shares[q].folder)
  {
    var g := ByNextLevel(folders);
    var t := Tally(events, g);
    assert KeysBefore(t, shares[p].folder, shares[q].folder);
    var p', q' :| 0 <= p' < q' < |t| && t[p'].key == shares[p].folder && t[q'].key == shares[q].folder;
    TallyOrder(events, g, p', q');
  }

  function ShareFolder(s: Share): string { s.folder }

  /** The bucket ranking as printed, stated over the events: bucket rows for
      `author` only, in non-increasing order, no bucket twice, tied buckets
      in the order of their first changes; and a row `BucketLine(author, f, p)`
      is there exactly when some event falls in bucket `f` and `p`, the
      bucket's changes over all the changes under the folders rounded
      half-up, is at least 1.00%. */
  ghost predicate BucketRanking(rows: seq<Line>, author: string, events: seq<Event>, folders: seq<string>) {
    var g := ByNextLevel(folders);
    (forall i :: 0 <= i < |rows| ==> rows[i].BucketLine? && rows[i].author == author)
    && (forall i, j :: 0 <= i < j < |rows| ==>
          rows[i].percentage >= rows[j].percentage && rows[i].folder != rows[j].folder
          && (rows[i].percentage == rows[j].percentage ==> FirstBefore(events, g, rows[i].folder, rows[j].folder)))
    && forall f, p :: BucketLine(author, f, p) in rows <==>
         Counted(events, g, f) && SumCounted(events, g) != 0
         && p == Percentage(SumUnder(events, g, f), SumCounted(events, g)) && p >= DisplayFloor
  }

  /** No bucket has two shares: each comes from an entry of `folderCommits`,
      whose keys are distinct. */
  lemma ShareFoldersDistinct(events: seq<Event>, folders: seq<string>, shares: seq<Share>)
    requires var t := Tally(events, ByNextLevel(folders)); BucketShares(t, SumValues(t)) == Ok(shares)
    ensures forall i, j :: 0 <= i < j < |shares| ==> ShareFolder(shares[i]) != ShareFolder(shares[j])
  {
    var t := Tally(events, ByNextLevel(folders));
    forall i, j | 0 <= i < j < |shares| ensures ShareFolder(shares[i]) != ShareFolder(shares[j]) {
      assert KeysBefore(t, shares[i].folder, shares[j].folder);
    }
  }

  /** The printed bucket rows mean what `BucketRanking` says. */
  lemma BucketRowsMeaning(author: string, events: seq<Event>, folders: seq<string>, shares: seq<Share>)
    requires var t := Tally(events, ByNextLevel(folders)); BucketShares(t, SumValues(t)) == Ok(shares)
    ensures BucketRanking(BucketLines(author, SortDescending(shares, SharePercentage)), author, events, folders)
  {
    var sorted := SortDescending(shares, SharePercentage);
    BucketRows(events, folders, shares, 0);
    ShareFoldersDistinct(events, folders, shares);
    SortDescendingTies(shares, SharePercentage);
    assert forall x :: x in sorted ==> x in shares by {
      forall x | x in sorted ensures x in shares {
        assert multiset(sorted)[x] > 0;
      }
    }
    RankedDistinct(sorted, shares, SharePercentage, ShareFolder);
    BucketRowsRanked(author, sorted, events, folders);
    var g := ByNextLevel(folders);
    forall f, p ensures BucketLine(author, f, p) in BucketLines(author, sorted) <==>
      Counted(events, g, f) && SumCounted(events, g) != 0
      && p == Percentage(SumUnder(events, g, f), SumCounted(events, g)) && p >= DisplayFloor
    {
      BucketMember(author, sorted, f, p);
    }
  }

  lemma BucketRowsRanked(author: string, sorted: seq<Share>, events: seq<Event>, folders: seq<string>)
    requires NonIncreasing(sorted, SharePercentage)
    requires forall i, j :: 0 <= i < j < |sorted| ==> ShareFolder(sorted[i]) != ShareFolder(sorted[j])
    requires forall i, j :: 0 <= i < j < |sorted| && sorted[i].percentage == sorted[j].percentage ==>
      FirstBefore(events, ByNextLevel(folders), sorted[i].folder, sorted[j].folder)
    ensures var rows := BucketLines(author, sorted);
      (forall i :: 0 <= i < |rows| ==> rows[i].BucketLine? && rows[i].author == author)
      && (forall i, j :: 0 <= i < j < |rows| ==>
            rows[i].percentage >= rows[j].percentage && rows[i].folder != rows[j].folder
            && (rows[i].percentage == rows[j].percentage ==> FirstBefore(events, ByNextLevel(folders), rows[i].folder, rows[j].folder)))
  {
    var rows := BucketLines(author, sorted);
    forall i, j | 0 <= i < j < |rows|
      ensures rows[i].percentage >= rows[j].percentage && rows[i].folder != rows[j].folder
    {
      assert SharePercentage(sorted[i]) >= SharePercentage(sorted[j]);
      assert ShareFolder(sorted[i]) != ShareFolder(sorted[j]);
    }
  }

  /** A bucket row is there exactly when its share is. */
  lemma BucketMember(author: string, sorted: seq<Share>, f: string, p: int)
    ensures BucketLine(author, f, p) in BucketLines(author, sorted) <==> Share(f, p) in sorted
  {
    var rows := BucketLines(author, sorted);
    if BucketLine(author, f, p) in rows {
      var i :| 0 <= i < |rows| && rows[i] == BucketLine(author, f, p);
      assert sorted[i] == Share(f, p);
    }
    if Share(f, p) in sorted {
      var i :| 0 <= i < |sorted| && sorted[i] == Share(f, p);
      assert rows[i] == BucketLine(author, f, p);
    }
  }

  /** Author mode once the events are in, stated over the events: when it
      does not throw, it keeps what was printed before and adds the bucket
      ranking. When it throws is stated by `AuthorOutcome` itself. */
  lemma AuthorOutcomeMeaning(printed: seq<Line>, author: string, events: seq<Event>, folders: seq<string>)
    ensures var o := AuthorOutcome(printed, author, events, folders);
      o.failure.None? ==>
        |printed| <= |o.printed| && o.printed[..|printed|] == printed
        && BucketRanking(o.printed[|printed|..], author, events, folders)
  {
    var t := Tally(events, ByNextLevel(folders));
    match BucketShares(t, SumValues(t))
    case Err(_) =>
    case Ok(shares) =>
      var rows := BucketLines(author, SortDescending(shares, SharePercentage));
      BucketRowsMeaning(author, events, folders, shares);
      assert AuthorOutcome(printed, author, events, folders) == Outcome(printed + rows, None);
      assert (printed + rows)[|printed|..] == rows;
  }

  /** The whole of author mode over a stream that parses to `events`: after
      the heading, it throws `DivisionByZero`, printing nothing more, exactly
      when some event lies under the folders and the changes there add up to
      zero; otherwise it prints the bucket ranking. */
  lemma AuthorReportMeaning(author: string, folder: Option<seq<string>>, log: seq<string>, events: seq<Event>)
    requires ParseLog(log) == Events(events)
    ensures var o, g := AuthorReport(author, folder, log), ByNextLevel(FoldersOrRoot(folder));
      o.failure.Some? <==>
        (exists i :: 0 <= i < |events| && KeyOf(g, events[i]).Some?) && SumCounted(events, g) == 0
    ensures var o := AuthorReport(author, folder, log);
      o.failure.Some? ==> o.failure == Some(DivisionByZero) && o.printed == [Searching(author)]
    ensures var o := AuthorReport(author, folder, log);
      o.failure.None? ==> BucketRanking(o.printed[1..], author, events, FoldersOrRoot(folder))
  {
    AuthorOutcomeMeaning([Searching(author)], author, events, FoldersOrRoot(folder));
  }

  /** With non-negative line counts every share lies between 0.00% and
      100.00%. */
  lemma BucketSharesBounded(events: seq<Event>, folders: seq<string>, shares: seq<Share>)
    requires NoNegativeCounts(events)
    requires var t := Tally(events, ByNextLevel(folders)); BucketShares(t, SumValues(t)) == Ok(shares)
    ensures forall i :: 0 <= i < |shares| ==> 0 <= shares[i].percentage <= 10000
  {
    var t := Tally(events, ByNextLevel(folders));
    if t != [] {
      TallyNonNegative(events, ByNextLevel(folders));
      SumNonNegative(t);
      forall i | 0 <= i < |t| ensures t[i].count <= SumValues(t) {
        TallyMeaning(events, ByNextLevel(folders), t[i].key);
        GetEntry(t, i);
        ValueWithinSum(t, t[i].key);
      }
      SharesWithin(t, SumValues(t), shares);
    }
  }

  lemma {:induction false} SharesWithin(t: Table, total: int, shares: seq<Share>)
    requires total > 0 && forall i :: 0 <= i < |t| ==> 0 <= t[i].count <= total
    requires BucketShares(t, total) == Ok(shares)
    ensures forall i :: 0 <= i < |shares| ==> 0 <= shares[i].percentage <= 10000
  {
    if t != [] {
      var rest := BucketShares(t[1..], total).value;
      assert forall i :: 0 <= i < |t[1..]| ==> t[1..][i] == t[i + 1];
      SharesWithin(t[1..], total, rest);
      PercentageBounds(t[0].count, total);
    }
  }

  /** Under the default root folder every event is counted, in the bucket of
      its path's first directory. */
  lemma RootBuckets(e: Event)
    ensures KeyOf(ByNextLevel([""]), e) == Some(SubstringBefore(Trim(e.file, Trimmed), '/'))
  {
    assert StartsWith(e.file, [""][0]);
    assert e.file[0..] == e.file;
  }

  /** A rename that git writes as `src/{old => new}/File.kt`: the whitespace
      split leaves `src/{old` as the path, so the change lands in the bucket
      `old`. */
  lemma RenameBucket(author: string, line: string)
    requires line == "1\t2\tsrc/{old => new}/File.kt"
    ensures StatEvent(author, line) == Some(Event(author, 3, "src/{old"))
    ensures KeyOf(ByNextLevel(["src"]), Event(author, 3, "src/{old")) == Some("old")
  {
    RenameEvent(author, line);
    RenameDirectory(author);
  }

  lemma RenameEvent(author: string, line: string)
    requires line == "1\t2\tsrc/{old => new}/File.kt"
    ensures StatEvent(author, line) == Some(Event(author, 3, "src/{old"))
  {
    var path := "src/{old => new}/File.kt";
    RenameText(line, path);
    CutPath(author, line, 1, 2, path, 8);
  }

  /** A numstat line whose path has its first whitespace at `n`. */
  lemma CutPath(author: string, line: string, added: nat, removed: nat, path: string, n: nat)
    requires added <= MaxInt && removed <= MaxInt
    requires line == Decimal(added) + "\t" + Decimal(removed) + "\t" + path
    requires n < |path| && NoWhitespace(path[..n]) && IsWhitespace(path[n]) && !IsWhitespace(path[0])
    ensures StatEvent(author, line) == Some(Event(author, added + removed, path[..n]))
  {
    StatLineEvent(author, added, removed, path);
    FirstSpace(path, n);
  }

  lemma RenameText(line: string, path: string)
    requires line == "1\t2\tsrc/{old => new}/File.kt" && path == "src/{old => new}/File.kt"
    ensures line == Decimal(1) + "\t" + Decimal(2) + "\t" + path
    ensures NoWhitespace(path[..8]) && IsWhitespace(path[8]) && !IsWhitespace(path[0])
    ensures path[..8] == "src/{old"
  {
    OneAndTwo();
    var head := "1\t2\t";
    assert line[..4] == head && line[4..] == path;
    assert line == head + path;
    assert head == "1" + "\t" + "2" + "\t";
    RenamePath(path);
  }

  lemma OneAndTwo()
    ensures Decimal(1) == "1" && Decimal(2) == "2"
  {
  }

  lemma RenamePath(path: string)
    requires path == "src/{old => new}/File.kt"
    ensures NoWhitespace(path[..8]) && IsWhitespace(path[8]) && !IsWhitespace(path[0])
    ensures path[..8] == "src/{old"
  {
    assert path[..8] == "src/{old";
  }

  lemma RenameDirectory(author: string)
    ensures KeyOf(ByNextLevel(["src"]), Event(author, 3, "src/{old")) == Some("old")
  {
    var file := "src/{old";
    assert file[..3] == "src";
    assert StartsWith(file, "src");
    assert FirstMatch(["src"], file) == Some("src");
    assert file[3..] == "/{old";
    TrimRename();
    assert SubstringBefore("old", '/') == "old";
  }

  lemma TrimRename()
    ensures Trim("/{old", Trimmed) == "old"
  {
    var s := "/{old";
    assert s[0] in Trimmed && s[1] in Trimmed && s[2] !in Trimmed;
    assert SkipIn(s, Trimmed, 0) == 2;
    assert s[4] !in Trimmed;
    assert BackIn(s, Trimmed, 2, 5) == 5;
    assert s[2..5] == "old";
  }
}
