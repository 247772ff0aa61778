/** The record parser of main.kt (`forCommits`): it reads the output of
    `git log --numstat --pretty=%n%ae`, one line at a time, and yields one
    event per well-formed numstat line. */
module NumstatParser {
  import opened Wrappers
  import opened KotlinText

  /** One file touched by one commit: the author key, the lines added plus the
      lines removed, and the path as the first whitespace-free token. */
  datatype Event = Event(author: string, changed: int, file: string)

  /** `email.substringBefore("@")`: the text of the identity line before its
      first `@`, or the whole line when it has none. */
  function AuthorKey(identity: string): (key: string)
    ensures '@' !in key && StartsWith(identity, key)
    ensures |key| < |identity| ==> identity[|key|] == '@'
  {
    SubstringBefore(identity, '@')
  }

  /** The event one non-empty numstat line yields: the line is cut at runs of
      whitespace, it needs a third field, and both of its first two fields must
      parse as an `Int`; otherwise the line is skipped. Only the first three
      fields are read. */
  function StatEvent(author: string, line: string): (r: Option<Event>)
    ensures r.Some? <==> |Split(line)| >= 3 && ToIntOrNull(Split(line)[0]).Some? && ToIntOrNull(Split(line)[1]).Some?
    ensures r.Some? ==> r.value.author == author && r.value.file == Split(line)[2] && NoWhitespace(r.value.file)
    ensures r.Some? ==> r.value.changed == NumeralValue(Split(line)[0]) + NumeralValue(Split(line)[1])
    ensures r.Some? ==> 2 * MinInt <= r.value.changed <= 2 * MaxInt
  {
    var fields := Split(line);
    if |fields| < 3 then None
    else
      var added := ToIntOrNull(fields[0]);
      var removed := ToIntOrNull(fields[1]);
      if added.None? || removed.None? then None
      else Some(Event(author, added.value + removed.value, fields[2]))
  }

  /** A line with fewer than three fields, or whose first or second field is
      not an optional sign followed by digits, yields no event. */
  lemma MalformedStatLine(author: string, line: string)
    requires |Split(line)| < 3 || !IsNumeral(Split(line)[0]) || !IsNumeral(Split(line)[1])
    ensures StatEvent(author, line) == None
  {
  }

  function Emit(e: Option<Event>): seq<Event> {
    if e.Some? then [e.value] else []
  }

  /** Where the parser stands: before an identity line, before the separator
      line that follows it, or inside the numstat lines of a commit. */
  datatype ParserState = ExpectAuthor | ExpectSeparator(author: string) | ReadingStats(author: string)

  /** Events already produced, followed by those of the rest of the stream
      (None when the rest of the stream ends in the middle of a record). */
  function Continue(done: seq<Event>, rest: Option<seq<Event>>): Option<seq<Event>> {
    match rest
    case None => None
    case Some(es) => Some(done + es)
  }

  /** The state after reading one line: an identity line opens a record,
      the separator line is passed over, and an empty line ends the numstat
      lines of a record. */
  function Next(st: ParserState, line: string): ParserState {
    match st
    case ExpectAuthor => ExpectSeparator(AuthorKey(line))
    case ExpectSeparator(a) => ReadingStats(a)
    case ReadingStats(a) => if line == "" then ExpectAuthor else st
  }

  /** The state once every line of `ls` has been read. */
  function FinalState(ls: seq<string>, st: ParserState): ParserState
    decreases |ls|
  {
    if ls == [] then st else FinalState(ls[1..], Next(st, ls[0]))
  }

  /** The events of the remaining lines `ls`, read from state `st`. The
      stream may end anywhere except right after an identity line, where the
      iterator's next() for the separator has nothing to return; each line
      yields at most one event. */
  function Run(ls: seq<string>, st: ParserState): (r: Option<seq<Event>>)
    ensures r.None? <==> FinalState(ls, st).ExpectSeparator?
    ensures r.Some? ==> |r.value| <= |ls|
    decreases |ls|
  {
    if ls == [] then
      if st.ExpectSeparator? then None else Some([])
    else
      match st
      case ExpectAuthor => Run(ls[1..], ExpectSeparator(AuthorKey(ls[0])))
      case ExpectSeparator(a) => Run(ls[1..], ReadingStats(a))
      case ReadingStats(a) =>
        if ls[0] == "" then Run(ls[1..], ExpectAuthor)
        else Continue(Emit(StatEvent(a, ls[0])), Run(ls[1..], st))
  }

  /** What reading a whole stream gives: the "no commits" diagnostic for an
      empty stream, the failure of the iterator for a stream that ends right
      after an identity line, and otherwise the events in stream order. */
  datatype LogParse = NoCommits | EndedAfterAuthor | Events(events: seq<Event>)

  /** The first line of a non-empty stream is skipped, whatever it holds. */
  function ParseLog(lines: seq<string>): (r: LogParse)
    ensures r == NoCommits <==> lines == []
  {
    if lines == [] then NoCommits
    else
      match Run(lines[1..], ExpectAuthor)
      case None => EndedAfterAuthor
      case Some(es) => Events(es)
  }

  /** Whatever the first line holds, it has no effect. */
  lemma FirstLineSkipped(first: string, other: string, rest: seq<string>)
    ensures ParseLog([first] + rest) == ParseLog([other] + rest)
  {
    assert ([first] + rest)[1..] == rest;
    assert ([other] + rest)[1..] == rest;
  }

  /** `forCommits`, step for step: a manual iterator over the lines, the outer
      loop reading an identity line and skipping the separator, the inner loop
      reading numstat lines up to an empty line. Where `forCommits` calls its
      callback, this collects the event. */
  method ForCommits(lines: seq<string>) returns (r: LogParse)
    ensures r == ParseLog(lines)
  {
    if |lines| == 0 {
      return NoCommits;
    }
    var i := 1;
    var events: seq<Event> := [];
    ContinueNothing(Run(lines[1..], ExpectAuthor));
    while i < |lines|
      invariant 1 <= i <= |lines|
      invariant Continue(events, Run(lines[i..], ExpectAuthor)) == Run(lines[1..], ExpectAuthor)
    {
      var email := lines[i];
      StepAuthor(lines, i);
      i := i + 1;
      if i == |lines| {
        assert Run(lines[i..], ExpectSeparator(AuthorKey(email))) == None by {
          assert lines[i..] == [];
        }
        return EndedAfterAuthor;
      }
      var author := AuthorKey(email);
      StepSeparator(lines, i, author);
      i := i + 1;
      while i < |lines|
        invariant 3 <= i <= |lines|
        invariant Continue(events, Run(lines[i..], ReadingStats(author))) == Run(lines[1..], ExpectAuthor)
      {
        var linesChanged := lines[i];
        StepStat(lines, i, author);
        i := i + 1;
        if linesChanged == "" {
          break;
        }
        var e := StatEvent(author, linesChanged);
        ContinueAppend(events, Emit(e), Run(lines[i..], ReadingStats(author)));
        events := events + Emit(e);
      }
    }
    assert Run(lines[i..], ExpectAuthor) == Some([]) by {
      assert lines[i..] == [];
    }
    assert events + [] == events;
    return Events(events);
  }

  /** One step of `Run` from each state, on the lines from index `i`. */
  lemma StepAuthor(lines: seq<string>, i: nat)
    requires i < |lines|
    ensures Run(lines[i..], ExpectAuthor) == Run(lines[i + 1..], ExpectSeparator(AuthorKey(lines[i])))
  {
    assert lines[i..][0] == lines[i] && lines[i..][1..] == lines[i + 1..];
  }

  lemma StepSeparator(lines: seq<string>, i: nat, author: string)
    requires i <= |lines|
    ensures Run(lines[i..], ExpectSeparator(author))
         == if i == |lines| then None else Run(lines[i + 1..], ReadingStats(author))
  {
    if i < |lines| {
      assert lines[i..][1..] == lines[i + 1..];
    }
  }

  lemma StepStat(lines: seq<string>, i: nat, author: string)
    requires i < |lines|
    ensures Run(lines[i..], ReadingStats(author))
         == if lines[i] == "" then Run(lines[i + 1..], ExpectAuthor)
            else Continue(Emit(StatEvent(author, lines[i])), Run(lines[i + 1..], ReadingStats(author)))
  {
    assert lines[i..][0] == lines[i] && lines[i..][1..] == lines[i + 1..];
  }

  /** One commit as git prints it: the identity line, a separator line, and
      its numstat lines. */
  datatype Commit = Commit(identity: string, stats: seq<string>)

  /** The lines of a run of commits, each closed by the empty line that opens
      the next record. */
  function Render(commits: seq<Commit>): seq<string> {
    if commits == [] then []
    else [commits[0].identity, ""] + commits[0].stats + [""] + Render(commits[1..])
  }

  function StatEvents(author: string, stats: seq<string>): seq<Event> {
    if stats == [] then []
    else Emit(StatEvent(author, stats[0])) + StatEvents(author, stats[1..])
  }

  /** The events a run of commits should give: for each commit in order, one
      event per numstat line that `StatEvent` accepts, under its author key. */
  function Expected(commits: seq<Commit>): seq<Event> {
    if commits == [] then []
    else StatEvents(AuthorKey(commits[0].identity), commits[0].stats) + Expected(commits[1..])
  }

  predicate NoEmptyLines(stats: seq<string>) {
    forall j :: 0 <= j < |stats| ==> stats[j] != ""
  }

  predicate NoEmptyStats(commits: seq<Commit>) {
    forall k :: 0 <= k < |commits| ==> NoEmptyLines(commits[k].stats)
  }

  lemma ContinueNothing(r: Option<seq<Event>>)
    ensures Continue([], r) == r
  {
    if r.Some? {
      assert [] + r.value == r.value;
    }
  }

  lemma ContinueAppend(a: seq<Event>, b: seq<Event>, r: Option<seq<Event>>)
    ensures Continue(a, Continue(b, r)) == Continue(a + b, r)
  {
    if r.Some? {
      assert a + (b + r.value) == (a + b) + r.value;
    }
  }

  /** Numstat lines up to an empty line: each contributes its event (or
      nothing, when malformed) and the empty line hands over to the next
      record. */
  lemma {:induction false} ReadStats(author: string, stats: seq<string>, tail: seq<string>)
    requires NoEmptyLines(stats)
    ensures Run(stats + [""] + tail, ReadingStats(author))
         == Continue(StatEvents(author, stats), Run(tail, ExpectAuthor))
  {
    var ls := stats + [""] + tail;
    if stats == [] {
      assert ls[0] == "" && ls[1..] == tail;
      ContinueNothing(Run(tail, ExpectAuthor));
    } else {
      assert ls[0] == stats[0];
      assert ls[1..] == stats[1..] + [""] + tail;
      ReadStats(author, stats[1..], tail);
      ContinueAppend(Emit(StatEvent(author, stats[0])), StatEvents(author, stats[1..]), Run(tail, ExpectAuthor));
    }
  }

  /** Numstat lines that run to the end of the stream. */
  lemma {:induction false} ReadFinalStats(author: string, stats: seq<string>)
    requires NoEmptyLines(stats)
    ensures Run(stats, ReadingStats(author)) == Some(StatEvents(author, stats))
  {
    if stats != [] {
      ReadFinalStats(author, stats[1..]);
    }
  }

  lemma {:induction false} RunRendered(commits: seq<Commit>, tail: seq<string>)
    requires NoEmptyStats(commits)
    ensures Run(Render(commits) + tail, ExpectAuthor) == Continue(Expected(commits), Run(tail, ExpectAuthor))
  {
    if commits == [] {
      assert Render(commits) + tail == tail;
      ContinueNothing(Run(tail, ExpectAuthor));
    } else {
      var c := commits[0];
      var later := Render(commits[1..]) + tail;
      RenderFirst(commits, tail);
      assert NoEmptyLines(c.stats);
      ReadRecord(c, later);
      assert NoEmptyStats(commits[1..]) by {
        forall k | 0 <= k < |commits[1..]| ensures NoEmptyLines(commits[1..][k].stats) {
          assert commits[1..][k] == commits[k + 1];
        }
      }
      RunRendered(commits[1..], tail);
      ContinueAppend(StatEvents(AuthorKey(c.identity), c.stats), Expected(commits[1..]), Run(tail, ExpectAuthor));
    }
  }

  lemma RenderFirst(commits: seq<Commit>, tail: seq<string>)
    requires commits != []
    ensures Render(commits) + tail == [commits[0].identity, ""] + (commits[0].stats + [""] + (Render(commits[1..]) + tail))
  {
    var c := commits[0];
    assert Render(commits) == [c.identity, ""] + c.stats + [""] + Render(commits[1..]);
  }

  /** One record: its identity line, the separator, its numstat lines and the
      empty line that ends it. */
  lemma ReadRecord(c: Commit, later: seq<string>)
    requires NoEmptyLines(c.stats)
    ensures Run([c.identity, ""] + (c.stats + [""] + later), ExpectAuthor)
         == Continue(StatEvents(AuthorKey(c.identity), c.stats), Run(later, ExpectAuthor))
  {
    var key := AuthorKey(c.identity);
    var body := c.stats + [""] + later;
    var ls := [c.identity, ""] + body;
    assert ls[0] == c.identity && ls[1..][0] == "" && ls[1..][1..] == body;
    assert Run(ls, ExpectAuthor) == Run(ls[1..], ExpectSeparator(key));
    assert Run(ls[1..], ExpectSeparator(key)) == Run(body, ReadingStats(key));
    ReadStats(key, c.stats, later);
  }

  /** git's own layout: a leading empty line, then the records, the last one
      running to the end of the stream. The parse yields exactly the events of
      the well-formed numstat lines, in stream order, malformed ones giving
      nothing and ending no record. */
  lemma ParseGitLog(commits: seq<Commit>, last: Commit)
    requires NoEmptyStats(commits + [last])
    ensures ParseLog([""] + Render(commits) + [last.identity, ""] + last.stats)
         == Events(Expected(commits) + StatEvents(AuthorKey(last.identity), last.stats))
  {
    var lines := [""] + Render(commits) + [last.identity, ""] + last.stats;
    var tail := [last.identity, ""] + last.stats;
    assert lines[1..] == Render(commits) + tail;
    NoEmptyStatsSplit(commits, last);
    RunRendered(commits, tail);
    ReadLastRecord(last);
  }

  lemma NoEmptyStatsSplit(commits: seq<Commit>, last: Commit)
    requires NoEmptyStats(commits + [last])
    ensures NoEmptyStats(commits) && NoEmptyLines(last.stats)
  {
    forall k | 0 <= k < |commits| ensures NoEmptyLines(commits[k].stats) {
      assert (commits + [last])[k] == commits[k];
    }
    assert (commits + [last])[|commits|] == last;
  }

  /** The last record runs to the end of the stream. */
  lemma ReadLastRecord(last: Commit)
    requires NoEmptyLines(last.stats)
    ensures Run([last.identity, ""] + last.stats, ExpectAuthor) == Some(StatEvents(AuthorKey(last.identity), last.stats))
  {
    var tail := [last.identity, ""] + last.stats;
    var key := AuthorKey(last.identity);
    assert tail[1..][1..] == last.stats;
    ReadFinalStats(key, last.stats);
    assert Run(tail, ExpectAuthor) == Run(tail[1..], ExpectSeparator(key)) == Run(last.stats, ReadingStats(key));
  }

  /** A stream that ends right after an identity line makes the iterator fail,
      whatever came before. */
  lemma EndsAfterIdentity(commits: seq<Commit>, identity: string)
    requires NoEmptyStats(commits)
    ensures ParseLog([""] + Render(commits) + [identity]) == EndedAfterAuthor
  {
    var lines := [""] + Render(commits) + [identity];
    assert lines[1..] == Render(commits) + [identity];
    RunRendered(commits, [identity]);
    assert [identity][1..] == [];
  }

  /** A numstat line as git writes it for a text file: two counts and a path,
      tab-separated. It yields the sum of the counts and the path up to its
      first whitespace, so a path with spaces in it is cut short. */
  lemma StatLineEvent(author: string, added: nat, removed: nat, path: string)
    requires added <= MaxInt && removed <= MaxInt
    requires path == [] || !IsWhitespace(path[0])
    ensures StatEvent(author, Decimal(added) + "\t" + Decimal(removed) + "\t" + path)
         == Some(Event(author, added + removed, path[..SpaceFrom(path, 0)]))
  {
    var a, r := Decimal(added), Decimal(removed);
    DecimalHasNoWhitespace(added);
    DecimalHasNoWhitespace(removed);
    SplitTabbed(a, r, path);
    DecimalFields(author, a + "\t" + r + "\t" + path, added, removed);
  }

  /** A line whose first two fields are the decimals of two counts yields
      their sum. */
  lemma DecimalFields(author: string, line: string, added: nat, removed: nat)
    requires added <= MaxInt && removed <= MaxInt
    requires |Split(line)| >= 3 && Split(line)[0] == Decimal(added) && Split(line)[1] == Decimal(removed)
    ensures StatEvent(author, line) == Some(Event(author, added + removed, Split(line)[2]))
  {
    ToIntOrNullOfDecimal(added);
    ToIntOrNullOfDecimal(removed);
  }

  /** The fields of two words and a path, tab-separated. */
  lemma SplitTabbed(a: string, r: string, path: string)
    requires a != [] && r != [] && NoWhitespace(a) && NoWhitespace(r)
    requires path == [] || !IsWhitespace(path[0])
    ensures var fields := Split(a + "\t" + r + "\t" + path);
      |fields| >= 3 && fields[0] == a && fields[1] == r && fields[2] == path[..SpaceFrom(path, 0)]
  {
    var tab: string := ['\t'];
    var line := a + "\t" + r + "\t" + path;
    var r0 := r + tab + path;
    assert line == a + tab + r0;
    assert r0[0] == r[0];
    SplitRun(a, tab, r0);
    SplitRun(r, tab, path);
    SplitHead(path);
    assert Split(line) == [a] + ([r] + Split(path));
  }

  /** The numstat line of a binary file, `-\t-\tpath`, yields no event. */
  lemma BinaryStatLine(author: string, path: string)
    ensures StatEvent(author, "-\t-\t" + path) == None
  {
    var fields := Split("-\t-\t" + path);
    if |fields| >= 3 {
      var line := "-\t-\t" + path;
      assert line == "-" + ['\t'] + ("-\t" + path);
      SplitRun("-", "\t", "-\t" + path);
      ToIntOrNullRejectsMarkers();
    }
  }
}
