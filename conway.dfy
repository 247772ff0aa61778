/** `ConwayCli.run`: the options pick the mode. `--author` wins over
    `--folders`; with neither, the command does nothing. */
module Conway {
  import opened Wrappers
  import opened Report
  import opened FolderMode
  import opened AuthorMode

  /** `log` stands for the lines of the `git log` that the chosen mode would
      run; with neither option no git process is started and it is unused. */
  function Run(author: Option<string>, folder: Option<seq<string>>, log: seq<string>): (o: Outcome)
    ensures author.Some? ==> o.printed != [] && o.printed[0] == Searching(author.value)
    ensures author.Some? ==> forall i :: 0 <= i < |o.printed| ==> !o.printed[i].InFolderLine? && !o.printed[i].OfFolderLine? && o.printed[i] != Separator
    ensures author.None? ==> forall i :: 0 <= i < |o.printed| ==> !o.printed[i].Searching? && !o.printed[i].BucketLine?
    ensures author.Some? ==> o == AuthorReport(author.value, folder, log)
    ensures author.None? && folder.Some? ==> o == FolderReport(folder.value, log)
    ensures author.None? && folder.None? ==> o == Outcome([], None)
  {
    match author
    case Some(a) =>
      AuthorModeLines(a, folder, log);
      AuthorReport(a, folder, log)
    case None =>
      match folder
      case Some(folders) =>
        FolderModeLines(folders, log);
        FolderReport(folders, log)
      case None => Outcome([], None)
  }

  /** Author mode prints none of folder mode's lines. */
  lemma AuthorModeLines(a: string, folder: Option<seq<string>>, log: seq<string>)
    ensures var o := AuthorReport(a, folder, log);
      forall i :: 0 <= i < |o.printed| ==> !o.printed[i].InFolderLine? && !o.printed[i].OfFolderLine? && o.printed[i] != Separator
  {
    var lines := AuthorReport(a, folder, log).printed;
    forall i | 0 <= i < |lines|
      ensures !lines[i].InFolderLine? && !lines[i].OfFolderLine? && lines[i] != Separator
    {
      NotFolderLine(lines[i], i == 0);
    }
  }

  lemma NotFolderLine(l: Line, first: bool)
    requires first ==> l.Searching?
    requires !first ==> l == NoCommitsNotice || l.BucketLine?
    ensures !l.InFolderLine? && !l.OfFolderLine? && l != Separator
  {
  }

  /** Folder mode prints none of author mode's lines. */
  lemma FolderModeLines(folders: seq<string>, log: seq<string>)
    ensures var o := FolderReport(folders, log);
      forall i :: 0 <= i < |o.printed| ==> !o.printed[i].Searching? && !o.printed[i].BucketLine?
  {
    var lines := FolderReport(folders, log).printed;
    forall i | 0 <= i < |lines| ensures !lines[i].Searching? && !lines[i].BucketLine? {
      NotAuthorLine(lines[i]);
    }
  }

  lemma NotAuthorLine(l: Line)
    requires l == NoCommitsNotice || RankingLine(l)
    ensures !l.Searching? && !l.BucketLine?
  {
  }
}
