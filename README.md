# conway — a Dafny model

conway is a small command-line tool. It reads the output of
`git log --numstat --no-merges --pretty=%n%ae` and reports who writes what, in one of two modes:

- **Folder mode** (`--folders a,b`). Every author with at least 10 changed lines gets two
  percentages:
  - the share of their own changes that fall under the folders;
  - their share of all changes under the folders.

  Each percentage gets its own descending ranking. Rows below 1.00% are hidden and the two
  rankings are separated by `---`.
- **Author mode** (`--author x`). The changes of one author are grouped by the directory
  directly under the first matching folder (the root when no folders are given). Each bucket's
  share of the total is listed when it reaches 1.00%, highest first.

Everything lives in `src/main/kotlin/com/alecstrong/conway/main.kt`. The model follows that file
function by function:

- **Parsing.** The stream parser `forCommits` is a loop method, `NumstatParser.ForCommits`,
  proved equal to a recursive reading of the log, `NumstatParser.ParseLog`.
- **Aggregation.** The two read-modify-write map loops are the methods
  `Aggregation.AggregateByFolders` and `Aggregation.AggregateByAuthor`. Both are proved equal to
  one fold, `Aggregation.Tally`, over an insertion-ordered association list, `LinkedTable`.
  That list stands for Kotlin's `LinkedHashMap`.
- **Metrics and ranking** are pure functions:
  - percentages in whole hundredths, rounded half-up (`HalfUp`);
  - a stable descending sort (`Ranking`).
- **Reports.** Each mode ends in a report function over the log lines, `FolderMode.FolderReport`
  and `AuthorMode.AuthorReport`. Each report returns the sequence of lines the tool echoes,
  together with the exception that ends the run, if any. `FolderMode.FolderReportMeaning` and
  `AuthorMode.AuthorReportMeaning` state each report over the events of the log: when it throws
  `DivisionByZero`, and exactly which rows it prints, in which order.
- **Dispatch.** `Conway.Run` dispatches between the two reports.

A percentage such as `75.00` is the integer `7500`.

### Behaviour of the code worth knowing

- A numstat line is split on runs of whitespace. The whitespace split keeps empty leading and
  trailing fields. The line is used when it has at least three fields; the extra fields are
  ignored. A line with fewer fields is skipped.
- A rename line such as `1\t2\tsrc/{old => new}/File.kt` is cut at its first space, so the path
  is `src/{old`. Under folder `src` its bucket is therefore `old`, not `new`
  (`AuthorMode.RenameBucket`).
- A zero denominator in a `BigDecimal` division throws. The model returns this as the failure
  `DivisionByZero`, after the lines already printed; it is not a share of 0.
  - Folder mode throws whenever some author is active and the in-folder total is 0. That
    happens when nothing falls under the folders. It also happens when the counts under the
    folders are zero or cancel out, as with `0\t0\tfoo/a`, or with `-5\t0\tfoo/a` and
    `5\t0\tfoo/b`.
  - Author mode throws whenever some change has a bucket and the bucket totals add up to 0,
    again including zero or cancelling counts.
- In folder mode an empty log still prints `---` after the no-commits notice
  (`FolderMode.EmptyLog`).
- A log that ends right after an author line makes the iterator throw
  `NoSuchElementException`. The model reports this as the failure `NoSuchElement`.
- Rows with equal percentages keep the order in which their authors or buckets first appear in
  the log. Kotlin's `LinkedHashMap` keeps keys in insertion order and `sortedByDescending` is
  stable (`FolderMode.RankingTiesInStreamOrder`, `AuthorMode.BucketTiesInStreamOrder`).

## Model

| member | source | states |
|---|---|---|
| KotlinText.Split | src/main/kotlin/com/alecstrong/conway/main.kt:43 | splitting on `\s+` gives at least one field; no field holds whitespace; the fields joined are the line with its whitespace removed |
| KotlinText.SqueezeSplit | src/main/kotlin/com/alecstrong/conway/main.kt:43 | removing whitespace keeps a whitespace-free prefix and drops a run of whitespace after it |
| KotlinText.SplitNoSpace | src/main/kotlin/com/alecstrong/conway/main.kt:43 | a text without whitespace is a single field |
| KotlinText.SplitRun | src/main/kotlin/com/alecstrong/conway/main.kt:43 | a word, then a run of whitespace of any length, then a remainder not starting with whitespace: the word is the first field and the remainder is split on its own |
| KotlinText.SplitLeadingRun | src/main/kotlin/com/alecstrong/conway/main.kt:43 | a leading run of whitespace gives an empty first field |
| KotlinText.SplitTrailingRun | src/main/kotlin/com/alecstrong/conway/main.kt:43 | a word followed by a trailing run of whitespace gives the word and an empty last field |
| KotlinText.SubstringBefore | src/main/kotlin/com/alecstrong/conway/main.kt:44 | the result is the longest prefix without the delimiter; when it is shorter than the input, the next character is the delimiter |
| KotlinText.IndexOfFrom | src/main/kotlin/com/alecstrong/conway/main.kt:123 | finds the first occurrence of the folder at or after a position, or reports that there is none |
| KotlinText.SubstringAfter | src/main/kotlin/com/alecstrong/conway/main.kt:123 | the result is a suffix of the input; when the input starts with the delimiter, it is the input without that prefix |
| KotlinText.Trim | src/main/kotlin/com/alecstrong/conway/main.kt:123 | the result is a contiguous slice of the input whose first and last characters are not among the trimmed characters, with only trimmed characters outside it |
| KotlinText.ToIntOrNull | src/main/kotlin/com/alecstrong/conway/main.kt:45 | a value comes back exactly when the text is an optional `+` or `-` followed by at least one digit and its signed value lies in the 32-bit range; the value is that signed value |
| KotlinText.ToIntOrNullRejectsNonDigit | src/main/kotlin/com/alecstrong/conway/main.kt:45 | a text with a non-digit anywhere except a sign in front gives null |
| KotlinText.ToIntOrNullOfDecimal | src/main/kotlin/com/alecstrong/conway/main.kt:45 | the decimal form of any 32-bit integer, with `-` when it is negative, parses back to that integer |
| KotlinText.ToIntOrNullRejectsMarkers | src/main/kotlin/com/alecstrong/conway/main.kt:45 | `-` (the binary-file marker), a lone `+` and the empty text are not numbers |
| KotlinText.DigitsOfDecimal | src/main/kotlin/com/alecstrong/conway/main.kt:45 | the value of the decimal digits of `n` is `n` |
| NumstatParser.AuthorKey | src/main/kotlin/com/alecstrong/conway/main.kt:44 | the key is the part of the email before the first `@`, or the whole email when it has none |
| NumstatParser.StatEvent | src/main/kotlin/com/alecstrong/conway/main.kt:39-48 | a stat line yields an event exactly when it has at least three fields and its first two fields parse as `Int`; the event carries the record's author and the third field, which has no whitespace, as its path; its change count is the sum of the values of the first two fields, each within `Int` range |
| NumstatParser.MalformedStatLine | src/main/kotlin/com/alecstrong/conway/main.kt:42-47 | a line with fewer than three fields, or whose first or second field is not a sign and digits, yields no event |
| NumstatParser.StatLineEvent | src/main/kotlin/com/alecstrong/conway/main.kt:43-45 | a line `added\tremoved\tpath` yields `added + removed` and the path up to its first whitespace |
| NumstatParser.BinaryStatLine | src/main/kotlin/com/alecstrong/conway/main.kt:45 | a binary-file line `-\t-\tpath` yields nothing |
| NumstatParser.Run | src/main/kotlin/com/alecstrong/conway/main.kt:33-50 | reading the remaining lines fails exactly when they run out right after an identity line, where the separator is still expected; each line yields at most one event |
| NumstatParser.ParseLog | src/main/kotlin/com/alecstrong/conway/main.kt:27-30 | the outcome is "no commits" exactly when the stream is empty |
| NumstatParser.FirstLineSkipped | src/main/kotlin/com/alecstrong/conway/main.kt:31 | whatever the first line holds, it does not affect the parse |
| NumstatParser.ForCommits | src/main/kotlin/com/alecstrong/conway/main.kt:23-52 | the nested loops over the line iterator give exactly the parse of the log |
| NumstatParser.ReadStats | src/main/kotlin/com/alecstrong/conway/main.kt:38-40 | stat lines up to an empty line yield their events, then parsing goes on with the next record |
| NumstatParser.RunRendered | src/main/kotlin/com/alecstrong/conway/main.kt:33-50 | records written as identity, empty line, stats and empty line yield their events in order, followed by whatever the remaining lines yield |
| NumstatParser.ParseGitLog | src/main/kotlin/com/alecstrong/conway/main.kt:23-52 | for the layout git produces, the events are exactly those of the well-formed stat lines, in stream order |
| NumstatParser.EndsAfterIdentity | src/main/kotlin/com/alecstrong/conway/main.kt:34-36 | a stream that ends right after an identity line ends in `NoSuchElementException` |
| LinkedTable.IndexOf | src/main/kotlin/com/alecstrong/conway/main.kt:67 | finds the first entry with the key, or reports that the key is absent |
| LinkedTable.Get | src/main/kotlin/com/alecstrong/conway/main.kt:67 | a lookup finds a value exactly when the key is present, and that value is stored under the key |
| LinkedTable.Put | src/main/kotlin/com/alecstrong/conway/main.kt:67 | storing under a present key changes no key and keeps the order; an absent key is appended at the end |
| LinkedTable.GetPut | src/main/kotlin/com/alecstrong/conway/main.kt:67 | after a store, the key maps to the new value and every other key maps to what it mapped to before |
| LinkedTable.Add | src/main/kotlin/com/alecstrong/conway/main.kt:67-69 | `m[k] = m.getOrDefault(k, 0) + c` leaves `k` holding its old total, or 0, plus `c`; present keys keep their places and an absent key is appended last |
| LinkedTable.GetAdd | src/main/kotlin/com/alecstrong/conway/main.kt:67-69 | the update adds `c` to the key's total and leaves every other key alone |
| LinkedTable.DistinctAdd | src/main/kotlin/com/alecstrong/conway/main.kt:67-69 | the update keeps keys distinct |
| LinkedTable.SumPut | src/main/kotlin/com/alecstrong/conway/main.kt:72 | the sum of the values changes by the new value minus the old one |
| LinkedTable.ValueWithinSum | src/main/kotlin/com/alecstrong/conway/main.kt:72 | when every value is non-negative, each key's value lies between 0 and the sum |
| Scopes.AnyStartsWith | src/main/kotlin/com/alecstrong/conway/main.kt:66 | true exactly when some folder is a prefix of the path |
| Scopes.FirstMatch | src/main/kotlin/com/alecstrong/conway/main.kt:122 | finds nothing exactly when no folder is a prefix; otherwise returns the first folder, in the order given, that is a prefix |
| Scopes.MatchedInBothModes | src/main/kotlin/com/alecstrong/conway/main.kt:66 | a path counts under the folders in folder mode exactly when it gets a bucket in author mode |
| Scopes.NextLevelDirectory | src/main/kotlin/com/alecstrong/conway/main.kt:123 | the bucket holds no `/`, does not start with `/`, `{` or `}`, and is no longer than the path |
| Scopes.NextLevelDirectoryShape | src/main/kotlin/com/alecstrong/conway/main.kt:123 | for a path under the folder, the bucket starts at the first character after the folder that is not `/`, `{` or `}`, and ends just before the next `/` or where only `/`, `{` and `}` are left |
| Scopes.BucketOf | src/main/kotlin/com/alecstrong/conway/main.kt:122-123 | an event gets a bucket exactly when some folder is a prefix of its path, and the bucket holds no `/` |
| HalfUp.DivHalfUp | src/main/kotlin/com/alecstrong/conway/main.kt:79-82 | the rounded quotient is within one half of the exact one, a tie going away from zero, and it has the sign of the exact quotient |
| HalfUp.Percentage | src/main/kotlin/com/alecstrong/conway/main.kt:79-87 | the percentage in hundredths is the nearest whole number to `part * 10000 / whole`, a tie going away from zero; a non-negative part of a positive whole gives a non-negative percentage |
| HalfUp.PercentageBounds | src/main/kotlin/com/alecstrong/conway/main.kt:79-87 | a part of a positive whole is between 0.00% and 100.00%, and the whole itself is 100.00% |
| HalfUp.PercentageMonotone | src/main/kotlin/com/alecstrong/conway/main.kt:79-87 | a larger part never gets a smaller percentage |
| HalfUp.RoundingExamples | src/main/kotlin/com/alecstrong/conway/main.kt:82 | 1/3 gives 33.33; 15/20 gives 75.00; 201/20000 gives 1.01; 6667/20000 gives 33.34 (ties round up) |
| Ranking.SortDescending | src/main/kotlin/com/alecstrong/conway/main.kt:92 | `sortedByDescending` gives a non-increasing permutation of its input |
| Ranking.SortDescendingStable | src/main/kotlin/com/alecstrong/conway/main.kt:92 | the elements with any one key come out in the order they went in |
| Ranking.SortDescendingTies | src/main/kotlin/com/alecstrong/conway/main.kt:92 | any two elements with equal keys come out in the order they went in |
| Ranking.RankedDistinct | src/main/kotlin/com/alecstrong/conway/main.kt:92-104 | rows drawn from a list whose rows all differ in some identity, keeping ties in its order, also all differ in it |
| Ranking.Shown | src/main/kotlin/com/alecstrong/conway/main.kt:92-96 | the shown rows are non-increasing; they are exactly the rows at or above the floor, each as often as in the input; rows with equal keys keep their input order |
| Aggregation.Tally | src/main/kotlin/com/alecstrong/conway/main.kt:65-70 | the map has no repeated key, no more entries than events, and every key is that of some counted event |
| Aggregation.TallyMeaning | src/main/kotlin/com/alecstrong/conway/main.kt:65-70 | a key is present exactly when some event falls under it, and its value is the sum of those events' changes |
| Aggregation.TallyOrder | src/main/kotlin/com/alecstrong/conway/main.kt:65-70 | the map lists its keys in the order of their first events, as a `LinkedHashMap` keeps insertion order |
| Aggregation.TallyEmpty | src/main/kotlin/com/alecstrong/conway/main.kt:121-126 | the map is empty exactly when no event is counted |
| Aggregation.TallySum | src/main/kotlin/com/alecstrong/conway/main.kt:72 | the sum of the map's values is the total change of all counted events |
| Aggregation.InFolderWithinAll | src/main/kotlin/com/alecstrong/conway/main.kt:66-69 | an author in the in-folder map is also in the all-commits map; with non-negative changes, their in-folder total lies between 0 and their overall total |
| Aggregation.AggregateByFolders | src/main/kotlin/com/alecstrong/conway/main.kt:65-70 | the callback loop builds the in-folder map and the all-commits map as the fold over the events |
| Aggregation.AggregateByAuthor | src/main/kotlin/com/alecstrong/conway/main.kt:121-126 | the callback loop builds the per-bucket map as the fold over the events |
| FolderMode.Active | src/main/kotlin/com/alecstrong/conway/main.kt:76 | keeps exactly the entries with at least 10 changes, and any two of them in map order |
| FolderMode.ContributionOf | src/main/kotlin/com/alecstrong/conway/main.kt:78-89 | the contribution belongs to the entry's author; an in-folder part between 0 and the whole gives a share between 0.00% and 100.00%, and an author with every change in the folders gets 100.00% |
| FolderMode.Contributions | src/main/kotlin/com/alecstrong/conway/main.kt:74-90 | the computation throws, with `DivisionByZero`, exactly when active authors exist and the in-folder total is 0 |
| FolderMode.ContributionsAt | src/main/kotlin/com/alecstrong/conway/main.kt:74-90 | there is one contribution per active author, in map order, each built from that author's entry |
| FolderMode.ContributionsInOrder | src/main/kotlin/com/alecstrong/conway/main.kt:74-90 | the contributions come in the order of their authors' first commits in the stream |
| FolderMode.ContributionsOfEvents | src/main/kotlin/com/alecstrong/conway/main.kt:65-90 | an author has a contribution exactly when their total over the events is at least 10; each share is the rounded percentage of their event sums |
| FolderMode.SharesBounded | src/main/kotlin/com/alecstrong/conway/main.kt:79-87 | with non-negative changes, both percentages lie between 0.00% and 100.00% |
| FolderMode.FolderLines | src/main/kotlin/com/alecstrong/conway/main.kt:92-104 | one in-folder row per contribution of the in-folder ranking, with its author and in-folder share and in its order; then `---`; then one of-folder row per contribution of the of-folder ranking, likewise; no row shows under 1.00% |
| FolderMode.FolderRankings | src/main/kotlin/com/alecstrong/conway/main.kt:92-104 | both rankings are non-increasing and hold exactly the contributions whose share reaches 1.00%; the contributions with any one share keep map order |
| FolderMode.RankingTiesInStreamOrder | src/main/kotlin/com/alecstrong/conway/main.kt:92-104 | in either ranking, authors with equal shares appear in the order of their first commits in the stream |
| FolderMode.FolderOutcome | src/main/kotlin/com/alecstrong/conway/main.kt:65-104 | lines already printed stay first; every later line is a ranking row or `---`; a run without failure prints `---`; `FolderOutcomeMeaning` states which rows and when it throws |
| FolderMode.FolderOutcomeMeaning | src/main/kotlin/com/alecstrong/conway/main.kt:65-104 | throws `DivisionByZero`, adding nothing, exactly when some author has at least 10 changes and the changes under the folders add up to 0; otherwise adds the in-folder ranking, `---` and the of-folder ranking, each as its ranking predicate states over the events |
| FolderMode.InFolderRowsMeaning | src/main/kotlin/com/alecstrong/conway/main.kt:74-97 | the in-folder rows are non-increasing, name no author twice, list tied authors in stream order, and hold `a writes p%` exactly when `a` has at least 10 changes and `p`, their in-folder changes over all their changes rounded half-up, is at least 1.00% |
| FolderMode.OfFolderRowsMeaning | src/main/kotlin/com/alecstrong/conway/main.kt:72-104 | the of-folder rows are non-increasing, name no author twice, list tied authors in stream order, and hold `a accounts for p%` exactly when `a` has at least 10 changes and `p`, their in-folder changes over all in-folder changes rounded half-up, is at least 1.00% |
| FolderMode.ContributionAuthorsDistinct | src/main/kotlin/com/alecstrong/conway/main.kt:74-90 | no author has two contributions |
| FolderMode.FolderReport | src/main/kotlin/com/alecstrong/conway/main.kt:54-105 | the run ends in `NoSuchElementException` exactly when the log ends after an identity line, with nothing printed; otherwise every line is the notice or a ranking line; a run without failure prints `---`; `FolderReportMeaning` states the rest |
| FolderMode.FolderReportMeaning | src/main/kotlin/com/alecstrong/conway/main.kt:54-105 | for a log that parses to events: throws `DivisionByZero`, printing nothing, exactly when some author has at least 10 changes and the changes under the folders add up to 0; otherwise prints the in-folder ranking, `---`, the of-folder ranking, each as stated over the events |
| FolderMode.ContributionsByFolders | src/main/kotlin/com/alecstrong/conway/main.kt:54-105 | the parse-then-aggregate method produces exactly the folder report |
| FolderMode.ActiveAuthorListed | src/main/kotlin/com/alecstrong/conway/main.kt:74-76 | an author with at least 10 changes is kept with their total |
| FolderMode.NothingInFolders | src/main/kotlin/com/alecstrong/conway/main.kt:72-87 | when nothing falls under the folders and some author is active, folder mode throws `DivisionByZero` |
| FolderMode.EmptyLog | src/main/kotlin/com/alecstrong/conway/main.kt:27-30 | an empty log prints the no-commits notice and then `---` |
| FolderMode.OneAuthorExample | src/main/kotlin/com/alecstrong/conway/main.kt:54-105 | one record with 15 changes under `foo` and 5 elsewhere reports 75.00% in the folders and 100.00% of them |
| AuthorMode.FoldersOrRoot | src/main/kotlin/com/alecstrong/conway/main.kt:110 | without `--folders` the folders default to the root `""` |
| AuthorMode.BucketShares | src/main/kotlin/com/alecstrong/conway/main.kt:128-141 | throws exactly when buckets exist and their total is 0; otherwise a bucket is listed exactly when its rounded share reaches 1.00%, and the shares keep map order |
| AuthorMode.BucketLines | src/main/kotlin/com/alecstrong/conway/main.kt:142-144 | one line per share, in order, carrying the author, the bucket and the share |
| AuthorMode.AuthorOutcome | src/main/kotlin/com/alecstrong/conway/main.kt:121-144 | what was printed stays first and only bucket rows for the author follow; the run throws `DivisionByZero`, adding nothing, exactly when some event has a bucket and the bucketed changes add up to 0; `AuthorOutcomeMeaning` states which rows follow |
| AuthorMode.AuthorOutcomeMeaning | src/main/kotlin/com/alecstrong/conway/main.kt:121-144 | without failure, what was printed stays first and the bucket ranking follows, as `BucketRanking` states over the events |
| AuthorMode.BucketRowsMeaning | src/main/kotlin/com/alecstrong/conway/main.kt:128-144 | the bucket rows are for the author, non-increasing, name no bucket twice, list tied buckets in stream order, and hold `p% in f` exactly when some event falls in bucket `f` and `p`, its changes over all bucketed changes rounded half-up, is at least 1.00% |
| AuthorMode.ShareFoldersDistinct | src/main/kotlin/com/alecstrong/conway/main.kt:128-141 | no bucket has two shares |
| AuthorMode.AuthorReport | src/main/kotlin/com/alecstrong/conway/main.kt:107-145 | the first line announces the search; later lines are the notice or bucket rows; `NoSuchElementException` exactly when the log ends after an identity line, after the announcement only; `AuthorReportMeaning` states the rest |
| AuthorMode.AuthorReportMeaning | src/main/kotlin/com/alecstrong/conway/main.kt:107-145 | for a log that parses to events: after the announcement, throws `DivisionByZero`, printing nothing more, exactly when some event falls under the folders and their changes add up to 0; otherwise prints the bucket ranking as stated over the events |
| AuthorMode.ContributionsByAuthor | src/main/kotlin/com/alecstrong/conway/main.kt:107-145 | the parse-then-aggregate method produces exactly the author report |
| AuthorMode.BucketRows | src/main/kotlin/com/alecstrong/conway/main.kt:121-141 | the rows are non-increasing and hold exactly the buckets that some event falls in whose share of all bucketed changes reaches 1.00%; equal shares keep first-seen order |
| AuthorMode.BucketTiesInStreamOrder | src/main/kotlin/com/alecstrong/conway/main.kt:121-141 | buckets with equal shares are listed in the order of their first changes in the stream |
| AuthorMode.SharesInStreamOrder | src/main/kotlin/com/alecstrong/conway/main.kt:121-141 | the shares come in the order of their buckets' first changes in the stream |
| AuthorMode.BucketSharesBounded | src/main/kotlin/com/alecstrong/conway/main.kt:128-134 | with non-negative changes, every bucket share lies between 0.00% and 100.00% |
| AuthorMode.RootBuckets | src/main/kotlin/com/alecstrong/conway/main.kt:110-123 | under the default root, the bucket is the first path segment after trimming `/`, `{` and `}` |
| AuthorMode.RenameBucket | src/main/kotlin/com/alecstrong/conway/main.kt:43-45 | the rename line `1\t2\tsrc/{old => new}/File.kt` counts 3 changes under bucket `old` in folder `src` |
| AuthorMode.TrimRename | src/main/kotlin/com/alecstrong/conway/main.kt:123 | trimming `/{old` gives `old` |
| Conway.Run | src/main/kotlin/com/alecstrong/conway/main.kt:147-153 | with `--author`, author mode runs, even when `--folders` is given; otherwise folder mode runs when `--folders` is given; with neither option, nothing is printed |

## Left out

- Command-line parsing (Clikt) is not modelled. The three options arrive as `Option` values, and `since` is not modelled at all because it only reaches git's arguments.
- Running `git` is not modelled: the argument list and `Runtime.exec`. Its output arrives as a sequence of lines, already split.
- The text layout of the echoed lines is not modelled: `toPlainString` and the stderr flag of the notice. Each line is a datatype value holding its fields.
- The callback API is not kept. `forCommits` is modelled as a parse into a list of events followed by an aggregation loop over that list. Both run in stream order, so the tallies are the same as with the callback.
- `KotlinText.ToIntOrNull` does not model non-ASCII digits. It accepts an optional sign and ASCII digits only, whereas Kotlin's `toIntOrNull` also takes other Unicode decimal digits.
- `Aggregation.AggregateByFolders` and `Aggregation.AggregateByAuthor` do not model 32-bit overflow. Their counts are unbounded integers, but the sums in the source wrap around at 32 bits (64 bits for the author-mode totals).
- `NumstatParser.StatEvent` does not model 32-bit wrap-around either. Its change count is the unbounded sum of the two numbers, which lies between twice `Int.MIN_VALUE` and twice `Int.MAX_VALUE`.
- `BigDecimal` is not modelled in general. Only its use here is: an integer times 100, divided to scale 2 with `HALF_UP`, comes out as whole hundredths.
- Exceptions other than the two by which the source can end are not modelled: `NoSuchElementException` and the division by zero. Failures of process I/O are not modelled.
