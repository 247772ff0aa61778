/** How main.kt attributes a file path to the folders given with `--folders`:
    plain text prefixes, not path segments. */
module Scopes {
  import opened Wrappers
  import opened KotlinText

  /** `folders.any { file.startsWith(it) }` (folder mode). */
  function AnyStartsWith(folders: seq<string>, file: string): (r: bool)
    ensures r <==> exists i :: 0 <= i < |folders| && StartsWith(file, folders[i])
  {
    if folders == [] then false
    else StartsWith(file, folders[0]) || AnyStartsWith(folders[1..], file)
  }

  /** `folders.firstOrNull { file.startsWith(it) }` (author mode): the first
      folder, in the order given, that the path starts with. */
  function FirstMatch(folders: seq<string>, file: string): (r: Option<string>)
    ensures r.None? <==> forall i :: 0 <= i < |folders| ==> !StartsWith(file, folders[i])
    ensures r.Some? ==> exists i :: 0 <= i < |folders| && folders[i] == r.value && StartsWith(file, r.value)
                                    && forall j :: 0 <= j < i ==> !StartsWith(file, folders[j])
  {
    if folders == [] then None
    else if StartsWith(file, folders[0]) then Some(folders[0])
    else
      var r := FirstMatch(folders[1..], file);
      assert forall i :: 0 < i < |folders| ==> folders[i] == folders[1..][i - 1];
      r
  }

  /** The two modes agree on which paths fall under the folders at all. */
  lemma MatchedInBothModes(folders: seq<string>, file: string)
    ensures AnyStartsWith(folders, file) <==> FirstMatch(folders, file).Some?
  {
  }

  /** The characters `trim('/', '{', '}')` removes. */
  const Trimmed: set<char> := {'/', '{', '}'}

  /** `file.substringAfter(folder).trim('/', '{', '}').substringBefore('/')`:
      the directory directly under the matched folder. It holds no `/`, does
      not start with `/`, `{` or `}`, and is no longer than the path. */
  function NextLevelDirectory(file: string, folder: string): (d: string)
    ensures '/' !in d && (d == [] || d[0] !in Trimmed) && |d| <= |file|
  {
    var t := Trim(SubstringAfter(file, folder), Trimmed);
    var d := SubstringBefore(t, '/');
    assert d != [] ==> d[0] == t[0];
    d
  }

  /** Everything from index `m` to the end of `file` is `/`, `{` or `}`. */
  predicate TrimmedFrom(file: string, m: nat) {
    forall k :: m <= k < |file| ==> file[k] in Trimmed
  }

  /** `i` is where the bucket of a path under `folder` starts: the first
      index after the folder prefix whose character is not `/`, `{` or `}`,
      or the end of the path. */
  predicate BucketStart(file: string, folder: string, i: nat) {
    |folder| <= i <= |file|
    && (forall k :: |folder| <= k < i ==> file[k] in Trimmed)
    && (i < |file| ==> file[i] !in Trimmed)
  }

  /** `d` occurs at `i` and ends at the first place after `i` where a `/`
      follows or only `/`, `{` and `}` are left. */
  predicate BucketAt(file: string, d: string, i: nat) {
    OccursAt(file, d, i)
    && (forall m :: i <= m < i + |d| ==> file[m] != '/' && !TrimmedFrom(file, m))
    && ((i + |d| < |file| && file[i + |d|] == '/') || TrimmedFrom(file, i + |d|))
  }

  /** For a path under `folder`, the bucket starts at the bucket start `i`
      and ends where `BucketAt` says, which fixes it. */
  lemma NextLevelDirectoryShape(file: string, folder: string, i: nat)
    requires StartsWith(file, folder) && BucketStart(file, folder, i)
    ensures BucketAt(file, NextLevelDirectory(file, folder), i)
  {
    var n := |folder|;
    var rest := file[n..];
    var i0 := SkipIn(rest, Trimmed, 0);
    var d := NextLevelDirectory(file, folder);
    NextLevelOfRest(file, folder);
    BucketOfRest(rest, i0, d);
    BucketStartExists(file, folder);
    BucketStartUnique(file, folder, i, n + i0);
    Shifted(file, folder, rest, i0, d, i);
  }

  lemma NextLevelOfRest(file: string, folder: string)
    requires StartsWith(file, folder)
    ensures NextLevelDirectory(file, folder) == SubstringBefore(Trim(file[|folder|..], Trimmed), '/')
  {
    assert SubstringAfter(file, folder) == file[|folder|..];
  }

  /** Every path under a folder has a bucket start. */
  lemma BucketStartExists(file: string, folder: string)
    requires StartsWith(file, folder)
    ensures BucketStart(file, folder, |folder| + SkipIn(file[|folder|..], Trimmed, 0))
  {
    var n := |folder|;
    var rest := file[n..];
    var i0 := SkipIn(rest, Trimmed, 0);
    forall k | n <= k < n + i0 ensures file[k] in Trimmed {
      assert file[k] == rest[k - n];
    }
    if n + i0 < |file| {
      assert file[n + i0] == rest[i0];
    }
  }

  /** Only one index is a bucket start. */
  lemma BucketStartUnique(file: string, folder: string, i: nat, i': nat)
    requires BucketStart(file, folder, i) && BucketStart(file, folder, i')
    ensures i == i'
  {
  }

  /** The bucket of the text after the folder, found in that text. */
  lemma BucketOfRest(rest: string, i: nat, d: string)
    requires i == SkipIn(rest, Trimmed, 0)
    requires d == SubstringBefore(Trim(rest, Trimmed), '/')
    ensures BucketAt(rest, d, i)
  {
    var j := BackIn(rest, Trimmed, i, |rest|);
    assert Trim(rest, Trimmed) == rest[i..j];
    BucketInTrimmed(rest, i, j, d);
  }

  /** The part before the first `/` of the stretch `rest[i..j]`, which has
      only `/`, `{` and `}` after it and does not end in one of them. */
  lemma BucketInTrimmed(rest: string, i: nat, j: nat, d: string)
    requires i <= j <= |rest|
    requires forall k :: j <= k < |rest| ==> rest[k] in Trimmed
    requires j > i ==> rest[j - 1] !in Trimmed
    requires d == SubstringBefore(rest[i..j], '/')
    ensures BucketAt(rest, d, i)
  {
    var t := rest[i..j];
    assert rest[i..i + |d|] == t[..|d|];
    forall m | i <= m < i + |d| ensures rest[m] != '/' && !TrimmedFrom(rest, m) {
      assert rest[m] == d[m - i];
      assert m <= j - 1;
    }
    if |d| < |t| {
      assert rest[i + |d|] == t[|d|];
    }
  }

  /** The bucket, moved from the text after the folder to the whole path. */
  lemma Shifted(file: string, folder: string, rest: string, i: nat, d: string, at: nat)
    requires StartsWith(file, folder) && rest == file[|folder|..] && at == |folder| + i
    requires BucketAt(rest, d, i)
    ensures BucketAt(file, d, at)
  {
    var n := |folder|;
    assert file[n + i..n + i + |d|] == rest[i..i + |d|];
    forall m | n + i <= m < n + i + |d| ensures file[m] != '/' && !TrimmedFrom(file, m) {
      assert file[m] == rest[m - n];
      TrimmedFromShift(file, n, m - n);
    }
    TrimmedFromShift(file, n, i + |d|);
    if i + |d| < |rest| {
      assert file[n + i + |d|] == rest[i + |d|];
    }
  }

  lemma TrimmedFromShift(file: string, n: nat, m: nat)
    requires n + m <= |file|
    ensures TrimmedFrom(file, n + m) <==> TrimmedFrom(file[n..], m)
  {
    var rest := file[n..];
    if TrimmedFrom(rest, m) {
      forall k | n + m <= k < |file| ensures file[k] in Trimmed {
        assert file[k] == rest[k - n];
      }
    }
    if TrimmedFrom(file, n + m) {
      forall k | m <= k < |rest| ensures rest[k] in Trimmed {
        assert rest[k] == file[k + n];
      }
    }
  }

  /** Where an event goes in author mode: the next-level directory under the
      first matching folder, or nowhere when no folder matches. */
  function BucketOf(folders: seq<string>, file: string): (r: Option<string>)
    ensures r.Some? <==> AnyStartsWith(folders, file)
    ensures r.Some? ==> '/' !in r.value
  {
    match FirstMatch(folders, file)
    case Some(f) => Some(NextLevelDirectory(file, f))
    case None => None
  }
}
