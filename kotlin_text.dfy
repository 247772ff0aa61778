/** The Kotlin standard-library string operations that main.kt relies on,
    stated on `string`. Kotlin strings are sequences of UTF-16 code units and
    Dafny's are sequences of Unicode scalar values; the operations used here
    (ASCII whitespace, `@`, `/`, `{`, `}`, ASCII digits and prefixes) agree on
    both. */
module KotlinText {
  import opened Wrappers

  /** The class `\s` of java.util.regex: space, tab, newline, vertical tab,
      form feed and carriage return. */
  predicate IsWhitespace(c: char) {
    c == ' ' || c == '\t' || c == '\n' || c == '\U{000B}' || c == '\U{000C}' || c == '\r'
  }

  predicate NoWhitespace(s: string) {
    forall k :: 0 <= k < |s| ==> !IsWhitespace(s[k])
  }

  /** `startsWith(prefix)`. */
  predicate StartsWith(s: string, prefix: string) {
    |prefix| <= |s| && s[..|prefix|] == prefix
  }

  /** Index of the first whitespace character at or after `i`, or `|s|`. */
  function SpaceFrom(s: string, i: nat): (j: nat)
    requires i <= |s|
    ensures i <= j <= |s|
    ensures NoWhitespace(s[i..j])
    ensures j < |s| ==> IsWhitespace(s[j])
    decreases |s| - i
  {
    if i == |s| || IsWhitespace(s[i]) then i else SpaceFrom(s, i + 1)
  }

  /** The first whitespace character is the one at `n`. */
  lemma FirstSpace(s: string, n: nat)
    requires n < |s| && NoWhitespace(s[..n]) && IsWhitespace(s[n])
    ensures SpaceFrom(s, 0) == n
  {
  }

  /** Index of the first non-whitespace character at or after `i`, or `|s|`. */
  function WordFrom(s: string, i: nat): (j: nat)
    requires i <= |s|
    ensures i <= j <= |s|
    ensures forall k :: i <= k < j ==> IsWhitespace(s[k])
    ensures j < |s| ==> !IsWhitespace(s[j])
    decreases |s| - i
  {
    if i == |s| || !IsWhitespace(s[i]) then i else WordFrom(s, i + 1)
  }

  /** The characters of `s` that are not whitespace, in order. */
  function Squeeze(s: string): string {
    if s == [] then []
    else (if IsWhitespace(s[0]) then [] else [s[0]]) + Squeeze(s[1..])
  }

  function Concat(fields: seq<string>): string {
    if fields == [] then [] else fields[0] + Concat(fields[1..])
  }

  /** `s.split(Regex("\\s+"))`: cut at every maximal run of whitespace.
      Kotlin keeps empty fields, so a leading run yields an empty first field
      and a trailing run an empty last field. The fields hold no whitespace,
      and together they are `s` with its whitespace taken out. */
  function Split(s: string): (fields: seq<string>)
    ensures |fields| >= 1
    ensures forall k :: 0 <= k < |fields| ==> NoWhitespace(fields[k])
    ensures Concat(fields) == Squeeze(s)
    decreases |s|
  {
    var i := SpaceFrom(s, 0);
    if i == |s| then
      assert s[0..|s|] == s;
      SqueezeOfWord(s);
      [s]
    else
      var j := WordFrom(s, i);
      var rest := Split(s[j..]);
      assert NoWhitespace(s[..i]) by { assert s[0..i] == s[..i]; }
      SqueezeSplit(s, i, j);
      [s[..i]] + rest
  }

  lemma {:induction false} SqueezeOfWord(s: string)
    requires NoWhitespace(s)
    ensures Squeeze(s) == s
  {
    if s != [] {
      SqueezeOfWord(s[1..]);
    }
  }

  lemma {:induction false} SqueezeOfSpaces(s: string)
    requires forall k :: 0 <= k < |s| ==> IsWhitespace(s[k])
    ensures Squeeze(s) == []
  {
    if s != [] {
      SqueezeOfSpaces(s[1..]);
    }
  }

  lemma {:induction false} SqueezeAppend(a: string, b: string)
    ensures Squeeze(a + b) == Squeeze(a) + Squeeze(b)
  {
    if a == [] {
      assert a + b == b;
    } else {
      assert (a + b)[1..] == a[1..] + b;
      SqueezeAppend(a[1..], b);
    }
  }

  lemma {:induction false} SqueezeSplit(s: string, i: nat, j: nat)
    requires i <= j <= |s|
    requires NoWhitespace(s[..i])
    requires forall k :: i <= k < j ==> IsWhitespace(s[k])
    ensures Squeeze(s) == s[..i] + Squeeze(s[j..])
  {
    if i > 0 {
      var t := s[1..];
      assert !IsWhitespace(s[0]) by { assert s[..i][0] == s[0]; }
      var w := t[..i - 1];
      assert NoWhitespace(w) by {
        forall k | 0 <= k < |w| ensures !IsWhitespace(w[k]) {
          assert w[k] == s[..i][k + 1];
        }
      }
      SqueezeSplit(t, i - 1, j - 1);
      assert t[j - 1..] == s[j..];
      assert [s[0]] + t[..i - 1] == s[..i];
    } else if j > 0 {
      var t := s[1..];
      assert IsWhitespace(s[0]);
      assert t[..0] == [];
      SqueezeSplit(t, 0, j - 1);
      assert t[j - 1..] == s[j..];
    } else {
      assert s[j..] == s;
    }
  }

  /** A text without whitespace is a single field. */
  lemma SplitNoSpace(word: string)
    requires NoWhitespace(word)
    ensures Split(word) == [word]
  {
    assert word[0..|word|] == word;
  }

  /** `WordFrom` stops at the end of a run of whitespace. */
  lemma {:induction false} WordFromRun(s: string, i: nat, m: nat)
    requires i <= m <= |s|
    requires forall k :: i <= k < m ==> IsWhitespace(s[k])
    requires m == |s| || !IsWhitespace(s[m])
    ensures WordFrom(s, i) == m
    decreases m - i
  {
    if i < m {
      WordFromRun(s, i + 1, m);
    }
  }

  /** A word, a run of whitespace, and a remainder that does not start with
      whitespace: the word is the first field and the remainder gives the
      rest. With `[]` or a word and `rest == []`, this pins down every cut:
      a leading run yields an empty first field and a trailing run an empty
      last field (`SplitLeadingRun`, `SplitTrailingRun`). */
  lemma SplitRun(word: string, sep: string, rest: string)
    requires NoWhitespace(word)
    requires |sep| >= 1 && forall k :: 0 <= k < |sep| ==> IsWhitespace(sep[k])
    requires rest == [] || !IsWhitespace(rest[0])
    ensures Split(word + sep + rest) == [word] + Split(rest)
  {
    var s := word + sep + rest;
    var n, m := |word|, |word| + |sep|;
    assert s[..n] == word;
    assert s[n] == sep[0];
    FirstSpace(s, n);
    forall k | n <= k < m ensures IsWhitespace(s[k]) {
      assert s[k] == sep[k - n];
    }
    assert m < |s| ==> s[m] == rest[0];
    WordFromRun(s, n, m);
    assert s[m..] == rest;
  }

  /** A leading run of whitespace gives an empty first field. */
  lemma SplitLeadingRun(sep: string, rest: string)
    requires |sep| >= 1 && forall k :: 0 <= k < |sep| ==> IsWhitespace(sep[k])
    requires rest == [] || !IsWhitespace(rest[0])
    ensures Split(sep + rest) == [[]] + Split(rest)
  {
    var empty: string := [];
    assert empty + sep + rest == sep + rest;
    SplitRun(empty, sep, rest);
  }

  /** A trailing run of whitespace gives an empty last field. */
  lemma SplitTrailingRun(word: string, sep: string)
    requires NoWhitespace(word)
    requires |sep| >= 1 && forall k :: 0 <= k < |sep| ==> IsWhitespace(sep[k])
    ensures Split(word + sep) == [word, ""]
  {
    var empty: string := [];
    SplitRun(word, sep, empty);
    assert word + sep + empty == word + sep;
    SplitNoSpace(empty);
  }

  /** A remainder that does not start with whitespace: its first field is the
      text up to the first whitespace character. */
  lemma SplitHead(s: string)
    requires s == [] || !IsWhitespace(s[0])
    ensures Split(s)[0] == s[..SpaceFrom(s, 0)]
  {
  }

  /** `substringBefore(delimiter)` for a one-character delimiter: the text
      before the first `c`, or all of `s` when `c` does not occur. */
  function SubstringBefore(s: string, c: char): (r: string)
    ensures |r| <= |s| && r == s[..|r|]
    ensures c !in r
    ensures |r| < |s| ==> s[|r|] == c
  {
    if s == [] || s[0] == c then [] else [s[0]] + SubstringBefore(s[1..], c)
  }

  /** `d` occurs in `s` starting at index `k`. */
  predicate OccursAt(s: string, d: string, k: nat) {
    k + |d| <= |s| && s[k..k + |d|] == d
  }

  /** Index of the first occurrence of `d` in `s` at or after `i`. */
  function IndexOfFrom(s: string, d: string, i: nat): (r: Option<nat>)
    requires i <= |s|
    ensures r.Some? ==> i <= r.value && OccursAt(s, d, r.value)
    ensures r.Some? ==> forall k :: i <= k < r.value ==> !OccursAt(s, d, k)
    ensures r.None? ==> forall k :: i <= k <= |s| ==> !OccursAt(s, d, k)
    decreases |s| - i
  {
    if OccursAt(s, d, i) then Some(i)
    else if i == |s| then None
    else IndexOfFrom(s, d, i + 1)
  }

  /** `substringAfter(delimiter)`: the text after the first occurrence of `d`,
      or all of `s` when `d` does not occur. It is a suffix of `s`; when `s`
      starts with `d`, the first occurrence is at 0, so it is `s` without
      that prefix (the empty `d` included). */
  function SubstringAfter(s: string, d: string): (r: string)
    ensures |r| <= |s| && r == s[|s| - |r|..]
    ensures StartsWith(s, d) ==> r == s[|d|..]
  {
    assert StartsWith(s, d) ==> OccursAt(s, d, 0) by {
      if StartsWith(s, d) {
        assert s[0..|d|] == s[..|d|];
      }
    }
    match IndexOfFrom(s, d, 0)
    case Some(i) => s[i + |d|..]
    case None => s
  }

  /** The first index at or after `i` whose character is not in `cs`, or
      `|s|`: the forward scan of `trim`. */
  function SkipIn(s: string, cs: set<char>, i: nat): (j: nat)
    requires i <= |s|
    ensures i <= j <= |s|
    ensures forall k :: i <= k < j ==> s[k] in cs
    ensures j < |s| ==> s[j] !in cs
    decreases |s| - i
  {
    if i < |s| && s[i] in cs then SkipIn(s, cs, i + 1) else i
  }

  /** The end of the stretch `s[i..e]` left once the characters of `cs`
      before `j` are dropped from the back: the backward scan of `trim`,
      which stops at `i`. */
  function BackIn(s: string, cs: set<char>, i: nat, j: nat): (e: nat)
    requires i <= j <= |s|
    ensures i <= e <= j
    ensures forall k :: e <= k < j ==> s[k] in cs
    ensures e > i ==> s[e - 1] !in cs
    decreases j
  {
    if j > i && s[j - 1] in cs then BackIn(s, cs, i, j - 1) else j
  }

  /** `trim(vararg chars)`: drop characters of `cs` from both ends. The result
      is the stretch `s[i..j]` where everything outside it is in `cs` and its
      own first and last characters are not. */
  function Trim(s: string, cs: set<char>): (r: string)
    ensures exists i, j :: 0 <= i <= j <= |s| && r == s[i..j]
                           && (forall k :: 0 <= k < i ==> s[k] in cs)
                           && (forall k :: j <= k < |s| ==> s[k] in cs)
    ensures r != [] ==> r[0] !in cs && r[|r| - 1] !in cs
  {
    var i := SkipIn(s, cs, 0);
    var j := BackIn(s, cs, i, |s|);
    assert forall k :: j <= k < |s| ==> s[k] in cs;
    s[i..j]
  }

  function DigitValue(c: char): nat
    requires '0' <= c <= '9'
  {
    (c as int) - ('0' as int)
  }

  predicate AllDigits(s: string) {
    forall k :: 0 <= k < |s| ==> '0' <= s[k] <= '9'
  }

  /** The value of a string of decimal digits, most significant first. */
  function DigitsValue(s: string): nat
    requires AllDigits(s)
  {
    if s == [] then 0 else DigitsValue(s[..|s| - 1]) * 10 + DigitValue(s[|s| - 1])
  }

  function DigitChar(d: nat): (c: char)
    requires d < 10
    ensures '0' <= c <= '9' && DigitValue(c) == d
  {
    ('0' as int + d) as char
  }

  /** The shortest decimal rendering of `n`, as `Int.toString` gives it. */
  function Decimal(n: nat): (s: string)
    ensures |s| >= 1 && AllDigits(s)
  {
    if n < 10 then [DigitChar(n)] else Decimal(n / 10) + [DigitChar(n % 10)]
  }

  lemma DigitsSnoc(head: string, c: char)
    requires AllDigits(head) && '0' <= c <= '9'
    ensures DigitsValue(head + [c]) == DigitsValue(head) * 10 + DigitValue(c)
  {
    var s := head + [c];
    assert s[..|s| - 1] == head;
  }

  const MinInt: int := -0x8000_0000
  const MaxInt: int := 0x7FFF_FFFF

  predicate IsSign(c: char) {
    c == '+' || c == '-'
  }

  /** An optional `+` or `-` followed by at least one ASCII digit. */
  predicate IsNumeral(s: string) {
    s != [] && if IsSign(s[0]) then |s| >= 2 && AllDigits(s[1..]) else AllDigits(s)
  }

  /** The signed value a numeral spells. */
  function NumeralValue(s: string): int
    requires IsNumeral(s)
  {
    if s[0] == '-' then - (DigitsValue(s[1..]) as int)
    else if s[0] == '+' then DigitsValue(s[1..])
    else DigitsValue(s)
  }

  /** `toIntOrNull()`: a numeral whose value lies inside the 32-bit `Int`
      range gives that value; anything else gives null. Leading zeros are
      accepted. */
  function ToIntOrNull(s: string): (r: Option<int>)
    ensures r.Some? <==> IsNumeral(s) && MinInt <= NumeralValue(s) <= MaxInt
    ensures r.Some? ==> r.value == NumeralValue(s) && MinInt <= r.value <= MaxInt
  {
    if s == [] then None
    else
      var negative := s[0] == '-';
      var digits := if s[0] == '-' || s[0] == '+' then s[1..] else s;
      if digits == [] || !AllDigits(digits) then None
      else
        var v: int := if negative then - (DigitsValue(digits) as int) else DigitsValue(digits);
        if MinInt <= v <= MaxInt then Some(v) else None
  }

  /** A text with a character that is not a digit, other than a sign in
      front, is not a number. */
  lemma ToIntOrNullRejectsNonDigit(s: string, k: nat)
    requires k < |s| && !('0' <= s[k] <= '9') && !(k == 0 && IsSign(s[0]))
    ensures !IsNumeral(s) && ToIntOrNull(s) == None
  {
    if k > 0 && IsSign(s[0]) {
      assert s[1..][k - 1] == s[k];
    }
  }

  lemma {:induction false} DigitsOfDecimal(n: nat)
    ensures DigitsValue(Decimal(n)) == n
  {
    if n < 10 {
      assert Decimal(n) == [] + [DigitChar(n)];
      DigitsSnoc([], DigitChar(n));
    } else {
      DigitsOfDecimal(n / 10);
      DigitsSnoc(Decimal(n / 10), DigitChar(n % 10));
    }
  }

  lemma DecimalHasNoWhitespace(n: nat)
    ensures NoWhitespace(Decimal(n))
  {
  }

  /** `toIntOrNull` reads back what `toString` wrote, for every `Int`. */
  lemma ToIntOrNullOfDecimal(n: int)
    requires MinInt <= n <= MaxInt
    ensures n >= 0 ==> ToIntOrNull(Decimal(n)) == Some(n)
    ensures n < 0 ==> ToIntOrNull("-" + Decimal(-n)) == Some(n)
  {
    if n >= 0 {
      DigitsOfDecimal(n);
    } else {
      var s := "-" + Decimal(-n);
      assert s[1..] == Decimal(-n);
      DigitsOfDecimal(-n);
    }
  }

  /** The numstat marker of a binary file, a lone `-`, is not a number; nor
      are a lone `+` and the empty field. */
  lemma ToIntOrNullRejectsMarkers()
    ensures ToIntOrNull("-") == None
    ensures ToIntOrNull("+") == None
    ensures ToIntOrNull("") == None
  {
  }
}
