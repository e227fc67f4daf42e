/** The parts of Python's `str` that the crawler leans on: whitespace and `strip()`,
    `replace`, `split`/`join`, and the decimal text of an `int` inside an f-string. */
module Strings {

  /** `str.isspace()` of one character (CPython's whitespace table). The regular expression
      class `\s` of a `str` pattern is the same set. */
  predicate IsSpace(c: char) {
    ('\t' <= c <= '\r') || ('\U{1C}' <= c <= ' ') || c == '\U{85}' || c == '\U{A0}'
    || c == '\U{1680}' || ('\U{2000}' <= c <= '\U{200A}') || c == '\U{2028}' || c == '\U{2029}'
    || c == '\U{202F}' || c == '\U{205F}' || c == '\U{3000}'
  }

  predicate NoSpace(s: string) {
    forall i :: 0 <= i < |s| ==> !IsSpace(s[i])
  }

  function StripLeading(s: string): (r: string)
    ensures |r| <= |s| && r == s[|s| - |r|..]
    ensures r != [] ==> !IsSpace(r[0])
    ensures NoSpace(s) ==> r == s
  {
    if s != [] && IsSpace(s[0]) then StripLeading(s[1..]) else s
  }

  function StripTrailing(s: string): (r: string)
    ensures |r| <= |s| && r == s[..|r|]
    ensures r != [] ==> !IsSpace(r[|r| - 1])
    ensures NoSpace(s) ==> r == s
  {
    if s != [] && IsSpace(s[|s| - 1]) then StripTrailing(s[..|s| - 1]) else s
  }

  /** `s.strip()`: `s` without its leading and trailing whitespace. */
  function Strip(s: string): (r: string)
    ensures r != [] ==> !IsSpace(r[0]) && !IsSpace(r[|r| - 1])
    ensures NoSpace(s) ==> r == s
  {
    var t := StripLeading(s);
    assert NoSpace(s) ==> t == s;
    StripTrailing(t)
  }

  lemma {:induction false} StripLeadingAppend(s: string, t: string)
    ensures StripLeading(s + t) == if StripLeading(s) == [] then StripLeading(t) else StripLeading(s) + t
    decreases |s|
  {
    if s != [] {
      assert (s + t)[0] == s[0] && (s + t)[1..] == s[1..] + t;
      if IsSpace(s[0]) {
        StripLeadingAppend(s[1..], t);
      }
    } else {
      assert s + t == t;
    }
  }

  /** Python keeps the line break at the end of every line it reads from a file; `strip()`
      removes it again, so a trailing whitespace character never changes the stripped line. */
  lemma StripIgnoresTrailingSpace(s: string, c: char)
    requires IsSpace(c)
    ensures Strip(s + [c]) == Strip(s)
  {
    StripLeadingAppend(s, [c]);
    var t := StripLeading(s);
    if t != [] {
      assert (t + [c])[..|t|] == t;
    }
  }

  lemma {:induction false} StripLeadingDrops(s: string)
    ensures forall i :: 0 <= i < |s| - |StripLeading(s)| ==> IsSpace(s[i])
    decreases |s|
  {
    if s != [] && IsSpace(s[0]) {
      StripLeadingDrops(s[1..]);
      forall i | 1 <= i < |s| - |StripLeading(s)|
        ensures IsSpace(s[i])
      {
        assert s[i] == s[1..][i - 1];
      }
    }
  }

  lemma {:induction false} StripTrailingDrops(s: string)
    ensures forall i :: |StripTrailing(s)| <= i < |s| ==> IsSpace(s[i])
    decreases |s|
  {
    if s != [] && IsSpace(s[|s| - 1]) {
      StripTrailingDrops(s[..|s| - 1]);
      forall i | |StripTrailing(s)| <= i < |s| - 1
        ensures IsSpace(s[i])
      {
        assert s[i] == s[..|s| - 1][i];
      }
    }
  }

  /** Everything of `s` outside `s[a..b]` is whitespace. */
  predicate OnlySpaceOutside(s: string, a: int, b: int) {
    && 0 <= a <= b <= |s|
    && (forall i :: 0 <= i < a ==> IsSpace(s[i]))
    && (forall i :: b <= i < |s| ==> IsSpace(s[i]))
  }

  /** `strip()` removes whitespace from both ends and nothing else: the result is a slice of the
      line, everything before and after it is whitespace, and it neither starts nor ends with
      whitespace. */
  lemma StripTrims(s: string)
    ensures exists a, b :: OnlySpaceOutside(s, a, b) && Strip(s) == s[a..b]
    ensures Strip(s) != [] ==> !IsSpace(Strip(s)[0]) && !IsSpace(Strip(s)[|Strip(s)| - 1])
  {
    var a := |s| - |StripLeading(s)|;
    StripSlice(s);
    StripOutside(s);
    assert OnlySpaceOutside(s, a, a + |Strip(s)|);
  }

  lemma StripSlice(s: string)
    ensures var a := |s| - |StripLeading(s)|;
      a + |Strip(s)| <= |s| && Strip(s) == s[a..a + |Strip(s)|]
  {
    var t := StripLeading(s);
    var r := StripTrailing(t);
    assert Strip(s) == r;
    PrefixOfSuffix(s, |s| - |t|, r);
  }

  lemma PrefixOfSuffix(s: string, a: nat, r: string)
    requires a <= |s| && |r| <= |s| - a && r == s[a..][..|r|]
    ensures r == s[a..a + |r|]
  {
  }

  lemma StripOutside(s: string)
    requires |s| - |StripLeading(s)| + |Strip(s)| <= |s|
    ensures var a := |s| - |StripLeading(s)|;
      OnlySpaceOutside(s, a, a + |Strip(s)|)
  {
    var t := StripLeading(s);
    var a := |s| - |t|;
    StripLeadingDrops(s);
    StripTrailingDrops(t);
    assert t == s[a..];
    SpaceAfter(s, t, a, |Strip(s)|);
  }

  lemma SpaceAfter(s: string, t: string, a: nat, r: nat)
    requires a <= |s| && t == s[a..]
    requires forall j :: r <= j < |t| ==> IsSpace(t[j])
    ensures forall i :: a + r <= i < |s| ==> IsSpace(s[i])
  {
    forall i | a + r <= i < |s|
      ensures IsSpace(s[i])
    {
      assert s[i] == t[i - a];
    }
  }

  /** `pat` occurs in `s` starting at index `i`. */
  predicate OccursAt(s: string, pat: string, i: int) {
    0 <= i && i + |pat| <= |s| && s[i..i + |pat|] == pat
  }

  /** Python's `pat in s`. */
  ghost predicate Contains(s: string, pat: string) {
    exists i :: OccursAt(s, pat, i)
  }

  /** `s.replace(target, replacement)`: every non-overlapping occurrence of `target`, found from
      left to right, is replaced. */
  function Replace(s: string, target: string, replacement: string): (r: string)
    requires target != []
    ensures !Contains(s, target) ==> r == s
    ensures s != [] && replacement != [] ==> r != []
    decreases |s|
  {
    if |s| < |target| then s
    else if s[..|target|] == target then
      assert OccursAt(s, target, 0);
      replacement + Replace(s[|target|..], target, replacement)
    else
      assert forall i :: OccursAt(s[1..], target, i) ==> OccursAt(s, target, i + 1);
      [s[0]] + Replace(s[1..], target, replacement)
  }

  /** `sep.join(parts)`. */
  function Join(sep: string, parts: seq<string>): string {
    if parts == [] then []
    else if |parts| == 1 then parts[0]
    else parts[0] + sep + Join(sep, parts[1..])
  }

  /** `s.split(sep)` for a non-empty separator: the pieces between the non-overlapping
      occurrences of `sep`, found from left to right. */
  function Split(s: string, sep: string): (parts: seq<string>)
    requires sep != []
    ensures parts != []
    decreases |s|
  {
    if |s| < |sep| then [s]
    else if s[..|sep|] == sep then [[]] + Split(s[|sep|..], sep)
    else
      var rest := Split(s[1..], sep);
      [[s[0]] + rest[0]] + rest[1..]
  }

  lemma JoinFront(sep: string, x: string, rest: seq<string>)
    requires rest != []
    ensures Join(sep, [x] + rest) == x + sep + Join(sep, rest)
  {
    assert ([x] + rest)[1..] == rest;
  }

  lemma JoinGlued(sep: string, c: char, rest: seq<string>)
    requires rest != []
    ensures Join(sep, [[c] + rest[0]] + rest[1..]) == [c] + Join(sep, rest)
  {
    var parts := [[c] + rest[0]] + rest[1..];
    if |rest| > 1 {
      assert parts[1..] == rest[1..];
      assert Join(sep, rest) == rest[0] + sep + Join(sep, rest[1..]);
    }
  }

  /** `s.replace(a, b) == b.join(s.split(a))`: the replacement agrees with the independent
      definition through `split` and `join`. */
  lemma {:induction false} ReplaceIsJoinOfSplit(s: string, target: string, replacement: string)
    requires target != []
    ensures Replace(s, target, replacement) == Join(replacement, Split(s, target))
    decreases |s|
  {
    if |s| < |target| {
    } else if s[..|target|] == target {
      var tail := s[|target|..];
      assert Replace(s, target, replacement) == replacement + Replace(tail, target, replacement);
      assert Split(s, target) == [[]] + Split(tail, target);
      ReplaceIsJoinOfSplit(tail, target, replacement);
      JoinFront(replacement, [], Split(tail, target));
      assert [] + replacement == replacement;
    } else {
      var tail := s[1..];
      assert Replace(s, target, replacement) == [s[0]] + Replace(tail, target, replacement);
      var rest := Split(tail, target);
      assert Split(s, target) == [[s[0]] + rest[0]] + rest[1..];
      ReplaceIsJoinOfSplit(tail, target, replacement);
      JoinGlued(replacement, s[0], rest);
    }
  }

  predicate IsDigit(c: char) {
    '0' <= c <= '9'
  }

  function DigitChar(d: nat): (c: char)
    requires d < 10
    ensures IsDigit(c)
  {
    ('0' as int + d) as char
  }

  /** `str(n)` / `f"{n}"` of a non-negative `int`: decimal digits, no leading zero. */
  function Decimal(n: nat): (r: string)
    ensures r != [] && forall i :: 0 <= i < |r| ==> IsDigit(r[i])
    ensures (r[0] == '0') == (n == 0)
  {
    if n < 10 then [DigitChar(n)] else Decimal(n / 10) + [DigitChar(n % 10)]
  }

  /** The number a string of decimal digits denotes. */
  function DigitsValue(s: string): nat
    requires forall i :: 0 <= i < |s| ==> IsDigit(s[i])
  {
    if s == [] then 0
    else
      assert IsDigit(s[|s| - 1]);
      DigitsValue(s[..|s| - 1]) * 10 + (s[|s| - 1] as int - '0' as int)
  }

  /** Reading the digits back gives the number: the decimal text names `n` and nothing else. */
  lemma {:induction false} DecimalRoundTrip(n: nat)
    ensures DigitsValue(Decimal(n)) == n
  {
    if n >= 10 {
      DecimalRoundTrip(n / 10);
      var r := Decimal(n);
      assert r[..|r| - 1] == Decimal(n / 10);
    }
  }
}
