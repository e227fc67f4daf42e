/** The link extractor of `fetch_content_and_extract`: the regular expression
      https?://[^\s"'\)\<\>\[\]]+?api/v1/client/subscribe\?token=[a-zA-Z0-9\-_]+
    applied with `findall`, followed by the strip-and-drop-empty clean-up. The expression is
    written out as a scanner over the text: a scheme, a lazy middle of at least one allowed
    character, the literal marker, and a greedy token. */
module LinkPattern {
  import opened Wrappers
  import opened Strings

  /** The literal path and query between the middle part and the token. */
  const Marker := "api/v1/client/subscribe?token="

  /** The characters the middle part may not contain: whitespace and `" ' ) < > [ ]`.
      An opening parenthesis is allowed. */
  predicate Excluded(c: char) {
    IsSpace(c) || c == '"' || c == '\'' || c == ')' || c == '<' || c == '>' || c == '[' || c == ']'
  }

  /** `[a-zA-Z0-9\-_]` */
  predicate IsTokenChar(c: char) {
    ('a' <= c <= 'z') || ('A' <= c <= 'Z') || ('0' <= c <= '9') || c == '-' || c == '_'
  }

  predicate StartsWith(s: string, prefix: string) {
    |prefix| <= |s| && s[..|prefix|] == prefix
  }

  /** Length of the `https?://` that `s` starts with; 0 when it starts with neither. */
  function SchemeLength(s: string): (k: nat)
    ensures k == 0 || k == 7 || k == 8
    ensures k == 8 <==> StartsWith(s, "https://")
    ensures k == 7 <==> StartsWith(s, "http://") && !StartsWith(s, "https://")
  {
    if StartsWith(s, "https://") then 8 else if StartsWith(s, "http://") then 7 else 0
  }

  /** End of the greedy run of token characters that starts at `i`. */
  function TokenEnd(s: string, i: nat): (e: nat)
    requires i <= |s|
    ensures i <= e <= |s|
    ensures forall k :: i <= k < e ==> IsTokenChar(s[k])
    ensures e == |s| || !IsTokenChar(s[e])
    decreases |s| - i
  {
    if i < |s| && IsTokenChar(s[i]) then TokenEnd(s, i + 1) else i
  }

  /** The marker followed by at least one token character stands at `j`. */
  predicate TailAt(s: string, j: nat) {
    j + |Marker| < |s| && s[j..j + |Marker|] == Marker && IsTokenChar(s[j + |Marker|])
  }

  /** The lazy `+?` after the scheme: try the tail at `j`; if it fails, widen the middle by one
      character while that character is allowed. The result is the first position where the
      tail matches, reached over allowed characters only. */
  function FirstTail(s: string, j: nat): (r: Option<nat>)
    requires j <= |s|
    ensures r.Some? ==> j <= r.value && TailAt(s, r.value)
    ensures r.Some? ==> forall k :: j <= k < r.value ==> !Excluded(s[k]) && !TailAt(s, k)
    decreases |s| - j
  {
    if TailAt(s, j) then Some(j)
    else if j < |s| && !Excluded(s[j]) then FirstTail(s, j + 1)
    else None
  }

  /** When the lazy middle gives up, no tail stands anywhere it could have widened to. */
  lemma {:induction false} FirstTailMisses(s: string, j: nat, k: nat)
    requires j <= k <= |s| && FirstTail(s, j).None?
    requires forall m :: j <= m < k ==> !Excluded(s[m])
    ensures !TailAt(s, k)
    decreases k - j
  {
    FirstTailGivesUp(s, j);
    if j < k {
      FirstTailMisses(s, j + 1, k);
    }
  }

  lemma FirstTailGivesUp(s: string, j: nat)
    requires j <= |s| && FirstTail(s, j).None?
    ensures !TailAt(s, j)
    ensures j < |s| && !Excluded(s[j]) ==> FirstTail(s, j + 1).None?
  {
  }

  /** The end of the match that the expression makes at the very start of `s`, if any. */
  function MatchEnd(s: string): (r: Option<nat>)
    ensures r.Some? ==> 0 < r.value <= |s|
  {
    var k := SchemeLength(s);
    if k == 0 || k == |s| || Excluded(s[k]) then None
    else match FirstTail(s, k + 1)
      case None => None
      case Some(j) => Some(TokenEnd(s, j + |Marker|))
  }

  /** `findall`: matches from left to right; after a match the scan resumes at its end, after a
      failure at the next character. */
  function FindAll(s: string): (r: seq<string>)
    ensures |r| <= |s|
    ensures forall k :: 0 <= k < |r| ==> r[k] != []
    decreases |s|
  {
    if s == [] then []
    else match MatchEnd(s)
      case Some(e) => [s[..e]] + FindAll(s[e..])
      case None => FindAll(s[1..])
  }

  /** `{link.strip() for link in findall(text) if link.strip()}`: since a match is never empty
      and never carries whitespace, the clean-up keeps every match as it is. */
  function Extract(text: string): (r: set<string>)
    ensures r == set f | f in FindAll(text)
  {
    FindAllStripped(text);
    set f | f in FindAll(text) && Strip(f) != [] :: Strip(f)
  }

  /** `f` reads as `https?://`, then one or more allowed characters, then the marker at `j`,
      then a non-empty token that runs to the end of `f`. */
  predicate SplitsAt(f: string, j: int) {
    var k := SchemeLength(f);
    0 < k < j && j + |Marker| < |f| && f[j..j + |Marker|] == Marker
    && (forall i :: k <= i < j ==> !Excluded(f[i]))
    && (forall i :: j + |Marker| <= i < |f| ==> IsTokenChar(f[i]))
  }

  /** `f` has the shape of a subscription link. */
  ghost predicate IsLink(f: string) {
    exists j :: SplitsAt(f, j)
  }

  /** Scanned on its own, `f` is one match from its first character to its last. */
  predicate IsWholeMatch(f: string) {
    MatchEnd(f) == Some(|f|)
  }

  lemma SchemeOfPrefix(s: string, e: nat)
    requires 8 <= e <= |s|
    ensures SchemeLength(s[..e]) == SchemeLength(s)
  {
    assert s[..e][..8] == s[..8];
    assert s[..e][..7] == s[..7];
  }

  lemma MarkerAllowed()
    ensures forall i :: 0 <= i < |Marker| ==> !Excluded(Marker[i])
  {
  }

  lemma SchemeAllowed(f: string)
    requires SchemeLength(f) > 0
    ensures forall i :: 0 <= i < SchemeLength(f) ==> !Excluded(f[i])
  {
    if SchemeLength(f) == 8 {
      assert f[..8] == "https://";
      assert forall i :: 0 <= i < 8 ==> f[i] == "https://"[i];
    } else {
      assert f[..7] == "http://";
      assert forall i :: 0 <= i < 7 ==> f[i] == "http://"[i];
    }
  }

  /** Every match has the shape of a link. */
  lemma MatchIsLink(s: string)
    requires MatchEnd(s).Some?
    ensures IsLink(s[..MatchEnd(s).value])
  {
    var e := MatchEnd(s).value;
    var k := SchemeLength(s);
    var j := FirstTail(s, k + 1).value;
    SchemeOfPrefix(s, e);
    PrefixSplitsAt(s, e, j);
  }

  /** A split of the text that ends at `e` is a split of the prefix cut at `e`. */
  lemma PrefixSplitsAt(s: string, e: nat, j: nat)
    requires e <= |s| && SchemeLength(s[..e]) == SchemeLength(s)
    requires 0 < SchemeLength(s) < j && j + |Marker| < e
    requires s[j..j + |Marker|] == Marker
    requires forall i :: SchemeLength(s) <= i < j ==> !Excluded(s[i])
    requires forall i :: j + |Marker| <= i < e ==> IsTokenChar(s[i])
    ensures SplitsAt(s[..e], j)
  {
    var f := s[..e];
    assert f[j..j + |Marker|] == s[j..j + |Marker|];
    assert forall i :: 0 <= i < e ==> f[i] == s[i];
  }

  lemma {:induction false} FirstTailOfPrefix(s: string, e: nat, j0: nat)
    requires j0 <= |s| && FirstTail(s, j0).Some?
    requires FirstTail(s, j0).value + |Marker| < e <= |s|
    ensures FirstTail(s[..e], j0) == FirstTail(s, j0)
    decreases FirstTail(s, j0).value - j0
  {
    var j := FirstTail(s, j0).value;
    TailAtPrefix(s, e, j0);
    if j0 != j {
      FirstTailOfPrefix(s, e, j0 + 1);
      assert s[..e][j0] == s[j0];
    }
  }

  /** Whether the tail stands at `j` is decided before `e`, when the marker ends before it. */
  lemma TailAtPrefix(s: string, e: nat, j: nat)
    requires j + |Marker| < e <= |s|
    ensures TailAt(s[..e], j) == TailAt(s, j)
  {
    assert s[..e][j..j + |Marker|] == s[j..j + |Marker|];
  }

  /** Cutting the text right after a match leaves that match intact: the lazy middle only looked
      at positions before the marker, and the token now runs to the end of the text. */
  lemma MatchOfPrefix(s: string)
    requires MatchEnd(s).Some?
    ensures IsWholeMatch(s[..MatchEnd(s).value])
  {
    var e := MatchEnd(s).value;
    var t := s[..e];
    var k := SchemeLength(s);
    var j := FirstTail(s, k + 1).value;
    SchemeOfPrefix(s, e);
    FirstTailOfPrefix(s, e, k + 1);
  }

  /** The lazy middle, started at `j0`, finds a tail no later than any tail it can reach over
      allowed characters. */
  lemma {:induction false} FirstTailReaches(s: string, j0: nat, j: nat)
    requires j0 <= j && TailAt(s, j)
    requires forall m :: j0 <= m < j ==> !Excluded(s[m])
    ensures FirstTail(s, j0).Some? && FirstTail(s, j0).value <= j
    decreases j - j0
  {
    FirstTailUnfold(s, j0);
    if j0 < j && !TailAt(s, j0) {
      FirstTailReaches(s, j0 + 1, j);
    }
  }

  lemma FirstTailUnfold(s: string, j: nat)
    requires j <= |s|
    ensures TailAt(s, j) ==> FirstTail(s, j) == Some(j)
    ensures !TailAt(s, j) && j < |s| && !Excluded(s[j]) ==> FirstTail(s, j) == FirstTail(s, j + 1)
  {
  }

  /** The scan misses no link: when a link stands at the very start of the text, the expression
      matches there (the match may be shorter, since the middle is lazy). */
  lemma LinkPrefixFound(s: string, e: nat)
    requires e <= |s| && IsLink(s[..e])
    ensures MatchEnd(s).Some?
  {
    var j :| SplitsAt(s[..e], j);
    PrefixTail(s, e, j);
    FirstTailReaches(s, SchemeLength(s) + 1, j);
  }

  /** A split of a prefix of `s` is a split point of `s` itself, as far as the scheme, the middle
      and the marker go. */
  lemma PrefixTail(s: string, e: nat, j: int)
    requires e <= |s| && SplitsAt(s[..e], j)
    ensures 0 < SchemeLength(s) < j && TailAt(s, j)
    ensures forall m :: SchemeLength(s) <= m < j ==> !Excluded(s[m])
  {
    var f := s[..e];
    SchemeOfPrefix(s, e);
    assert f[j..j + |Marker|] == s[j..j + |Marker|];
    assert f[j + |Marker|] == s[j + |Marker|];
    assert forall m :: 0 <= m < j ==> s[m] == f[m];
  }

  /** Where the scan finds no match, no link starts. */
  lemma NoMatchNoLink(s: string, e: nat)
    requires MatchEnd(s).None? && e <= |s|
    ensures !IsLink(s[..e])
  {
    if IsLink(s[..e]) {
      LinkPrefixFound(s, e);
    }
  }

  /** The match the expression makes at the start of `s`, described without the scanner: `s[..e]`
      has the link shape with its marker at `j`; no marker-and-token stands in the middle before
      `j` (the lazy `+?` stops at the first); and the token cannot go on (the greedy `+` takes the
      longest run). */
  ghost predicate LeftmostMatch(s: string, e: nat, j: nat) {
    e <= |s| && SplitsAt(s[..e], j)
    && (forall m :: SchemeLength(s) < m < j ==> !TailAt(s, m))
    && (e == |s| || !IsTokenChar(s[e]))
  }

  /** The scanner makes exactly the match the regular expression describes: the earliest marker,
      then the longest token. */
  lemma MatchEndLeftmost(s: string, e: nat)
    ensures MatchEnd(s) == Some(e) <==> exists j: nat :: LeftmostMatch(s, e, j)
  {
    if MatchEnd(s) == Some(e) {
      var j := FirstTail(s, SchemeLength(s) + 1).value;
      MatchEndParts(s);
      PartsAreLeftmost(s, e, j);
    }
    if exists j: nat :: LeftmostMatch(s, e, j) {
      var j: nat :| LeftmostMatch(s, e, j);
      LeftmostHasParts(s, e, j);
      PartsAreMatchEnd(s, e, j);
    }
  }

  /** `LeftmostMatch` restated on `s` itself rather than on the prefix `s[..e]`. */
  predicate MatchParts(s: string, e: nat, j: nat) {
    var k := SchemeLength(s);
    0 < k < j && j + |Marker| < e <= |s| && s[j..j + |Marker|] == Marker
    && (forall i :: k <= i < j ==> !Excluded(s[i]))
    && (forall i :: j + |Marker| <= i < e ==> IsTokenChar(s[i]))
    && (forall m :: k < m < j ==> !TailAt(s, m))
    && (e == |s| || !IsTokenChar(s[e]))
  }

  lemma MatchEndParts(s: string)
    requires MatchEnd(s).Some?
    ensures MatchParts(s, MatchEnd(s).value, FirstTail(s, SchemeLength(s) + 1).value)
  {
  }

  lemma PartsAreLeftmost(s: string, e: nat, j: nat)
    requires MatchParts(s, e, j)
    ensures LeftmostMatch(s, e, j)
  {
    SchemeOfPrefix(s, e);
    PrefixSplitsAt(s, e, j);
  }

  lemma LeftmostHasParts(s: string, e: nat, j: nat)
    requires LeftmostMatch(s, e, j)
    ensures MatchParts(s, e, j)
  {
    PrefixTail(s, e, j);
    assert forall i :: 0 <= i < e ==> s[..e][i] == s[i];
  }

  lemma PartsAreMatchEnd(s: string, e: nat, j: nat)
    requires MatchParts(s, e, j)
    ensures MatchEnd(s) == Some(e)
  {
    var k := SchemeLength(s);
    PartsTail(s, e, j);
    FirstTailReaches(s, k + 1, j);
    FirstTailIs(s, k + 1, j);
    MatchEndVia(s, j);
    TokenEndAt(s, j + |Marker|, e);
  }

  lemma PartsTail(s: string, e: nat, j: nat)
    requires MatchParts(s, e, j)
    ensures var k := SchemeLength(s);
      k < |s| && !Excluded(s[k]) && TailAt(s, j) && (forall m :: k + 1 <= m < j ==> !Excluded(s[m]))
    ensures forall m :: SchemeLength(s) < m < j ==> !TailAt(s, m)
  {
  }

  /** A lazy middle that stops no later than `j`, with no tail before `j`, stops at `j`. */
  lemma FirstTailIs(s: string, j0: nat, j: nat)
    requires j0 <= |s| && FirstTail(s, j0).Some? && FirstTail(s, j0).value <= j
    requires forall m :: j0 <= m < j ==> !TailAt(s, m)
    ensures FirstTail(s, j0) == Some(j)
  {
  }

  /** The scanner's match, once the lazy middle has stopped at `j`. */
  lemma MatchEndVia(s: string, j: nat)
    requires var k := SchemeLength(s);
      0 < k < |s| && !Excluded(s[k]) && FirstTail(s, k + 1) == Some(j)
    ensures j + |Marker| <= |s| && MatchEnd(s) == Some(TokenEnd(s, j + |Marker|))
  {
    var k := SchemeLength(s);
    assert TailAt(s, j);
    assert !(k == 0 || k == |s| || Excluded(s[k]));
  }

  lemma {:induction false} TokenEndAt(s: string, i: nat, e: nat)
    requires i <= e <= |s|
    requires forall m :: i <= m < e ==> IsTokenChar(s[m])
    requires e == |s| || !IsTokenChar(s[e])
    ensures TokenEnd(s, i) == e
    decreases e - i
  {
    if i < e {
      TokenEndAt(s, i + 1, e);
    }
  }

  /** Each string `findall` returns is a whole match and has the shape of a link. */
  lemma {:induction false} FindAllMatches(s: string)
    ensures forall f :: f in FindAll(s) ==> IsWholeMatch(f) && IsLink(f)
    decreases |s|
  {
    if s != [] {
      match MatchEnd(s)
      case Some(e) =>
        MatchOfPrefix(s);
        MatchIsLink(s);
        FindAllMatches(s[e..]);
      case None =>
        FindAllMatches(s[1..]);
    }
  }

  /** Each string `findall` returns is non-empty and unchanged by `strip`. */
  lemma FindAllStripped(s: string)
    ensures forall f :: f in FindAll(s) ==> f != [] && Strip(f) == f
  {
    FindAllMatches(s);
    forall f | f in FindAll(s)
      ensures f != [] && Strip(f) == f
    {
      LinkCharacters(f);
    }
  }

  /** Each string `findall` returns occurs in the text. */
  lemma {:induction false} FindAllInText(s: string)
    ensures forall f :: f in FindAll(s) ==> Contains(s, f)
    decreases |s|
  {
    if s != [] {
      var d: nat := match MatchEnd(s) case Some(e) => e case None => 1;
      assert FindAll(s) == (if MatchEnd(s).Some? then [s[..d]] else []) + FindAll(s[d..]);
      FindAllInText(s[d..]);
      forall f | f in FindAll(s)
        ensures Contains(s, f)
      {
        if f in FindAll(s[d..]) {
          ContainsInSuffix(s, d, f);
        } else {
          assert OccursAt(s, f, 0);
        }
      }
    }
  }

  lemma ContainsInSuffix(s: string, d: nat, f: string)
    requires d <= |s| && Contains(s[d..], f)
    ensures Contains(s, f)
  {
    var i :| OccursAt(s[d..], f, i);
    assert s[d..][i..i + |f|] == s[i + d..i + d + |f|];
    assert OccursAt(s, f, i + d);
  }

  /** What a link is made of: it starts with `http://` or `https://`, and no character of it is
      whitespace or one of the excluded delimiters; its last character is a token character. */
  lemma LinkCharacters(f: string)
    requires IsLink(f)
    ensures StartsWith(f, "http://") || StartsWith(f, "https://")
    ensures forall i :: 0 <= i < |f| ==> !Excluded(f[i])
    ensures NoSpace(f) && f != [] && IsTokenChar(f[|f| - 1])
  {
    var j :| SplitsAt(f, j);
    var k := SchemeLength(f);
    SchemeAllowed(f);
    MarkerAllowed();
    forall i | j <= i < j + |Marker|
      ensures !Excluded(f[i])
    {
      assert f[i] == Marker[i - j];
    }
  }

  /** Every link the extractor returns has the link shape, is a whole match on its own, has no
      whitespace (so `strip()` leaves it unchanged and it is never empty), and occurs in the text. */
  lemma ExtractedLinks(text: string)
    ensures forall l :: l in Extract(text) ==>
      IsLink(l) && IsWholeMatch(l) && NoSpace(l) && l != [] && Strip(l) == l && Contains(text, l)
    ensures Extract(text) == set f | f in FindAll(text)
  {
    FindAllMatches(text);
    FindAllInText(text);
    forall f | f in FindAll(text)
      ensures NoSpace(f) && f != [] && Strip(f) == f
    {
      LinkCharacters(f);
    }
  }

  /** A whole match scanned on its own is found once, and nothing else is. */
  lemma WholeMatchAlone(f: string)
    requires IsWholeMatch(f)
    ensures FindAll(f) == [f]
  {
    assert f[..|f|] == f && f[|f|..] == [];
  }

  /** Feeding any returned link back in as the whole text yields exactly that link. */
  lemma ExtractIdempotent(text: string, l: string)
    requires l in Extract(text)
    ensures Extract(l) == {l}
  {
    var f: string :| f in FindAll(text) && Strip(f) != [] && l == Strip(f);
    FindAllMatches(text);
    assert IsWholeMatch(f) && IsLink(f);
    LinkCharacters(f);
    assert Strip(f) == f;
    WholeMatchAlone(l);
    ExtractOfOne(l);
  }

  lemma ExtractOfOne(l: string)
    requires FindAll(l) == [l] && l != [] && Strip(l) == l
    ensures Extract(l) == {l}
  {
    forall x | x in Extract(l)
      ensures x == l
    {
      var g :| g in FindAll(l) && Strip(g) != [] && x == Strip(g);
    }
    assert l in FindAll(l);
  }
  /** After a whole match that the next character cannot extend, `findall` goes on with the rest
      of the text: the match is found again, and the scan resumes right after it. */
  lemma FindAllAfterMatch(f: string, b: string)
    requires IsWholeMatch(f) && (b == [] || !IsTokenChar(b[0]))
    ensures FindAll(f + b) == [f] + FindAll(b)
  {
    var s := f + b;
    MatchEndLeftmost(f, |f|);
    var j: nat :| LeftmostMatch(f, |f|, j);
    assert s[..|f|] == f && s[|f|..] == b;
    assert |f| == |s| || s[|f|] == b[0];
    LeftmostExtends(s, |f|, j);
    MatchEndLeftmost(s, |f|);
    FindAllFound(s, |f|);
  }

  /** A leftmost match of a prefix that the next character cannot extend is one of the text. */
  lemma LeftmostExtends(s: string, e: nat, j: nat)
    requires e <= |s| && LeftmostMatch(s[..e], e, j)
    requires e == |s| || !IsTokenChar(s[e])
    ensures LeftmostMatch(s, e, j)
  {
    assert s[..e][..e] == s[..e];
    SchemeOfPrefix(s, e);
    forall m | SchemeLength(s) < m < j
      ensures !TailAt(s, m)
    {
      TailAtPrefix(s, e, m);
    }
  }

  lemma FindAllFound(s: string, e: nat)
    requires s != [] && MatchEnd(s) == Some(e)
    ensures FindAll(s) == [s[..e]] + FindAll(s[e..])
  {
  }

  lemma FindAllMissed(s: string)
    requires s != [] && MatchEnd(s).None?
    ensures FindAll(s) == FindAll(s[1..])
  {
  }

  /** `f` stands in `s` at a place that spans position `p`. */
  ghost predicate Spans(s: string, f: string, p: nat) {
    exists a: nat :: OccursAt(s, f, a) && a <= p < a + |f|
  }

  lemma SpansInSuffix(s: string, d: nat, f: string, p: nat)
    requires d <= p && d <= |s| && Spans(s[d..], f, p - d)
    ensures Spans(s, f, p)
  {
    var a: nat :| OccursAt(s[d..], f, a) && a <= p - d < a + |f|;
    assert s[a + d..a + d + |f|] == s[d..][a..a + |f|];
    assert OccursAt(s, f, a + d);
  }

  /** `findall` misses no link: wherever a link stands in the text, one of the matches returned
      stands at a place that covers the link's first character. */
  lemma {:induction false} FindAllCovers(s: string, p: nat, q: nat)
    requires p <= q <= |s| && IsLink(s[p..q])
    ensures exists i :: 0 <= i < |FindAll(s)| && Spans(s, FindAll(s)[i], p)
    decreases |s|, 1
  {
    LinkCharacters(s[p..q]);
    match MatchEnd(s)
    case Some(e) =>
      CoversFound(s, e, p, q);
    case None =>
      CoversMissed(s, p, q);
  }

  lemma {:induction false} CoversFound(s: string, e: nat, p: nat, q: nat)
    requires p < q <= |s| && IsLink(s[p..q]) && MatchEnd(s) == Some(e)
    ensures exists i :: 0 <= i < |FindAll(s)| && Spans(s, FindAll(s)[i], p)
    decreases |s|, 0
  {
    FindAllFound(s, e);
    if p < e {
      FirstSpans(s, e, p);
    } else {
      CoversAfter(s, e, p, q);
      var i :| 0 <= i < |FindAll(s[e..])| && Spans(s, FindAll(s[e..])[i], p);
      assert FindAll(s)[1..] == FindAll(s[e..]);
      SpansLater(s, FindAll(s), FindAll(s[e..]), i, p);
    }
  }

  lemma FirstSpans(s: string, e: nat, p: nat)
    requires p < e <= |s| && FindAll(s) == [s[..e]] + FindAll(s[e..])
    ensures Spans(s, FindAll(s)[0], p)
  {
    var f := FindAll(s)[0];
    assert f == s[..e] == s[0..0 + |f|];
    assert OccursAt(s, f, 0);
  }

  lemma SpansLater(s: string, all: seq<string>, rest: seq<string>, i: nat, p: nat)
    requires |all| == |rest| + 1 && all[1..] == rest
    requires i < |rest| && Spans(s, rest[i], p)
    ensures i + 1 < |all| && Spans(s, all[i + 1], p)
  {
    assert all[i + 1] == rest[i];
  }

  lemma {:induction false} CoversMissed(s: string, p: nat, q: nat)
    requires p < q <= |s| && IsLink(s[p..q]) && MatchEnd(s).None?
    ensures exists i :: 0 <= i < |FindAll(s)| && Spans(s, FindAll(s)[i], p)
    decreases |s|, 0
  {
    if p == 0 {
      LinkAtStart(s, q);
      assert false;
    }
    FindAllMissed(s);
    CoversAfter(s, 1, p, q);
  }

  /** The scan resumed at `d` covers a link that starts at or after `d`. */
  lemma {:induction false} CoversAfter(s: string, d: nat, p: nat, q: nat)
    requires 0 < d <= p <= q <= |s| && IsLink(s[p..q])
    ensures exists i :: 0 <= i < |FindAll(s[d..])| && Spans(s, FindAll(s[d..])[i], p)
    decreases |s| - d, 2
  {
    var t := s[d..];
    assert t[p - d..q - d] == s[p..q];
    FindAllCovers(t, p - d, q - d);
    var i :| 0 <= i < |FindAll(t)| && Spans(t, FindAll(t)[i], p - d);
    SpansInSuffix(s, d, FindAll(t)[i], p);
  }

  /** A link at the very start of the text is matched there. */
  lemma LinkAtStart(s: string, q: nat)
    requires q <= |s| && IsLink(s[0..q])
    ensures MatchEnd(s).Some?
  {
    assert s[..q] == s[0..q];
    LinkPrefixFound(s, q);
  }

  /** `findall` returns nothing exactly when no link stands anywhere in the text. */
  lemma FindAllEmpty(s: string)
    ensures FindAll(s) == [] <==> forall p, q :: 0 <= p <= q <= |s| ==> !IsLink(s[p..q])
  {
    if FindAll(s) != [] {
      SomeMatchIsLink(s);
    } else {
      forall p, q | 0 <= p <= q <= |s|
        ensures !IsLink(s[p..q])
      {
        NoMatchesNoLink(s, p, q);
      }
    }
  }

  lemma SomeMatchIsLink(s: string)
    requires FindAll(s) != []
    ensures exists p, q :: 0 <= p <= q <= |s| && IsLink(s[p..q])
  {
    FindAllLinks(s);
    FindAllInText(s);
    LinkInText(s, FindAll(s)[0]);
  }

  lemma LinkInText(s: string, f: string)
    requires IsLink(f) && Contains(s, f)
    ensures exists p, q :: 0 <= p <= q <= |s| && IsLink(s[p..q])
  {
    var a :| OccursAt(s, f, a);
    assert IsLink(s[a..a + |f|]);
  }

  lemma FindAllLinks(s: string)
    ensures forall f :: f in FindAll(s) ==> IsLink(f)
  {
    FindAllMatches(s);
  }

  lemma NoMatchesNoLink(s: string, p: nat, q: nat)
    requires FindAll(s) == [] && p <= q <= |s|
    ensures !IsLink(s[p..q])
  {
    if IsLink(s[p..q]) {
      FindAllCovers(s, p, q);
    }
  }
}
