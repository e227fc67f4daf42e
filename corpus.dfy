/** The corpus store: the master file `all_link.txt` read back as a set of links
    (`get_existing_links`), the delta against it, the append loop that persists the delta and
    the text of the per-run snapshot file. Files are their text; an absent file is `None`. */
module Corpus {
  import opened Wrappers
  import opened Strings
  import opened Ordering

  predicate IsLineBreak(c: char) {
    c == '\n' || c == '\r'
  }

  /** The index of the first line break at or after `i`, or `|s|` when there is none. */
  function LineEnd(s: string, i: nat): (k: nat)
    requires i <= |s|
    ensures i <= k <= |s|
    ensures k < |s| ==> IsLineBreak(s[k])
    ensures forall m :: i <= m < k ==> !IsLineBreak(s[m])
    decreases |s| - i
  {
    if i < |s| && !IsLineBreak(s[i]) then LineEnd(s, i + 1) else i
  }

  lemma {:induction false} LineEndAt(s: string, i: nat, j: nat)
    requires i <= j < |s| && IsLineBreak(s[j])
    requires forall m :: i <= m < j ==> !IsLineBreak(s[m])
    ensures LineEnd(s, i) == j
    decreases j - i
  {
    if i < j {
      LineEndAt(s, i + 1, j);
    }
  }

  /** The lines that `for line in f` yields for a file opened in text mode: universal newlines
      turn `\r\n` and a lone `\r` into `\n`, and every line except possibly the last keeps
      that `\n` at its end. */
  function Lines(s: string): (r: seq<string>)
    ensures (r == []) == (s == [])
    decreases |s|
  {
    if s == [] then []
    else
      var k := LineEnd(s, 0);
      if k == |s| then [s] else [s[..k] + "\n"] + Lines(s[After(s, k)..])
  }

  /** Where the next line starts after the line break at `k`: a `\r\n` pair counts as one
      break. */
  function After(s: string, k: nat): (next: nat)
    requires k < |s|
    ensures k < next <= |s|
  {
    if s[k] == '\r' && k + 1 < |s| && s[k + 1] == '\n' then k + 2 else k + 1
  }

  /** Universal newlines spelled out character by character: every `\r\n` pair and every lone
      `\r` becomes `\n`; every other character is kept. */
  function Translated(s: string): (t: string)
    decreases |s|
  {
    if s == [] then []
    else if s[0] == '\r' && 1 < |s| && s[1] == '\n' then "\n" + Translated(s[2..])
    else if s[0] == '\r' then "\n" + Translated(s[1..])
    else [s[0]] + Translated(s[1..])
  }

  /** The lines put back together. */
  function Concat(lines: seq<string>): (s: string)
    ensures lines == [] ==> s == []
    decreases |lines|
  {
    if lines == [] then [] else lines[0] + Concat(lines[1..])
  }

  /** Reading a text line by line loses nothing and invents nothing: the lines, put back
      together, are the text with its line breaks translated. */
  lemma {:induction false} LinesTranslate(s: string)
    ensures Concat(Lines(s)) == Translated(s)
    decreases |s|
  {
    if s != [] {
      var k := LineEnd(s, 0);
      TranslatedPlain(s, 0, k);
      assert s[0..] == s;
      if k < |s| {
        var rest := s[After(s, k)..];
        LinesTranslate(rest);
        TranslatedBreak(s, k);
        ConcatCons(s[..k] + "\n", Lines(rest));
      } else {
        ConcatCons(s, []);
      }
    }
  }

  lemma ConcatCons(line: string, lines: seq<string>)
    ensures Concat([line] + lines) == line + Concat(lines)
  {
    assert ([line] + lines)[1..] == lines;
  }

  /** A run without line breaks is kept as it is. */
  lemma {:induction false} TranslatedPlain(s: string, i: nat, k: nat)
    requires i <= k <= |s|
    requires forall m :: i <= m < k ==> !IsLineBreak(s[m])
    ensures Translated(s[i..]) == s[i..k] + Translated(s[k..])
    decreases k - i
  {
    if i < k {
      assert s[i..][1..] == s[i + 1..];
      TranslatedPlain(s, i + 1, k);
      assert s[i..k] == [s[i]] + s[i + 1..k];
    }
  }

  /** A line break, one or two characters long, becomes one `\n`. */
  lemma TranslatedBreak(s: string, k: nat)
    requires k < |s| && IsLineBreak(s[k])
    ensures Translated(s[k..]) == "\n" + Translated(s[After(s, k)..])
  {
    assert s[k..][1..] == s[k + 1..];
    if k + 1 < |s| {
      assert s[k..][2..] == s[k + 2..];
    }
  }

  /** A text with a line break reads as its first line, then the lines of what follows the
      break. */
  lemma LinesCons(s: string, k: nat)
    requires k < |s| && k == LineEnd(s, 0)
    ensures Lines(s) == [s[..k] + "\n"] + Lines(s[After(s, k)..])
  {
  }

  /** `get_existing_links()`: the stripped lines of the master file that are not empty; the
      empty set when the file does not exist. */
  function Load(file: Option<string>): (links: set<string>)
    ensures file.None? ==> links == {}
  {
    match file
    case None => {}
    case Some(text) => StrippedLines(Lines(text))
  }

  /** `set(line.strip() for line in lines if line.strip())` */
  function StrippedLines(lines: seq<string>): (links: set<string>)
    ensures lines == [] ==> links == {}
    ensures forall l :: l in links ==> l != []
  {
    set line | line in lines && Strip(line) != [] :: Strip(line)
  }

  /** Every link read from the master file is non-empty and neither starts nor ends with
      whitespace. */
  lemma LoadedAreStripped(file: Option<string>, l: string)
    requires l in Load(file)
    ensures l != [] && !IsSpace(l[0]) && !IsSpace(l[|l| - 1])
  {
    var line :| line in Lines(file.value) && Strip(line) != [] && l == Strip(line);
  }

  lemma StrippedLinesConcat(a: seq<string>, b: seq<string>)
    ensures StrippedLines(a + b) == StrippedLines(a) + StrippedLines(b)
  {
    forall x | x in StrippedLines(a + b)
      ensures x in StrippedLines(a) + StrippedLines(b)
    {
      var line :| line in a + b && Strip(line) != [] && x == Strip(line);
    }
    forall x | x in StrippedLines(a) + StrippedLines(b)
      ensures x in StrippedLines(a + b)
    {
      var line :| (line in a || line in b) && Strip(line) != [] && x == Strip(line);
      assert line in a + b;
    }
  }

  lemma StrippedLinesSingle(line: string)
    ensures StrippedLines([line]) == if Strip(line) != [] then {Strip(line)} else {}
  {
  }

  lemma StripStored(l: string)
    requires Storable(l)
    ensures Strip(l + "\n") == l
  {
    StripIgnoresTrailingSpace(l, '\n');
  }

  lemma {:induction false} StrippedWithBreaks(links: seq<string>)
    requires forall i :: 0 <= i < |links| ==> Storable(links[i])
    ensures StrippedLines(WithBreaks(links)) == set l | l in links
    decreases |links|
  {
    if links == [] {
      assert StrippedLines([]) == {};
    } else {
      var l := links[0];
      var rest := links[1..];
      assert WithBreaks(links) == [l + "\n"] + WithBreaks(rest);
      assert StrippedLines([l + "\n"]) == {l} by {
        StripStored(l);
        StrippedLinesSingle(l + "\n");
      }
      assert StrippedLines(WithBreaks(rest)) == set x | x in rest by {
        StrippedWithBreaks(rest);
      }
      StrippedLinesConcat([l + "\n"], WithBreaks(rest));
      MembersCons(links);
    }
  }

  lemma MembersCons(xs: seq<string>)
    requires xs != []
    ensures (set x | x in xs) == {xs[0]} + (set x | x in xs[1..])
  {
    assert xs == [xs[0]] + xs[1..];
  }

  /** `new_links = all_current_links - old_links`: what this run found that the corpus did not
      hold. It shares nothing with the corpus, holds only what was found, and together with the
      corpus covers everything found. */
  function NewLinks(current: set<string>, seen: set<string>): (delta: set<string>)
    ensures delta !! seen
    ensures delta <= current
    ensures current <= seen + delta
  {
    current - seen
  }

  /** The text the append loop adds: each link followed by a line break. */
  function Appended(links: seq<string>): (text: string)
    ensures (text == []) == (links == [])
    ensures text != [] ==> text[|text| - 1] == '\n'
    decreases |links|
  {
    if links == [] then [] else links[0] + "\n" + Appended(links[1..])
  }

  lemma {:induction false} AppendedSnoc(links: seq<string>, l: string)
    ensures Appended(links + [l]) == Appended(links) + l + "\n"
    decreases |links|
  {
    if links == [] {
      assert Appended([l]) == l + "\n" + Appended([]);
    } else {
      assert (links + [l])[1..] == links[1..] + [l];
      AppendedSnoc(links[1..], l);
    }
  }

  lemma AppendedStep(base: string, links: seq<string>, i: nat)
    requires i < |links|
    ensures base + Appended(links[..i]) + links[i] + "\n" == base + Appended(links[..i + 1])
  {
    AppendedSnoc(links[..i], links[i]);
    assert links[..i + 1] == links[..i] + [links[i]];
  }

  /** The append to the master file: `open(MASTER_FILE, "a")` creates the file when it is
      absent and keeps what it holds; then `f.write(link + "\n")` for each sorted link. */
  method AppendLinks(master: Option<string>, links: seq<string>) returns (text: string)
    ensures text == master.GetOr([]) + Appended(links)
  {
    text := master.GetOr([]);
    for i := 0 to |links|
      invariant text == master.GetOr([]) + Appended(links[..i])
    {
      AppendedStep(master.GetOr([]), links, i);
      text := text + links[i] + "\n";
    }
    assert links[..|links|] == links;
  }

  /** The text of the timestamped snapshot file: `"\n".join(sorted_new_links) + "\n"`. */
  function SnapshotText(links: seq<string>): (text: string)
    ensures text != [] && text[|text| - 1] == '\n'
  {
    Join("\n", links) + "\n"
  }

  /** The snapshot file holds exactly the text that is appended to the master file (the source
      writes the snapshot only for a non-empty delta; for an empty list the two differ). */
  lemma {:induction false} SnapshotIsAppended(links: seq<string>)
    requires links != []
    ensures SnapshotText(links) == Appended(links)
    decreases |links|
  {
    if |links| > 1 {
      SnapshotIsAppended(links[1..]);
      assert Join("\n", links) == links[0] + "\n" + Join("\n", links[1..]);
    } else {
      assert links[1..] == [];
    }
  }

  /** A master file to which lines can be appended without merging into its last line. */
  predicate EndsCleanly(master: Option<string>) {
    master.None? || master.value == [] || master.value[|master.value| - 1] == '\n'
  }

  lemma CleanBase(master: Option<string>)
    requires EndsCleanly(master)
    ensures var base := master.GetOr([]); base == [] || base[|base| - 1] == '\n'
  {
  }

  /** A link as it is stored: one non-empty line without whitespace. */
  predicate Storable(l: string) {
    l != [] && NoSpace(l)
  }

  /** Each link with its line break, as the reader yields it back. */
  function WithBreaks(links: seq<string>): (lines: seq<string>)
    ensures |lines| == |links|
    ensures forall i :: 0 <= i < |links| ==> lines[i] == links[i] + "\n"
    decreases |links|
  {
    if links == [] then [] else [links[0] + "\n"] + WithBreaks(links[1..])
  }

  lemma FirstLineOfAppend(a: string, b: string)
    requires a != [] && a[|a| - 1] == '\n'
    ensures LineEnd(a, 0) < |a|
    ensures var k := LineEnd(a, 0);
            Lines(a + b) == [a[..k] + "\n"] + Lines(a[After(a, k)..] + b)
  {
    var s := a + b;
    var k := LineEnd(a, 0);
    assert k < |a|;
    assert s[k] == a[k];
    LineEndAt(s, 0, k);
    var next := After(a, k);
    assert After(s, k) == next by {
      assert a[k] == '\r' ==> k + 1 < |a|;
      assert k + 1 < |a| ==> s[k + 1] == a[k + 1];
    }
    LinesCons(s, k);
    assert s[..k] == a[..k];
    assert s[next..] == a[next..] + b;
  }

  lemma {:induction false} LinesAppend(a: string, b: string)
    requires a == [] || a[|a| - 1] == '\n'
    ensures Lines(a + b) == Lines(a) + Lines(b)
    decreases |a|
  {
    if a == [] {
      assert a + b == b;
    } else {
      var k := LineEnd(a, 0);
      FirstLineOfAppend(a, b);
      var rest := a[After(a, k)..];
      calc {
        Lines(a + b);
        [a[..k] + "\n"] + Lines(rest + b);
        { LinesAppend(rest, b); }
        [a[..k] + "\n"] + (Lines(rest) + Lines(b));
        ([a[..k] + "\n"] + Lines(rest)) + Lines(b);
        { LinesCons(a, k); }
        Lines(a) + Lines(b);
      }
    }
  }

  /** Text without a line break reads as one line; followed by one line break, as that line
      with its break. */
  lemma LinesOfLine(body: string)
    requires forall m :: 0 <= m < |body| ==> !IsLineBreak(body[m])
    ensures body != [] ==> Lines(body) == [body]
    ensures Lines(body + "\n") == [body + "\n"]
  {
    var s := body + "\n";
    LineEndAt(s, 0, |body|);
    assert s[..|body|] == body;
    assert s[|body| + 1..] == [];
  }

  /** The caveat of the append: when the master file ends in a line without a line break, the
      first appended link is glued onto that line, and what is read back is the glued line, not
      the link. */
  lemma UnterminatedMasterMerges(last: string, l: string)
    requires Storable(last) && Storable(l)
    ensures Load(Some(last + Appended([l]))) == {last + l}
    ensures l !in Load(Some(last + Appended([l])))
  {
    var t := last + l;
    assert Appended([l]) == l + "\n";
    forall m | 0 <= m < |t|
      ensures !IsSpace(t[m])
    {
      if m < |last| {
        assert t[m] == last[m];
      } else {
        assert t[m] == l[m - |last|];
      }
    }
    calc {
      Load(Some(last + Appended([l])));
      { assert last + Appended([l]) == t + "\n"; }
      StrippedLines(Lines(t + "\n"));
      { LinesOfLine(t); }
      StrippedLines([t + "\n"]);
      { StripStored(t); StrippedLinesSingle(t + "\n"); }
      ({t});
    }
  }

  lemma {:induction false} LinesOfAppended(links: seq<string>)
    requires forall i :: 0 <= i < |links| ==> Storable(links[i])
    ensures Lines(Appended(links)) == WithBreaks(links)
    decreases |links|
  {
    if links != [] {
      var l := links[0];
      var s := Appended(links);
      assert s == l + "\n" + Appended(links[1..]);
      assert forall m :: 0 <= m < |l| ==> s[m] == l[m] && !IsLineBreak(l[m]);
      LineEndAt(s, 0, |l|);
      assert s[..|l|] == l;
      assert s[|l| + 1..] == Appended(links[1..]);
      LinesOfAppended(links[1..]);
    }
  }

  /** Appending the delta and reading the file back gives the old corpus together with the
      delta: nothing read before is lost, and every appended link is read back as it was
      written. This needs a master file that is absent, empty or ends in a line break; otherwise
      the first appended link merges into the last old line. */
  lemma AppendThenLoad(master: Option<string>, links: seq<string>)
    requires EndsCleanly(master)
    requires forall i :: 0 <= i < |links| ==> Storable(links[i])
    ensures Load(Some(master.GetOr([]) + Appended(links))) == Load(master) + (set l | l in links)
  {
    var base := master.GetOr([]);
    CleanBase(master);
    AppendThenStrip(base, links);
    if master.None? {
      assert Lines(base) == [];
      assert StrippedLines([]) == {};
    }
  }

  lemma AppendThenStrip(base: string, links: seq<string>)
    requires base == [] || base[|base| - 1] == '\n'
    requires forall i :: 0 <= i < |links| ==> Storable(links[i])
    ensures StrippedLines(Lines(base + Appended(links)))
         == StrippedLines(Lines(base)) + (set l | l in links)
  {
    calc {
      StrippedLines(Lines(base + Appended(links)));
      { LinesAppend(base, Appended(links)); LinesOfAppended(links); }
      StrippedLines(Lines(base) + WithBreaks(links));
      { StrippedLinesConcat(Lines(base), WithBreaks(links)); }
      StrippedLines(Lines(base)) + StrippedLines(WithBreaks(links));
      { StrippedWithBreaks(links); }
      StrippedLines(Lines(base)) + (set l | l in links);
    }
  }

  /** No two lines strip to the same link. */
  predicate DistinctStripped(lines: seq<string>) {
    forall i, j :: 0 <= i < j < |lines| && Strip(lines[i]) != [] ==> Strip(lines[i]) != Strip(lines[j])
  }

  /** No link stands on two lines of the file. */
  predicate NoRepeats(text: string) {
    DistinctStripped(Lines(text))
  }

  lemma DistinctConcat(a: seq<string>, b: seq<string>)
    requires DistinctStripped(a) && DistinctStripped(b)
    requires forall j :: 0 <= j < |b| ==> Strip(b[j]) !in StrippedLines(a)
    ensures DistinctStripped(a + b)
  {
    var lines := a + b;
    forall i, j | 0 <= i < j < |lines| && Strip(lines[i]) != []
      ensures Strip(lines[i]) != Strip(lines[j])
    {
      if j < |a| {
        assert lines[i] == a[i] && lines[j] == a[j];
      } else if i < |a| {
        assert lines[i] == a[i] && lines[j] == b[j - |a|];
        assert a[i] in a;
        assert Strip(lines[i]) in StrippedLines(a);
      } else {
        assert lines[i] == b[i - |a|] && lines[j] == b[j - |a|];
      }
    }
  }

  lemma DistinctWithBreaks(links: seq<string>)
    requires forall i :: 0 <= i < |links| ==> Storable(links[i])
    requires Increasing(links)
    ensures DistinctStripped(WithBreaks(links))
  {
    var lines := WithBreaks(links);
    forall i | 0 <= i < |links|
      ensures Strip(lines[i]) == links[i]
    {
      StripStored(links[i]);
    }
    forall i, j | 0 <= i < j < |lines|
      ensures links[i] != links[j]
    {
      BelowIrreflexive(links[i]);
    }
  }

  /** The corpus never holds a link twice: appending a sorted delta that shares nothing with
      what the file held keeps every stored link on a line of its own. */
  lemma AppendKeepsNoRepeats(master: Option<string>, links: seq<string>)
    requires EndsCleanly(master) && NoRepeats(master.GetOr([]))
    requires forall i :: 0 <= i < |links| ==> Storable(links[i]) && links[i] !in Load(master)
    requires Increasing(links)
    ensures NoRepeats(master.GetOr([]) + Appended(links))
  {
    var base := master.GetOr([]);
    CleanBase(master);
    LinesAppend(base, Appended(links));
    LinesOfAppended(links);
    DistinctWithBreaks(links);
    var added := WithBreaks(links);
    forall j | 0 <= j < |added|
      ensures Strip(added[j]) !in StrippedLines(Lines(base))
    {
      StripStored(links[j]);
    }
    DistinctConcat(Lines(base), added);
  }
}
