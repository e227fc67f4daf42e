/** The texts of the tiered notification: the inline message of `send_telegram_msg` and the
    caption of `send_telegram_file`. Sending them is not modelled; the texts are. */
module Notify {
  import opened Strings
  import opened Ordering
  import opened Corpus

  /** Below this many new links they go inline; from this many on, the snapshot file is sent. */
  const InlineLimit := 10

  /** The rule under each title: fifteen heavy horizontal box-drawing characters. */
  const Rule := "\U{2501}\U{2501}\U{2501}\U{2501}\U{2501}\U{2501}\U{2501}\U{2501}\U{2501}\U{2501}\U{2501}\U{2501}\U{2501}\U{2501}\U{2501}"

  /** `s` holds no line break. */
  predicate Unbroken(s: string) {
    '\n' !in s && '\r' !in s
  }

  /** The title of the inline message, with the number of new links. */
  function Title(count: nat): string {
    "\U{1F680} *\U{53D1}\U{73B0}\U{5C11}\U{91CF}\U{65B0}\U{8BA2}\U{9605} (" + Decimal(count) + "\U{6761})*"
  }

  /** The title line and the rule line. */
  function Header(count: nat): string {
    Title(count) + "\n" + (Rule + "\n")
  }

  /** Line `i` of the listing: the number, a dot, and the link as inline code. */
  function NumberedLine(i: nat, link: string): string {
    Decimal(i) + ". `" + link + "`\n"
  }

  /** The lines `for i, link in enumerate(links, 1)` appends, in list order. */
  function Listing(links: seq<string>): (text: string)
    ensures (text == []) == (links == [])
    ensures text != [] ==> text[|text| - 1] == '\n'
    decreases |links|
  {
    if links == [] then []
    else Listing(links[..|links| - 1]) + NumberedLine(|links|, links[|links| - 1])
  }

  /** The inline message for `count` new links listed as `links`. */
  function MessageText(count: nat, links: seq<string>): (text: string)
    ensures text != [] && text[|text| - 1] == '\n'
  {
    Header(count) + Listing(links)
  }

  /** `send_telegram_msg` up to the request: the header, then the links in sorted order, one
      numbered line each. */
  method InlineMessage(newCount: nat, sampleLinks: seq<string>) returns (text: string)
    ensures text == MessageText(newCount, Sorted(set l | l in sampleLinks))
  {
    var header := Header(newCount);
    text := header;
    var ordered := Sorted(set l | l in sampleLinks);
    for i := 0 to |ordered|
      invariant text == header + Listing(ordered[..i])
    {
      ListingSnoc(header, ordered, i);
      text := text + NumberedLine(i + 1, ordered[i]);
    }
    assert ordered[..|ordered|] == ordered;
  }

  lemma ListingSnoc(header: string, links: seq<string>, i: nat)
    requires i < |links|
    ensures header + Listing(links[..i]) + NumberedLine(i + 1, links[i]) == header + Listing(links[..i + 1])
  {
    assert links[..i + 1][..i] == links[..i];
  }

  /** Text without a line break, alone or followed by one, is read as a single line. */
  lemma UnbrokenLine(body: string)
    requires Unbroken(body)
    ensures body != [] ==> Lines(body) == [body]
    ensures Lines(body + "\n") == [body + "\n"]
  {
    assert forall m :: 0 <= m < |body| ==> body[m] in body;
    LinesOfLine(body);
  }

  /** A line without a break of its own, then a break, then `rest`: that line comes first. */
  lemma LineThen(body: string, rest: string)
    requires Unbroken(body)
    ensures Lines(body + "\n" + rest) == [body + "\n"] + Lines(rest)
  {
    UnbrokenLine(body);
    LinesAppend(body + "\n", rest);
  }

  lemma DecimalUnbroken(n: nat)
    ensures Unbroken(Decimal(n))
  {
  }

  lemma NumberedLineUnbroken(i: nat, link: string)
    requires Unbroken(link)
    ensures var body := Decimal(i) + ". `" + link + "`";
      Unbroken(body) && NumberedLine(i, link) == body + "\n"
  {
    DecimalUnbroken(i);
  }

  /** The listing reads back as one line per link: line `i` (from 0) is the numbered line of
      link `i`, numbered from 1. */
  lemma {:induction false} ListingLines(links: seq<string>)
    requires forall i :: 0 <= i < |links| ==> Unbroken(links[i])
    ensures |Lines(Listing(links))| == |links|
    ensures forall i :: 0 <= i < |links| ==> Lines(Listing(links))[i] == NumberedLine(i + 1, links[i])
    decreases |links|
  {
    if links != [] {
      var n := |links|;
      var init := links[..n - 1];
      var last := NumberedLine(n, links[n - 1]);
      ListingLines(init);
      NumberedLineUnbroken(n, links[n - 1]);
      UnbrokenLine(Decimal(n) + ". `" + links[n - 1] + "`");
      LinesAppend(Listing(init), last);
      var before := Lines(Listing(init));
      var lines := Lines(Listing(links));
      assert lines == before + [last];
      forall i | 0 <= i < n
        ensures lines[i] == NumberedLine(i + 1, links[i])
      {
        if i < n - 1 {
          assert lines[i] == before[i];
          assert init[i] == links[i];
        }
      }
    }
  }

  /** The inline message reads back as its title line, the rule, and then exactly one numbered
      line per link in list order: line `i + 2` is ``i+1. `links[i]` ``. */
  lemma MessageLines(count: nat, links: seq<string>)
    requires forall i :: 0 <= i < |links| ==> Unbroken(links[i])
    ensures var lines := Lines(MessageText(count, links));
      && |lines| == |links| + 2
      && lines[0] == Title(count) + "\n"
      && lines[1] == Rule + "\n"
      && forall i :: 0 <= i < |links| ==> lines[i + 2] == NumberedLine(i + 1, links[i])
  {
    DecimalUnbroken(count);
    FixedPartsUnbroken();
    assert Unbroken(Title(count));
    ListingLines(links);
    assert MessageText(count, links) == Title(count) + "\n" + (Rule + "\n" + Listing(links));
    LineThen(Title(count), Rule + "\n" + Listing(links));
    LineThen(Rule, Listing(links));
  }

  /** The third line of the caption: the number of new links. */
  function Tally(count: nat): string {
    "\U{1F195} \U{672C}\U{6B21}\U{65B0}\U{589E}: `" + Decimal(count) + "` \U{6761}"
  }

  /** The last line of the caption: the minute of the run, without a line break. */
  function Stamp(minute: string): string {
    "\U{1F4C5} \U{65F6}\U{95F4}: `" + minute + "`"
  }

  const CaptionTitle := "\U{1F4C2} *\U{65B0}\U{8BA2}\U{9605}\U{6587}\U{4EF6}\U{63A8}\U{9001}*"

  /** The caption of the snapshot file: a title, the rule, the number of new links and the
      minute of the run. */
  function Caption(count: nat, minute: string): (text: string)
    ensures text != [] && text[|text| - 1] == '`'
  {
    CaptionTitle + "\n" + (Rule + "\n" + (Tally(count) + "\n" + Stamp(minute)))
  }

  /** The caption reads back as four lines: the title, the rule, the count and, without a line
      break of its own, the minute. */
  lemma CaptionLines(count: nat, minute: string)
    requires Unbroken(minute)
    ensures Lines(Caption(count, minute))
         == [CaptionTitle + "\n", Rule + "\n", Tally(count) + "\n", Stamp(minute)]
  {
    var tail := Tally(count) + "\n" + Stamp(minute);
    FixedPartsUnbroken();
    calc {
      Lines(Caption(count, minute));
      Lines(CaptionTitle + "\n" + (Rule + "\n" + tail));
      { LineThen(CaptionTitle, Rule + "\n" + tail); }
      [CaptionTitle + "\n"] + Lines(Rule + "\n" + tail);
      { LineThen(Rule, tail); }
      [CaptionTitle + "\n"] + ([Rule + "\n"] + Lines(tail));
      { TallyStampLines(count, minute); }
      [CaptionTitle + "\n"] + ([Rule + "\n"] + [Tally(count) + "\n", Stamp(minute)]);
    }
  }

  /** The last two lines of the caption. */
  lemma TallyStampLines(count: nat, minute: string)
    requires Unbroken(minute)
    ensures Lines(Tally(count) + "\n" + Stamp(minute)) == [Tally(count) + "\n", Stamp(minute)]
  {
    DecimalUnbroken(count);
    assert Unbroken(Tally(count));
    assert Unbroken(Stamp(minute));
    UnbrokenLine(Stamp(minute));
    LineThen(Tally(count), Stamp(minute));
  }

  lemma FixedPartsUnbroken()
    ensures Unbroken(CaptionTitle) && Unbroken(Rule)
  {
  }
}
