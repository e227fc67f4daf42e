/** `run_crawler`: load the corpus, walk the search pages, download and extract, take the
    delta, persist it to the snapshot file and the master file, and choose the notification.
    The files are texts, the search responses a script, the downloads a function from location
    to outcome, and the two timestamps parameters. */
module Crawler {
  import opened Wrappers
  import opened Ordering
  import opened RawUrl
  import opened Corpus
  import opened Traversal
  import opened Fetch
  import opened Notify

  /** The per-run file: its name and its text. */
  datatype Snapshot = Snapshot(name: string, text: string)

  /** The notification chosen for a run: the inline message text, or the snapshot file sent
      with a caption. */
  datatype Notice = Inline(text: string) | Document(path: string, caption: string)

  /** Everything a run produces: the requests it made (with the sleeps), the collected search
      items, the links it found, the master file afterwards, the snapshot file it wrote, if any,
      and the notification it sent, if any. */
  datatype Run = Run(attempts: seq<Attempt>, fileItems: seq<SearchItem>, current: set<string>,
                     master: Option<string>, snapshot: Option<Snapshot>, notice: Option<Notice>)

  /** `f"new_links_{timestamp}.txt"` */
  function SnapshotName(stamp: string): (name: string)
    ensures |name| == |stamp| + 14 && name[10..|name| - 4] == stamp
  {
    "new_links_" + stamp + ".txt"
  }

  /** Runs with different timestamps write different snapshot files. */
  lemma SnapshotNameInjective(a: string, b: string)
    requires SnapshotName(a) == SnapshotName(b)
    ensures a == b
  {
    var n := SnapshotName(a);
    assert a == n[10..|n| - 4];
  }

  /** What the tiered notification sends for the sorted delta `sorted`. */
  function NoticeFor(sorted: seq<string>, stamp: string, minute: string): (n: Notice)
    ensures n.Inline? <==> |sorted| < InlineLimit
    ensures n.Document? ==> n.path == SnapshotName(stamp)
  {
    if |sorted| < InlineLimit then Inline(MessageText(|sorted|, sorted))
    else Document(SnapshotName(stamp), Caption(|sorted|, minute))
  }

  lemma StorableUnbroken(l: string)
    requires Storable(l)
    ensures Unbroken(l)
  {
  }

  /** Persisting a delta of found links and reading the master file back gives the old corpus
      together with everything found. */
  lemma PersistRoundTrip(master: Option<string>, current: set<string>)
    requires EndsCleanly(master)
    requires forall l :: l in current ==> Storable(l)
    ensures var delta := NewLinks(current, Load(master));
            Load(Some(master.GetOr([]) + Appended(Sorted(delta)))) == Load(master) + current
  {
    var seen := Load(master);
    var delta := NewLinks(current, seen);
    var sorted := Sorted(delta);
    SortedMembers(delta);
    calc {
      Load(Some(master.GetOr([]) + Appended(sorted)));
      { AppendThenLoad(master, sorted); }
      seen + (set l | l in sorted);
      seen + delta;
      seen + current;
    }
  }

  /** Persisting a delta keeps a master file free of repeated links. */
  lemma PersistNoRepeats(master: Option<string>, current: set<string>)
    requires EndsCleanly(master) && NoRepeats(master.GetOr([]))
    requires forall l :: l in current ==> Storable(l)
    ensures var delta := NewLinks(current, Load(master));
            NoRepeats(master.GetOr([]) + Appended(Sorted(delta)))
  {
    var delta := NewLinks(current, Load(master));
    var sorted := Sorted(delta);
    SortedMembers(delta);
    AppendKeepsNoRepeats(master, sorted);
  }

  /** The master file as stage 3 leaves it: untouched without a delta, otherwise (created if
      absent and) extended by the sorted delta, one link per line. */
  function Persisted(master: Option<string>, delta: set<string>): (newMaster: Option<string>)
    ensures delta == {} ==> newMaster == master
    ensures delta != {} ==> newMaster.Some? && master.GetOr([]) < newMaster.value
    ensures delta != {} ==> EndsCleanly(newMaster)
  {
    if delta == {} then master
    else Some(master.GetOr([]) + Appended(Sorted(delta)))
  }

  /** Reading back the master file as stage 3 leaves it gives the old corpus together with
      everything found, whether or not there was a delta. */
  lemma PersistedLoad(master: Option<string>, current: set<string>)
    requires EndsCleanly(master)
    requires forall l :: l in current ==> Storable(l)
    ensures Load(Persisted(master, NewLinks(current, Load(master)))) == Load(master) + current
  {
    var seen := Load(master);
    if NewLinks(current, seen) == {} {
      assert current <= seen;
      assert seen + current == seen;
    } else {
      PersistRoundTrip(master, current);
    }
  }

  /** The master file as stage 3 leaves it repeats no link if it repeated none before. */
  lemma PersistedNoRepeats(master: Option<string>, current: set<string>)
    requires EndsCleanly(master) && NoRepeats(master.GetOr([]))
    requires forall l :: l in current ==> Storable(l)
    ensures NoRepeats(Persisted(master, NewLinks(current, Load(master))).GetOr([]))
  {
    if NewLinks(current, Load(master)) != {} {
      PersistNoRepeats(master, current);
    }
  }

  /** The inline message of a delta of found links lists them in sorted order, one numbered
      line each after the two header lines. */
  lemma InlineListsDelta(sorted: seq<string>)
    requires forall i :: 0 <= i < |sorted| ==> Storable(sorted[i])
    ensures var lines := Lines(MessageText(|sorted|, sorted));
      && |lines| == |sorted| + 2
      && forall i :: 0 <= i < |sorted| ==> lines[i + 2] == NumberedLine(i + 1, sorted[i])
  {
    forall i | 0 <= i < |sorted|
      ensures Unbroken(sorted[i])
    {
      StorableUnbroken(sorted[i]);
    }
    MessageLines(|sorted|, sorted);
  }

  /** Stage 3, `if new_links:`: with a delta, write the snapshot file, append to the master
      file and choose the notification by the count; without one, leave everything alone. */
  method Persist(master: Option<string>, newLinks: set<string>, stamp: string, minute: string)
    returns (newMaster: Option<string>, snapshot: Option<Snapshot>, notice: Option<Notice>)
    ensures newMaster == Persisted(master, newLinks)
    ensures newLinks == {} ==> snapshot.None? && notice.None?
    ensures newLinks != {} ==>
      && snapshot == Some(Snapshot(SnapshotName(stamp), SnapshotText(Sorted(newLinks))))
      && notice == Some(NoticeFor(Sorted(newLinks), stamp, minute))
    ensures snapshot.Some? ==> newMaster == Some(master.GetOr([]) + snapshot.value.text)
  {
    if newLinks == {} {
      return master, None, None;
    }
    var sorted := Sorted(newLinks);
    var newCount := |sorted|;
    var name := SnapshotName(stamp);
    snapshot := Some(Snapshot(name, SnapshotText(sorted)));
    SnapshotIsAppended(sorted);
    var text := AppendLinks(master, sorted);
    newMaster := Some(text);
    if newCount < InlineLimit {
      var msg := InlineMessage(newCount, sorted);
      SortedOfIncreasing(sorted);
      notice := Some(Inline(msg));
    } else {
      notice := Some(Document(name, Caption(newCount, minute)));
    }
  }

  /** Stages 1 and 2: walk the search pages and collect the links of every derivable raw
      location. Every collected link can be stored as a line of the master file. */
  method Discover(script: seq<Response>, fetch: string -> FetchOutcome)
    returns (attempts: seq<Attempt>, fileItems: seq<SearchItem>, current: set<string>)
    ensures IsWalk(script, attempts, fileItems)
    ensures forall l :: l in current <==> FoundVia(fileItems, fetch, l)
    ensures forall l :: l in current ==> Storable(l)
  {
    fileItems, attempts := Traverse(script);
    current := CollectLinks(fileItems, fetch);
    forall l | l in current
      ensures Storable(l)
    {
      CollectedAreLinks(fileItems, fetch, l);
    }
  }

  /** One run of the crawler. */
  method RunCrawler(master: Option<string>, script: seq<Response>, fetch: string -> FetchOutcome,
                    stamp: string, minute: string) returns (run: Run)
    ensures IsWalk(script, run.attempts, run.fileItems)
    ensures forall l :: l in run.current <==> FoundVia(run.fileItems, fetch, l)
    ensures var delta := run.current - Load(master);
      && run.master == Persisted(master, delta)
      && (delta == {} ==> run.snapshot.None? && run.notice.None?)
      && (delta != {} ==>
            && run.snapshot == Some(Snapshot(SnapshotName(stamp), SnapshotText(Sorted(delta))))
            && run.notice == Some(NoticeFor(Sorted(delta), stamp, minute)))
    ensures run.snapshot.Some? ==> run.master == Some(master.GetOr([]) + run.snapshot.value.text)
    ensures EndsCleanly(master) ==> Load(run.master) == Load(master) + run.current
    ensures EndsCleanly(master) && NoRepeats(master.GetOr([])) ==> NoRepeats(run.master.GetOr([]))
  {
    var oldLinks := Load(master);
    var attempts, fileItems, current := Discover(script, fetch);
    var newLinks := NewLinks(current, oldLinks);
    var newMaster, snapshot, notice := Persist(master, newLinks, stamp, minute);
    if EndsCleanly(master) {
      PersistedLoad(master, current);
      if NoRepeats(master.GetOr([])) {
        PersistedNoRepeats(master, current);
      }
    }
    run := Run(attempts, fileItems, current, newMaster, snapshot, notice);
  }
}
