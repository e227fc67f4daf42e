/** Stage 2 of `run_crawler`: one download per derivable raw location
    (`fetch_content_and_extract`) and the union of what the downloads found. The downloads
    themselves are a parameter that maps a location to its outcome. */
module Fetch {
  import opened Wrappers
  import opened Strings
  import opened LinkPattern
  import opened RawUrl

  /** What one download comes to: a response with its status and its decoded text, or an
      exception (a timeout, a refused connection, a failed read). */
  datatype FetchOutcome = Responded(status: int, body: string) | Raised

  /** The set `fetch_content_and_extract` returns for one outcome: for a 200 response, the
      matches of its text (the strip-and-drop-empty clean-up keeps every match as it is); the
      empty set for any other status and for an exception. */
  function FetchLinks(o: FetchOutcome): (links: set<string>)
    ensures o.Raised? || o.status != 200 ==> links == {}
    ensures o.Responded? && o.status == 200 ==> links == set f | f in FindAll(o.body)
  {
    match o
    case Raised => {}
    case Responded(status, body) =>
      if status == 200 then
        ExtractedLinks(body);
        Extract(body)
      else {}
  }

  /** Every link of a download has the shape of a subscription link, no whitespace, and occurs
      in the text of a 200 response. */
  lemma FetchedAreLinks(o: FetchOutcome, l: string)
    requires l in FetchLinks(o)
    ensures o.Responded? && o.status == 200 && Contains(o.body, l)
    ensures IsLink(l) && NoSpace(l) && l != []
  {
    ExtractedLinks(o.body);
  }

  /** The links a location contributes to the run: those of its download when the item has a
      raw location, none otherwise. */
  ghost predicate FoundVia(items: seq<SearchItem>, fetch: string -> FetchOutcome, l: string) {
    exists i :: 0 <= i < |items| && BuildRawUrl(items[i]).Some?
                && l in FetchLinks(fetch(BuildRawUrl(items[i]).value))
  }

  /** The `for r in results` loop: `all_current_links` ends up holding exactly the links that
      some result holds. */
  method MergeResults(results: seq<set<string>>) returns (all: set<string>)
    ensures forall l :: l in all <==> exists k :: 0 <= k < |results| && l in results[k]
  {
    all := {};
    for k := 0 to |results|
      invariant forall l :: l in all <==> exists m :: 0 <= m < k && l in results[m]
    {
      all := all + results[k];
    }
  }

  lemma FoundFromTask(items: seq<SearchItem>, fetch: string -> FetchOutcome, urls: seq<string>, k: nat, l: string)
    requires urls == FetchTasks(items) && k < |urls|
    requires l in FetchLinks(fetch(urls[k]))
    ensures FoundVia(items, fetch, l)
  {
    assert urls[k] in urls;
    var i :| 0 <= i < |items| && BuildRawUrl(items[i]) == Some(urls[k]);
  }

  lemma TaskOfFound(items: seq<SearchItem>, fetch: string -> FetchOutcome, urls: seq<string>, l: string)
    requires urls == FetchTasks(items)
    requires FoundVia(items, fetch, l)
    ensures exists k :: 0 <= k < |urls| && l in FetchLinks(fetch(urls[k]))
  {
    var i :| 0 <= i < |items| && BuildRawUrl(items[i]).Some?
             && l in FetchLinks(fetch(BuildRawUrl(items[i]).value));
    var u := BuildRawUrl(items[i]).value;
    assert u in urls;
    var k :| 0 <= k < |urls| && urls[k] == u;
  }

  /** Stage 2: one task per item with a derivable raw location, their results, and the merge.
      A link is collected exactly when the download of the raw location of some item found it;
      items without a location contribute nothing. */
  method CollectLinks(items: seq<SearchItem>, fetch: string -> FetchOutcome) returns (current: set<string>)
    ensures forall l :: l in current <==> FoundVia(items, fetch, l)
  {
    var urls := FetchTasks(items);
    // The pool's results, one per task, in task order.
    var results := seq(|urls|, k requires 0 <= k < |urls| => FetchLinks(fetch(urls[k])));
    current := MergeResults(results);
    forall l
      ensures l in current <==> FoundVia(items, fetch, l)
    {
      if l in current {
        var k :| 0 <= k < |results| && l in results[k];
        assert results[k] == FetchLinks(fetch(urls[k]));
        FoundFromTask(items, fetch, urls, k, l);
      }
      if FoundVia(items, fetch, l) {
        TaskOfFound(items, fetch, urls, l);
        var k :| 0 <= k < |urls| && l in FetchLinks(fetch(urls[k]));
        assert l in results[k];
      }
    }
  }

  /** Every link a run collects has the shape of a subscription link and no whitespace. */
  lemma CollectedAreLinks(items: seq<SearchItem>, fetch: string -> FetchOutcome, l: string)
    requires FoundVia(items, fetch, l)
    ensures IsLink(l) && NoSpace(l) && l != []
  {
    var i :| 0 <= i < |items| && BuildRawUrl(items[i]).Some?
             && l in FetchLinks(fetch(BuildRawUrl(items[i]).value));
    FetchedAreLinks(fetch(BuildRawUrl(items[i]).value), l);
  }
}
