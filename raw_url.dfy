/** `build_raw_url` and the list of raw-content locations that `run_crawler` hands to the
    fetcher. */
module RawUrl {
  import opened Wrappers
  import opened Strings

  /** One item of a search page, reduced to what the crawler reads of it:
      `item.get('html_url', '')`. `None` stands both for a missing key and for a JSON null. */
  datatype SearchItem = SearchItem(htmlUrl: Option<string>)

  const GithubHost := "github.com"
  const RawHost := "raw.githubusercontent.com"
  const BlobSegment := "/blob/"

  /** `build_raw_url(item)`: no location for a missing or empty `html_url`; otherwise every
      `github.com` becomes `raw.githubusercontent.com`, and then every `/blob/` becomes `/`. */
  function BuildRawUrl(item: SearchItem): (r: Option<string>)
    ensures r.None? <==> item.htmlUrl.None? || item.htmlUrl.value == []
    ensures r.Some? ==> r.value != []
  {
    match item.htmlUrl
    case None => None
    case Some(url) =>
      if url == [] then None
      else Some(Replace(Replace(url, GithubHost, RawHost), BlobSegment, "/"))
  }

  /** The derived location, spelled with Python's `split`/`join` instead of `replace`:
      `"/".join(RAW.join(url.split(HOST)).split("/blob/"))`. */
  lemma RawUrlBySplitting(url: string)
    requires url != []
    ensures BuildRawUrl(SearchItem(Some(url)))
         == Some(Join("/", Split(Join(RawHost, Split(url, GithubHost)), BlobSegment)))
  {
    var once := Replace(url, GithubHost, RawHost);
    ReplaceIsJoinOfSplit(url, GithubHost, RawHost);
    ReplaceIsJoinOfSplit(once, BlobSegment, "/");
  }

  /** A URL that mentions neither `github.com` nor `/blob/` comes back unchanged. */
  lemma RawUrlUnchanged(url: string)
    requires url != []
    requires !Contains(url, GithubHost) && !Contains(url, BlobSegment)
    ensures BuildRawUrl(SearchItem(Some(url))) == Some(url)
  {
  }

  /** `[build_raw_url(item) for item in file_items if build_raw_url(item)]`, in item order. A
      derived location is never the empty string, so the truth test keeps exactly the items
      whose location exists. */
  function FetchTasks(items: seq<SearchItem>): (urls: seq<string>)
    ensures |urls| <= |items|
    ensures forall u :: u in urls ==> u != []
    ensures forall u :: u in urls <==> exists i :: 0 <= i < |items| && BuildRawUrl(items[i]) == Some(u)
    decreases |items|
  {
    if items == [] then []
    else
      var rest := FetchTasks(items[1..]);
      var urls := if BuildRawUrl(items[0]).Some? then [BuildRawUrl(items[0]).value] + rest else rest;
      LocationsAfterFirst(items, rest);
      LocationsWithFirst(items, rest, urls);
      urls
  }
  /** The locations derived from `items[1..]`, indexed from the second item of `items`. */
  lemma LocationsAfterFirst(items: seq<SearchItem>, rest: seq<string>)
    requires items != []
    requires forall u :: u in rest <==> exists i :: 0 <= i < |items[1..]| && BuildRawUrl(items[1..][i]) == Some(u)
    ensures forall u :: u in rest <==> exists i :: 1 <= i < |items| && BuildRawUrl(items[i]) == Some(u)
  {
    forall u | u in rest
      ensures exists i :: 1 <= i < |items| && BuildRawUrl(items[i]) == Some(u)
    {
      var i :| 0 <= i < |items| - 1 && BuildRawUrl(items[1..][i]) == Some(u);
      assert BuildRawUrl(items[i + 1]) == Some(u);
    }
    forall u | exists i :: 1 <= i < |items| && BuildRawUrl(items[i]) == Some(u)
      ensures u in rest
    {
      var i :| 1 <= i < |items| && BuildRawUrl(items[i]) == Some(u);
      assert BuildRawUrl(items[1..][i - 1]) == Some(u);
    }
  }

  /** Putting the location of the first item, if any, in front of the others. */
  lemma LocationsWithFirst(items: seq<SearchItem>, rest: seq<string>, urls: seq<string>)
    requires items != []
    requires forall u :: u in rest <==> exists i :: 1 <= i < |items| && BuildRawUrl(items[i]) == Some(u)
    requires urls == if BuildRawUrl(items[0]).Some? then [BuildRawUrl(items[0]).value] + rest else rest
    ensures forall u :: u in urls <==> exists i :: 0 <= i < |items| && BuildRawUrl(items[i]) == Some(u)
  {
    forall u | u in urls
      ensures exists i :: 0 <= i < |items| && BuildRawUrl(items[i]) == Some(u)
    {
      if u !in rest {
        assert BuildRawUrl(items[0]) == Some(u);
      }
    }
  }

  /** How many of the first `n` items have a raw location: the index that the download of item
      `n`, if it has a location, takes in the list of downloads. */
  function LocatedBefore(items: seq<SearchItem>, n: nat): (c: nat)
    requires n <= |items|
    ensures c <= n
    decreases n
  {
    if n == 0 then 0
    else (if BuildRawUrl(items[0]).Some? then 1 else 0) + LocatedBefore(items[1..], n - 1)
  }

  /** The comprehension keeps the located items in their order and drops the rest: there are as
      many tasks as located items, and the download of located item `i` is preceded by exactly the
      tasks of the located items before it. */
  lemma {:induction false} FetchTasksPlaces(items: seq<SearchItem>)
    ensures |FetchTasks(items)| == LocatedBefore(items, |items|)
    ensures forall i :: 0 <= i < |items| && BuildRawUrl(items[i]).Some? ==>
      LocatedBefore(items, i) < |FetchTasks(items)|
      && FetchTasks(items)[LocatedBefore(items, i)] == BuildRawUrl(items[i]).value
    decreases |items|
  {
    if items != [] {
      FetchTasksPlaces(items[1..]);
      TasksCons(items);
      forall i | 0 <= i < |items| && BuildRawUrl(items[i]).Some?
        ensures LocatedBefore(items, i) < |FetchTasks(items)|
        ensures FetchTasks(items)[LocatedBefore(items, i)] == BuildRawUrl(items[i]).value
      {
        PlaceOf(items, i);
      }
    }
  }

  /** The place of one located item, from the places of the located items after the first. */
  lemma PlaceOf(items: seq<SearchItem>, i: nat)
    requires i < |items| && BuildRawUrl(items[i]).Some?
    requires var rest := items[1..];
      forall m :: 0 <= m < |rest| && BuildRawUrl(rest[m]).Some? ==>
        LocatedBefore(rest, m) < |FetchTasks(rest)|
        && FetchTasks(rest)[LocatedBefore(rest, m)] == BuildRawUrl(rest[m]).value
    ensures LocatedBefore(items, i) < |FetchTasks(items)|
    ensures FetchTasks(items)[LocatedBefore(items, i)] == BuildRawUrl(items[i]).value
  {
    if i == 0 {
      PlaceFirst(items);
    } else {
      assert items[i] == items[1..][i - 1];
      PlaceLater(items, i);
    }
  }

  /** The first item contributes its download, if any, ahead of those of the others. */
  lemma TasksCons(items: seq<SearchItem>)
    requires items != []
    ensures var c := if BuildRawUrl(items[0]).Some? then 1 else 0;
      |FetchTasks(items)| == c + |FetchTasks(items[1..])|
      && LocatedBefore(items, |items|) == c + LocatedBefore(items[1..], |items| - 1)
  {
    TasksUnfold(items);
  }

  lemma TasksUnfold(items: seq<SearchItem>)
    requires items != []
    ensures FetchTasks(items) == (if BuildRawUrl(items[0]).Some? then [BuildRawUrl(items[0]).value] else [])
                                 + FetchTasks(items[1..])
  {
  }

  /** The download of a located first item comes first. */
  lemma PlaceFirst(items: seq<SearchItem>)
    requires items != [] && BuildRawUrl(items[0]).Some?
    ensures 0 < |FetchTasks(items)| && FetchTasks(items)[0] == BuildRawUrl(items[0]).value
  {
    TasksUnfold(items);
  }

  /** A later located item keeps its place among the downloads of the others once the first item is
      put in front of it. */
  lemma PlaceLater(items: seq<SearchItem>, i: nat)
    requires 0 < i < |items| && BuildRawUrl(items[i]).Some?
    requires var x := LocatedBefore(items[1..], i - 1);
      x < |FetchTasks(items[1..])| && FetchTasks(items[1..])[x] == BuildRawUrl(items[i]).value
    ensures LocatedBefore(items, i) < |FetchTasks(items)|
    ensures FetchTasks(items)[LocatedBefore(items, i)] == BuildRawUrl(items[i]).value
  {
    var h := if BuildRawUrl(items[0]).Some? then [BuildRawUrl(items[0]).value] else [];
    TasksUnfold(items);
    LocatedUnfold(items, i);
    ShiftedIndex(FetchTasks(items), h, FetchTasks(items[1..]),
                 LocatedBefore(items, i), LocatedBefore(items[1..], i - 1), BuildRawUrl(items[i]).value);
  }

  lemma LocatedUnfold(items: seq<SearchItem>, i: nat)
    requires 0 < i <= |items|
    ensures LocatedBefore(items, i)
         == |if BuildRawUrl(items[0]).Some? then [BuildRawUrl(items[0]).value] else []|
            + LocatedBefore(items[1..], i - 1)
  {
  }

  lemma ShiftedIndex(all: seq<string>, h: seq<string>, t: seq<string>, p: nat, x: nat, v: string)
    requires all == h + t && p == |h| + x && x < |t| && t[x] == v
    ensures p < |all| && all[p] == v
  {
  }

  /** Located items further along have tasks further along. */
  lemma {:induction false} LocatedOrder(items: seq<SearchItem>, i: nat, j: nat)
    requires i < j <= |items| && BuildRawUrl(items[i]).Some?
    ensures LocatedBefore(items, i) < LocatedBefore(items, j)
    decreases i
  {
    LocatedUnfold(items, j);
    if i > 0 {
      LocatedUnfold(items, i);
      assert items[i] == items[1..][i - 1];
      LocatedOrder(items[1..], i - 1, j - 1);
    }
  }
}
