/** Stage 1 of `run_crawler`: the `while page <= 10` loop over the code-search pages. The
    responses of the search endpoint are a script read one per request; the sleeps are
    recorded with the request they follow instead of being performed. */
module Traversal {
  import opened Wrappers
  import opened RawUrl

  /** The last page the loop asks for. */
  const MaxPage := 10
  /** The sleep between two pages. */
  const PageDelay := 8
  /** The sleep after a 403 whose `Retry-After` header is absent. */
  const DefaultRetryAfter := 60

  /** One search response as the loop reads it: the HTTP status, `data.get('items', [])`
      (read only on 200) and the `Retry-After` header as an integer (read only on 403; `None`
      when the header is absent). */
  datatype Response = Response(status: int, items: seq<SearchItem>, retryAfter: Option<int>)

  /** One request of the loop: the page it asked for and the sleep that followed, if any. */
  datatype Attempt = Attempt(page: nat, pause: Option<int>)

  /** A 200 with items: the page is collected and the counter moves on. */
  predicate Advances(r: Response) {
    r.status == 200 && r.items != []
  }

  /** A 403: the loop sleeps and asks for the same page again. */
  predicate Retries(r: Response) {
    r.status == 403
  }

  /** Whether the loop issues another request after `r` (ceiling permitting); an empty 200 and
      any status other than 200 and 403 end it. */
  predicate Continues(r: Response) {
    Advances(r) || Retries(r)
  }

  /** The page counter after the response `r` to a request for `page`. */
  function NextPage(page: nat, r: Response): nat {
    if Advances(r) then page + 1 else page
  }

  /** The sleep that follows the response `r` to a request for `page`: 8 after a collected
      page unless the counter has passed the ceiling, `Retry-After` (60 when absent) after a
      403, none otherwise. */
  function Pause(page: nat, r: Response): Option<int> {
    if Advances(r) then (if page + 1 <= MaxPage then Some(PageDelay) else None)
    else if Retries(r) then Some(r.retryAfter.GetOr(DefaultRetryAfter))
    else None
  }

  /** The items that the 200 responses among `rs` contribute, in order. */
  function Collected(rs: seq<Response>): seq<SearchItem>
    decreases |rs|
  {
    if rs == [] then []
    else
      var last := rs[|rs| - 1];
      Collected(rs[..|rs| - 1]) + (if last.status == 200 then last.items else [])
  }

  /** How many of the responses `rs` collected a page. */
  function Successes(rs: seq<Response>): nat
    decreases |rs|
  {
    if rs == [] then 0 else Successes(rs[..|rs| - 1]) + (if Advances(rs[|rs| - 1]) then 1 else 0)
  }

  /** `attempts` and `items` are what the loop has produced so far on `script`: one attempt per
      response read, the first asking for page 1; each later request asks for the page the
      previous response left the counter at; every request but the last was followed by
      another, and none asked past the ceiling; the sleeps are those of `Pause`; and
      `file_items` is what the 200 responses brought. */
  ghost predicate WalkSoFar(script: seq<Response>, attempts: seq<Attempt>, items: seq<SearchItem>) {
    var n := |attempts|;
    && n <= |script|
    && (n > 0 ==> attempts[0].page == 1)
    && (forall i :: 0 <= i < n ==> attempts[i].page <= MaxPage)
    && (forall i :: 0 <= i < n ==> attempts[i].pause == Pause(attempts[i].page, script[i]))
    && (forall i :: 0 <= i < n - 1 ==> Continues(script[i]))
    && (forall i :: 1 <= i < n ==> attempts[i].page == NextPage(attempts[i - 1].page, script[i - 1]))
    && items == Collected(script[..n])
  }

  /** The page counter after the attempts made so far. */
  function PageAfter(script: seq<Response>, attempts: seq<Attempt>): nat
    requires |attempts| <= |script|
  {
    if attempts == [] then 1 else NextPage(attempts[|attempts| - 1].page, script[|attempts| - 1])
  }

  /** The loop asks again after the attempts made so far: none yet, or the last response lets it
      continue and the counter is still within the ceiling. */
  predicate WantsMore(script: seq<Response>, attempts: seq<Attempt>)
    requires |attempts| <= |script|
  {
    (attempts == [] || Continues(script[|attempts| - 1])) && PageAfter(script, attempts) <= MaxPage
  }

  /** The walk of the loop on `script`, complete: it stopped because the script ran out, the last
      response ended it, or the counter passed the ceiling. */
  ghost predicate IsWalk(script: seq<Response>, attempts: seq<Attempt>, items: seq<SearchItem>) {
    WalkSoFar(script, attempts, items) && (|attempts| == |script| || !WantsMore(script, attempts))
  }

  /** One more request, for the page the counter stands at, extends the walk so far. */
  lemma WalkStep(script: seq<Response>, attempts: seq<Attempt>, items: seq<SearchItem>)
    requires WalkSoFar(script, attempts, items)
    requires |attempts| < |script| && WantsMore(script, attempts)
    ensures var r := script[|attempts|];
            var page := PageAfter(script, attempts);
            WalkSoFar(script, attempts + [Attempt(page, Pause(page, r))],
                      items + (if r.status == 200 then r.items else []))
  {
    var n := |attempts|;
    assert script[..n + 1][..n] == script[..n];
  }

  /** The search loop of `run_crawler`. It also stops when the script runs out, which the source
      never does: its 403 branch retries without bound. */
  method Traverse(script: seq<Response>) returns (items: seq<SearchItem>, attempts: seq<Attempt>)
    ensures IsWalk(script, attempts, items)
  {
    items := [];
    attempts := [];
    var page := 1;
    var next := 0;
    while page <= MaxPage && next < |script|
      invariant next == |attempts| <= |script|
      invariant WalkSoFar(script, attempts, items)
      invariant page == PageAfter(script, attempts)
      invariant attempts == [] || Continues(script[next - 1])
      decreases |script| - next
    {
      var resp := script[next];
      WalkStep(script, attempts, items);
      var requested := page;
      var pause: Option<int> := None;
      var goOn := false;
      if resp.status == 200 {
        if resp.items != [] {
          items := items + resp.items;
          page := page + 1;
          if page <= MaxPage {
            pause := Some(PageDelay);
          }
          goOn := true;
        }
      } else if resp.status == 403 {
        pause := Some(resp.retryAfter.GetOr(DefaultRetryAfter));
        goOn := true;
      }
      attempts := attempts + [Attempt(requested, pause)];
      next := next + 1;
      if !goOn {
        break;
      }
    }
  }

  lemma {:induction false} WalksAgree(script: seq<Response>, a: seq<Attempt>, ia: seq<SearchItem>,
                                      b: seq<Attempt>, ib: seq<SearchItem>, k: nat)
    requires IsWalk(script, a, ia) && IsWalk(script, b, ib)
    requires k < |a| && k < |b|
    ensures a[k] == b[k]
  {
    if k > 0 {
      WalksAgree(script, a, ia, b, ib, k - 1);
    }
  }

  /** The description fixes the outcome: there is only one walk for a script. */
  lemma WalkUnique(script: seq<Response>, a: seq<Attempt>, ia: seq<SearchItem>,
                   b: seq<Attempt>, ib: seq<SearchItem>)
    requires IsWalk(script, a, ia) && IsWalk(script, b, ib)
    ensures a == b && ia == ib
  {
    forall k | 0 <= k < |a| && k < |b|
      ensures a[k] == b[k]
    {
      WalksAgree(script, a, ia, b, ib, k);
    }
    if |a| <= |b| {
      ShorterWalkIsWhole(script, a, ia, b, ib);
    } else {
      ShorterWalkIsWhole(script, b, ib, a, ia);
    }
  }

  lemma ShorterWalkIsWhole(script: seq<Response>, a: seq<Attempt>, ia: seq<SearchItem>,
                           b: seq<Attempt>, ib: seq<SearchItem>)
    requires IsWalk(script, a, ia) && IsWalk(script, b, ib)
    requires |a| <= |b|
    requires forall k :: 0 <= k < |a| ==> a[k] == b[k]
    ensures |a| == |b|
  {
    if 0 < |a| < |b| {
      AskedAgain(script, b, ib, |a|);
    }
  }

  /** A request that was followed by another was answered by a response that lets the loop
      continue, with the counter still within the ceiling. */
  lemma AskedAgain(script: seq<Response>, attempts: seq<Attempt>, items: seq<SearchItem>, n: nat)
    requires WalkSoFar(script, attempts, items) && 0 < n < |attempts|
    ensures Continues(script[n - 1]) && NextPage(attempts[n - 1].page, script[n - 1]) <= MaxPage
  {
    assert attempts[n].page <= MaxPage;
  }

  lemma {:induction false} PageCount(script: seq<Response>, attempts: seq<Attempt>, items: seq<SearchItem>, i: nat)
    requires WalkSoFar(script, attempts, items) && i < |attempts|
    ensures attempts[i].page == 1 + Successes(script[..i])
  {
    if i > 0 {
      PageCount(script, attempts, items, i - 1);
      assert script[..i][..i - 1] == script[..i - 1];
    }
  }

  lemma {:induction false} SuccessesGrow(rs: seq<Response>, i: nat, j: nat)
    requires i <= j <= |rs|
    ensures Successes(rs[..i]) <= Successes(rs[..j])
    decreases j - i
  {
    if i < j {
      SuccessesGrow(rs, i, j - 1);
      assert rs[..j][..j - 1] == rs[..j - 1];
    }
  }

  lemma PagesOrdered(script: seq<Response>, attempts: seq<Attempt>, items: seq<SearchItem>, i: nat, j: nat)
    requires WalkSoFar(script, attempts, items) && i < j < |attempts|
    ensures attempts[i].page <= attempts[j].page
    ensures Advances(script[i]) ==> attempts[i].page < attempts[j].page
  {
    PageCount(script, attempts, items, i);
    PageCount(script, attempts, items, j);
    SuccessesGrow(script, i + 1, j);
    assert script[..i + 1][..i] == script[..i];
  }

  /** The page counter starts at 1 and counts the collected pages: each request asks for one
      more than the number of pages collected before it. So at most 10 pages are collected, the
      collected pages come in strictly increasing page order, and the requested pages never
      go down. */
  lemma WalkPages(script: seq<Response>, attempts: seq<Attempt>, items: seq<SearchItem>)
    requires WalkSoFar(script, attempts, items)
    ensures forall i :: 0 <= i < |attempts| ==> attempts[i].page == 1 + Successes(script[..i])
    ensures Successes(script[..|attempts|]) <= MaxPage
    ensures forall i, j :: 0 <= i < j < |attempts| ==> attempts[i].page <= attempts[j].page
    ensures forall i, j :: 0 <= i < j < |attempts| && Advances(script[i]) ==> attempts[i].page < attempts[j].page
  {
    var n := |attempts|;
    forall i | 0 <= i < n
      ensures attempts[i].page == 1 + Successes(script[..i])
    {
      PageCount(script, attempts, items, i);
    }
    if n > 0 {
      PageCount(script, attempts, items, n - 1);
      assert script[..n][..n - 1] == script[..n - 1];
    }
    forall i, j | 0 <= i < j < n
      ensures attempts[i].page <= attempts[j].page
      ensures Advances(script[i]) ==> attempts[i].page < attempts[j].page
    {
      PagesOrdered(script, attempts, items, i, j);
    }
  }

  /** A 403 asks for the same page again after sleeping for `Retry-After`, 60 when absent. */
  lemma RateLimitRetriesSamePage(script: seq<Response>, attempts: seq<Attempt>, items: seq<SearchItem>, k: nat)
    requires IsWalk(script, attempts, items)
    requires k < |attempts| && Retries(script[k])
    ensures attempts[k].pause == Some(script[k].retryAfter.GetOr(DefaultRetryAfter))
    ensures k + 1 < |script| ==> k + 1 < |attempts| && attempts[k + 1].page == attempts[k].page
  {
    assert NextPage(attempts[k].page, script[k]) == attempts[k].page;
  }

  /** Three pages with items and then an empty page: exactly those three pages are collected,
      with a sleep of 8 after each, and the walk ends at page 4, below the ceiling. */
  lemma ThreePagesThenEmpty(x: seq<SearchItem>, y: seq<SearchItem>, z: seq<SearchItem>,
                            attempts: seq<Attempt>, items: seq<SearchItem>)
    requires x != [] && y != [] && z != []
    requires IsWalk([Response(200, x, None), Response(200, y, None), Response(200, z, None),
                     Response(200, [], None)], attempts, items)
    ensures items == x + y + z
    ensures attempts == [Attempt(1, Some(PageDelay)), Attempt(2, Some(PageDelay)),
                         Attempt(3, Some(PageDelay)), Attempt(4, None)]
  {
    var script := [Response(200, x, None), Response(200, y, None), Response(200, z, None),
                   Response(200, [], None)];
    var n := |attempts|;
    if n > 0 { assert attempts[0].page == 1; }
    if n > 1 { assert attempts[1].page == 2; }
    if n > 2 { assert attempts[2].page == 3; }
    if n > 3 { assert attempts[3].page == 4; }
    assert n == 4;
    assert attempts[0] == Attempt(1, Some(PageDelay));
    assert attempts[1] == Attempt(2, Some(PageDelay));
    assert attempts[2] == Attempt(3, Some(PageDelay));
    assert attempts[3] == Attempt(4, None);
    assert script[..2][..1] == script[..1];
    assert script[..3][..2] == script[..2];
    assert script[..4][..3] == script[..3];
    assert Collected(script[..1]) == x;
    assert Collected(script[..2]) == x + y;
    assert Collected(script[..3]) == x + y + z;
    assert Collected(script[..4]) == x + y + z;
  }

  /** A 403 with `Retry-After: 5` followed by a page of items: the loop sleeps 5, asks for the
      same page 1 again and collects it. */
  lemma RateLimitThenPage(x: seq<SearchItem>, attempts: seq<Attempt>, items: seq<SearchItem>)
    requires x != []
    requires IsWalk([Response(403, [], Some(5)), Response(200, x, None)], attempts, items)
    ensures attempts == [Attempt(1, Some(5)), Attempt(1, Some(PageDelay))]
    ensures items == x
  {
    var script := [Response(403, [], Some(5)), Response(200, x, None)];
    var n := |attempts|;
    if n > 0 { assert attempts[0].page == 1; }
    if n > 1 { assert attempts[1].page == 1; }
    assert n == 2;
    assert attempts[0] == Attempt(1, Some(5));
    assert attempts[1] == Attempt(1, Some(PageDelay));
    assert script[..2][..1] == script[..1];
    assert Collected(script[..1]) == [];
    assert Collected(script[..2]) == x;
  }

  /** When every page has items, the loop stops after exactly 10 pages, and the 10th page is
      not followed by the 8-second sleep. */
  lemma CeilingAfterTenPages(script: seq<Response>, attempts: seq<Attempt>, items: seq<SearchItem>)
    requires IsWalk(script, attempts, items)
    requires |script| >= MaxPage && forall i :: 0 <= i < |script| ==> Advances(script[i])
    ensures |attempts| == MaxPage
    ensures forall i :: 0 <= i < MaxPage - 1 ==> attempts[i].pause == Some(PageDelay)
    ensures attempts[MaxPage - 1].pause == None
  {
    var n := |attempts|;
    forall i | 0 <= i < n
      ensures attempts[i].page == i + 1
    {
      PageCount(script, attempts, items, i);
      AllSucceed(script[..i]);
    }
  }

  lemma {:induction false} AllSucceed(rs: seq<Response>)
    requires forall i :: 0 <= i < |rs| ==> Advances(rs[i])
    ensures Successes(rs) == |rs|
    decreases |rs|
  {
    if rs != [] {
      AllSucceed(rs[..|rs| - 1]);
    }
  }
}
