/** Fetching starred repositories page by page.

    The HTTP exchange is an oracle: for each page number it yields either the
    error of the request, transport or JSON decoding, or the decoded records
    together with the raw `Link` header. */
module Fetch {
  import opened Wrappers
  import opened Types
  import opened Text
  import opened Link

  /** A decoded response: the page's records and its `Link` header ("" when absent). */
  datatype Response = Response(repos: seq<Repo>, link: string)

  /** The remote API for one user: page number to response or error. */
  type Api = nat -> Result<Response, Error>

  /** What `getStarredReposPage` returns on success. */
  datatype Page = Page(repos: seq<Repo>, hasNext: bool)

  /** `getStarredReposPage`: pass an error up unchanged, otherwise return the
      records and whether the `Link` header announces a next page. */
  function FetchPage(api: Api, n: nat): (r: Result<Page, Error>)
    ensures r.Failure? <==> api(n).Failure?
    ensures r.Failure? ==> r.error == api(n).error
    ensures r.Success? ==> r.value.repos == api(n).value.repos
    ensures r.Success? ==> (r.value.hasNext <==> Contains(api(n).value.link, NextRel))
  {
    match api(n)
    case Failure(e) => Failure(e)
    case Success(resp) =>
      Success(Page(resp.repos, HasNext(resp.link)))
  }

  /** Page `n` is fetched successfully and announces a next page. */
  predicate Continues(api: Api, n: nat)
  {
    FetchPage(api, n).Success? && FetchPage(api, n).value.hasNext
  }

  /** The outcome of a pagination walk: the accumulated records or the error
      that aborted it, and the page numbers requested, in order. */
  datatype Walk = Walk(result: Result<seq<Repo>, Error>, requested: seq<nat>)

  /** `requested` is `from, from + 1, ..., from + |requested| - 1`. */
  predicate Consecutive(requested: seq<nat>, from: nat)
  {
    forall i :: 0 <= i < |requested| ==> requested[i] == from + i
  }

  /** The loop of `getStarredRepos` from page `page` on: fetch a page, append
      its records, and go on to the next page while the header says so; an
      error aborts with no records. `last` is a page at which the walk is known
      to stop (it fails or has no next page); it only bounds the recursion. */
  function FetchFrom(api: Api, page: nat, ghost last: nat): (w: Walk)
    requires page <= last && !Continues(api, last)
    ensures |w.requested| > 0 && Consecutive(w.requested, page)
    ensures page + |w.requested| <= last + 1
    decreases last - page
  {
    match FetchPage(api, page)
    case Failure(e) => Walk(Failure(e), [page])
    case Success(p) =>
      if !p.hasNext then Walk(Success(p.repos), [page])
      else
        var rest := FetchFrom(api, page + 1, last);
        Walk(PrependRepos(p.repos, rest.result), [page] + rest.requested)
  }

  /** Put a page's records in front of the records of the rest of the walk. */
  function PrependRepos(repos: seq<Repo>, rest: Result<seq<Repo>, Error>): (r: Result<seq<Repo>, Error>)
    ensures r.Failure? <==> rest.Failure?
    ensures r.Failure? ==> r.error == rest.error
    ensures r.Success? ==> |r.value| == |repos| + |rest.value|
    ensures r.Success? ==> r.value[..|repos|] == repos && r.value[|repos|..] == rest.value
  {
    match rest
    case Failure(e) => Failure(e)
    case Success(more) => Success(repos + more)
  }

  /** Prepending two pages one after the other is prepending their concatenation. */
  lemma PrependTwice(a: seq<Repo>, b: seq<Repo>, rest: Result<seq<Repo>, Error>)
    ensures PrependRepos(a, PrependRepos(b, rest)) == PrependRepos(a + b, rest)
  {
    if rest.Success? {
      assert a + (b + rest.value) == (a + b) + rest.value;
    }
  }

  /** The records of pages `lo` to `hi`, in page order, where every page
      before `hi` continues and page `hi` is fetched successfully. */
  ghost function Concatenation(api: Api, lo: nat, hi: nat): seq<Repo>
    requires lo <= hi && FetchPage(api, hi).Success?
    requires forall n :: lo <= n < hi ==> Continues(api, n)
    decreases hi - lo
  {
    if lo == hi then FetchPage(api, lo).value.repos
    else
      assert Continues(api, lo);
      FetchPage(api, lo).value.repos + Concatenation(api, lo + 1, hi)
  }

  /** The walk stops at the first page `k` that fails or has no next page: it
      requests exactly the pages `from` to `k`, and it returns the error of page
      `k`, or the records of pages `from` to `k` in page order. */
  lemma {:induction false} FetchFromStopsAtFirstLastPage(api: Api, from: nat, k: nat, last: nat)
    requires from <= k && !Continues(api, k)
    requires forall n :: from <= n < k ==> Continues(api, n)
    requires from <= last && !Continues(api, last)
    ensures |FetchFrom(api, from, last).requested| == k - from + 1
    ensures FetchPage(api, k).Failure? ==>
              FetchFrom(api, from, last).result == Failure(FetchPage(api, k).error)
    ensures FetchPage(api, k).Success? ==>
              FetchFrom(api, from, last).result == Success(Concatenation(api, from, k))
    decreases k - from
  {
    var w := FetchFrom(api, from, last);
    if from == k {
    } else {
      assert Continues(api, from);
      assert from < last;
      FetchFromStopsAtFirstLastPage(api, from + 1, k, last);
      var rest := FetchFrom(api, from + 1, last);
      assert w.requested == [from] + rest.requested;
    }
  }

  /** Which bounding page is used never changes the walk. */
  lemma {:induction false} FetchFromIgnoresBound(api: Api, page: nat, last1: nat, last2: nat)
    requires page <= last1 && !Continues(api, last1)
    requires page <= last2 && !Continues(api, last2)
    ensures FetchFrom(api, page, last1) == FetchFrom(api, page, last2)
    decreases last1 - page
  {
    if Continues(api, page) {
      FetchFromIgnoresBound(api, page + 1, last1, last2);
    }
  }

  /** The loop of `getStarredRepos` as the program writes it: start at page 1,
      append each page's records, stop at the first page without a next page,
      abort on the first error. */
  method FetchAllPages(api: Api, ghost last: nat) returns (result: Result<seq<Repo>, Error>, requested: seq<nat>)
    requires 1 <= last && !Continues(api, last)
    ensures Walk(result, requested) == FetchFrom(api, 1, last)
  {
    var repos: seq<Repo> := [];
    var pageNumber: nat := 1;
    requested := [];
    while true
      invariant 1 <= pageNumber <= last
      invariant FetchFrom(api, 1, last) ==
                Walk(PrependRepos(repos, FetchFrom(api, pageNumber, last).result),
                     requested + FetchFrom(api, pageNumber, last).requested)
      decreases last - pageNumber
    {
      var page := FetchPage(api, pageNumber);
      requested := requested + [pageNumber];
      if page.Failure? {
        result := Failure(page.error);
        return;
      }
      if !page.value.hasNext {
        repos := repos + page.value.repos;
        break;
      }
      ghost var rest := FetchFrom(api, pageNumber + 1, last);
      PrependTwice(repos, page.value.repos, rest.result);
      assert requested + rest.requested == (requested[..|requested| - 1]) + ([pageNumber] + rest.requested);
      repos := repos + page.value.repos;
      pageNumber := pageNumber + 1;
    }
    result := Success(repos);
  }
}
