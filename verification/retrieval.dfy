/** `getStarredRepos` and the `list` action: read the cache, on a miss walk
    the pages and save the full list, then filter by language and lay out. */
module Retrieval {
  import opened Wrappers
  import opened Types
  import opened Text
  import opened Storage
  import opened Fetch
  import opened Filter
  import opened Layout

  /** What one retrieval does: its result, the page numbers it requested, in
      order, and the cache store afterwards. */
  datatype Run = Run(result: Result<seq<Repo>, Error>, requested: seq<nat>, store: Store)

  /** The retrieval reads a cache miss and so walks the pages. */
  predicate IsMiss(store: Store, username: string)
  {
    store.readFault.None? && username !in store.entries
  }

  /** `getStarredRepos`. On a miss the API is assumed to reach a page `last`
      that fails or has no next page; the program itself has no bound. */
  function GetStarredRepos(store: Store, username: string, languages: seq<string>, api: Api, ghost last: nat): (run: Run)
    requires IsMiss(store, username) ==> 1 <= last && !Continues(api, last)
    // A read fault aborts with that fault before any page is fetched.
    ensures store.readFault.Some? ==>
              run == Run(Failure(store.readFault.value), [], store)
    // A hit uses the cached list: no page is fetched and nothing is saved.
    ensures store.readFault.None? && username in store.entries ==>
              run == Run(Success(FilterByLanguage(store.entries[username], languages)), [], store)
    // A miss requests pages 1, 2, 3, ... and saves only after a complete walk.
    ensures IsMiss(store, username) ==>
              |run.requested| > 0 && Consecutive(run.requested, 1)
    ensures IsMiss(store, username) && run.result.Success? ==>
              username in run.store.entries &&
              run.result.value == FilterByLanguage(run.store.entries[username], languages)
    ensures run.result.Failure? ==> run.store == store
    ensures run.store.entries.Keys <= store.entries.Keys + {username}
  {
    match GetUserRepos(store, username)
    case Failure(e) => Run(Failure(e), [], store)
    case Success(Some(cached)) => Run(Success(FilterByLanguage(cached, languages)), [], store)
    case Success(None) =>
      var walk := FetchFrom(api, 1, last);
      match walk.result
      case Failure(e) => Run(Failure(e), walk.requested, store)
      case Success(repos) =>
        match SaveUserRepos(store, username, repos)
        case Failure(e) => Run(Failure(e), walk.requested, store)
        case Success(saved) => Run(Success(FilterByLanguage(repos, languages)), walk.requested, saved)
  }

  /** The miss path in terms of the first page `k` that fails or has no next
      page: pages 1 to `k` are requested; an error of page `k` aborts with no
      save; otherwise the records of pages 1 to `k` are saved under exactly
      `username` (or the save error aborts) and returned filtered. */
  lemma MissPath(store: Store, username: string, languages: seq<string>, api: Api, last: nat, k: nat)
    requires IsMiss(store, username) && 1 <= last && !Continues(api, last)
    requires 1 <= k && !Continues(api, k)
    requires forall n :: 1 <= n < k ==> Continues(api, n)
    ensures |GetStarredRepos(store, username, languages, api, last).requested| == k
    ensures FetchPage(api, k).Failure? ==>
              GetStarredRepos(store, username, languages, api, last) ==
              Run(Failure(FetchPage(api, k).error), GetStarredRepos(store, username, languages, api, last).requested, store)
    ensures FetchPage(api, k).Success? && store.writeFault.Some? ==>
              GetStarredRepos(store, username, languages, api, last) ==
              Run(Failure(store.writeFault.value), GetStarredRepos(store, username, languages, api, last).requested, store)
    ensures FetchPage(api, k).Success? && store.writeFault.None? ==>
              GetStarredRepos(store, username, languages, api, last) ==
              Run(Success(FilterByLanguage(Concatenation(api, 1, k), languages)),
                  GetStarredRepos(store, username, languages, api, last).requested,
                  store.(entries := store.entries[username := Concatenation(api, 1, k)]))
  {
    FetchFromStopsAtFirstLastPage(api, 1, k, last);
  }

  /** After a successful fresh fetch, the next retrieval for the same user is a
      cache hit: it fetches nothing and returns the same records. */
  lemma SecondRetrievalHits(store: Store, username: string, languages: seq<string>,
                            api: Api, last: nat, api2: Api, last2: nat)
    requires IsMiss(store, username) && 1 <= last && !Continues(api, last)
    requires GetStarredRepos(store, username, languages, api, last).result.Success?
    ensures
      var first := GetStarredRepos(store, username, languages, api, last);
      var second := GetStarredRepos(first.store, username, languages, api2, last2);
      && second.requested == []
      && second.result == first.result
      && second.store == first.store
  {
  }

  /** `strings.ToLower` applied to each `--language` flag. */
  function LowerAll(flags: seq<string>): (r: seq<string>)
    ensures |r| == |flags|
    // Each result is already lower-case and equals its flag up to case.
    ensures forall i :: 0 <= i < |flags| ==> Lower(r[i]) == r[i] && Lower(r[i]) == Lower(flags[i])
  {
    forall i | 0 <= i < |flags| {
      LowerIdempotent(flags[i]);
    }
    seq(|flags|, i requires 0 <= i < |flags| => Lower(flags[i]))
  }

  /** Filtering with the lower-cased flags ignores the case of both sides: a
      repository is wanted iff some flag equals its language up to case. */
  lemma CaseInsensitiveMatch(repo: Repo, flags: seq<string>)
    ensures Wanted(repo, LowerAll(flags)) <==>
            exists i :: 0 <= i < |flags| && Lower(flags[i]) == Lower(repo.language)
  {
  }

  /** The outcome of the `list` action. */
  datatype Outcome =
    | Listed(lines: seq<string>)  // one line per repository, in order
    | Aborted(error: Error)       // the error returned to the command runner
    | Panicked                    // the description slice bound was negative

  /** The `list` action: lower-case the flags, retrieve, lay out and render. */
  function ListAction(store: Store, username: string, flags: seq<string>, api: Api, ghost last: nat): (r: (Outcome, Store))
    requires IsMiss(store, username) ==> 1 <= last && !Continues(api, last)
    ensures r.0.Aborted? <==> GetStarredRepos(store, username, LowerAll(flags), api, last).result.Failure?
    // The action aborts with the retrieval's own error.
    ensures r.0.Aborted? ==> r.0.error == GetStarredRepos(store, username, LowerAll(flags), api, last).result.error
    ensures r.1 == GetStarredRepos(store, username, LowerAll(flags), api, last).store
    ensures r.0.Listed? ==>
              |r.0.lines| == |GetStarredRepos(store, username, LowerAll(flags), api, last).result.value|
    ensures r.0.Listed? ==> forall i :: 0 <= i < |r.0.lines| ==> |r.0.lines[i]| <= MaxLineCharacters + 1
    ensures r.0.Panicked? <==>
              var result := GetStarredRepos(store, username, LowerAll(flags), api, last).result;
              result.Success? && |result.value| > 0 && MaxNameLen(result.value) > MaxLineCharacters
    // Line i shows repository i: its name padded to the longest name, a tab,
    // and a prefix of its description cut to the remaining width.
    ensures r.0.Listed? ==>
              var repos := GetStarredRepos(store, username, LowerAll(flags), api, last).result.value;
              forall i :: 0 <= i < |repos| ==> ShowsRepo(r.0.lines[i], repos[i], MaxNameLen(repos))
  {
    var run := GetStarredRepos(store, username, LowerAll(flags), api, last);
    match run.result
    case Failure(e) => (Aborted(e), run.store)
    case Success(repos) =>
      match PrintedLines(repos)
      case None => (Panicked, run.store)
      case Some(lines) => (Listed(lines), run.store)
  }

  /** Empty cache, one page of two records without a `Link` header, no
      filter: the result is exactly those two records, page 2 is never
      requested, and the cache now holds them. */
  lemma OnePageScenario(username: string, a: Repo, b: Repo)
    ensures
      var store := Store(map[], None, None);
      var api: Api := n => Success(Response([a, b], ""));
      var run := GetStarredRepos(store, username, [], api, 1);
      && run.result == Success([a, b])
      && run.requested == [1]
      && run.store.entries == map[username := [a, b]]
  {
  }

  /** A cache holding Go, Rust and Go repositories filtered by "go" gives the
      two Go repositories and fetches nothing. */
  lemma CachedFilterScenario(username: string, api: Api)
    ensures
      var go1 := Repo(1, "a/x", "", "", "Go");
      var rust := Repo(2, "b/y", "", "", "Rust");
      var go2 := Repo(3, "c/z", "", "", "Go");
      var store := Store(map[username := [go1, rust, go2]], None, None);
      var run := GetStarredRepos(store, username, ["go"], api, 0);
      && run.result == Success([go1, go2])
      && run.requested == []
  {
    var go1 := Repo(1, "a/x", "", "", "Go");
    var rust := Repo(2, "b/y", "", "", "Rust");
    var go2 := Repo(3, "c/z", "", "", "Go");
    var repos := [go1, rust, go2];
    assert Lower("Go") == "go";
    assert Lower("Rust")[0] == 'r';
    assert Wanted(go1, ["go"]) && Wanted(go2, ["go"]) && !Wanted(rust, ["go"]);
    assert repos[..2][..1] == [go1];
    assert Keep([go1], ["go"]) == [go1];
    assert repos[..2] == [go1, rust];
    assert Keep([go1, rust], ["go"]) == [go1];
    assert Keep(repos, ["go"]) == [go1, go2];
  }

  /** A read fault aborts with that fault and fetches nothing. */
  lemma ReadFaultScenario(store: Store, username: string, languages: seq<string>, api: Api, fault: Error)
    requires store.readFault == Some(fault)
    ensures GetStarredRepos(store, username, languages, api, 0).result == Failure(fault)
    ensures GetStarredRepos(store, username, languages, api, 0).requested == []
  {
  }
}
