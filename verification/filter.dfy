/** The language filter of `getStarredRepos`. */
module Filter {
  import opened Types
  import opened Text

  /** A repository is wanted when its lower-cased language equals one of the
      requested languages (which the caller has already lower-cased). */
  predicate Wanted(repo: Repo, languages: seq<string>)
  {
    Lower(repo.language) in languages
  }

  /** The wanted repositories, in their original order, each occurrence kept once. */
  function Keep(repos: seq<Repo>, languages: seq<string>): (kept: seq<Repo>)
    ensures |kept| <= |repos|
    ensures forall i :: 0 <= i < |kept| ==> kept[i] in repos && Wanted(kept[i], languages)
    decreases |repos|
  {
    if |repos| == 0 then []
    else
      var init := repos[..|repos| - 1];
      var last := repos[|repos| - 1];
      Keep(init, languages) + (if Wanted(last, languages) then [last] else [])
  }

  /** No requested language means no filtering. */
  function FilterByLanguage(repos: seq<Repo>, languages: seq<string>): (r: seq<Repo>)
    ensures |languages| == 0 ==> r == repos
  {
    if |languages| == 0 then repos else Keep(repos, languages)
  }

  /** `a` is `b` with some elements dropped and the others in order: the last
      element of `b` is either matched with the last element of `a` or dropped. */
  ghost predicate IsSubsequence<T>(a: seq<T>, b: seq<T>)
    decreases |b|
  {
    || |a| == 0
    || (&& |b| > 0
        && (|| (a[|a| - 1] == b[|b| - 1] && IsSubsequence(a[..|a| - 1], b[..|b| - 1]))
            || IsSubsequence(a, b[..|b| - 1])))
  }

  /** Filtering keeps an order-preserving subsequence of the input. */
  lemma {:induction false} KeepIsSubsequence(repos: seq<Repo>, languages: seq<string>)
    ensures IsSubsequence(Keep(repos, languages), repos)
    decreases |repos|
  {
    if |repos| > 0 {
      var init := repos[..|repos| - 1];
      var last := repos[|repos| - 1];
      KeepIsSubsequence(init, languages);
      assert init + [last] == repos;
      var kept := Keep(init, languages);
      assert repos[..|repos| - 1] == init;
      if Wanted(last, languages) {
        var r := kept + [last];
        assert Keep(repos, languages) == r;
        assert r[..|r| - 1] == kept;
        assert IsSubsequence(r[..|r| - 1], repos[..|repos| - 1]);
      } else {
        assert Keep(repos, languages) == kept;
      }
    }
  }

  /** Each repository occurs in the result exactly as often as in the input
      when it is wanted, and not at all otherwise: a repository whose language
      is requested twice is still kept once. */
  lemma {:induction false} KeepMultiplicity(repos: seq<Repo>, languages: seq<string>, x: Repo)
    ensures multiset(Keep(repos, languages))[x] ==
            if Wanted(x, languages) then multiset(repos)[x] else 0
    decreases |repos|
  {
    if |repos| > 0 {
      var init := repos[..|repos| - 1];
      var last := repos[|repos| - 1];
      KeepMultiplicity(init, languages, x);
      assert init + [last] == repos;
      var tail := if Wanted(last, languages) then [last] else [];
      assert Keep(repos, languages) == Keep(init, languages) + tail;
      assert multiset(Keep(repos, languages)) == multiset(Keep(init, languages)) + multiset(tail);
      assert multiset(repos) == multiset(init) + multiset([last]);
    }
  }

  /** Membership: a repository is in the result iff it is in the input and wanted. */
  lemma KeepMembership(repos: seq<Repo>, languages: seq<string>, x: Repo)
    ensures x in Keep(repos, languages) <==> x in repos && Wanted(x, languages)
  {
  }

  /** Only the set of requested languages matters: repeating or reordering them
      changes nothing. */
  lemma {:induction false} KeepDependsOnlyOnLanguageSet(repos: seq<Repo>, l1: seq<string>, l2: seq<string>)
    requires forall s :: s in l1 <==> s in l2
    ensures Keep(repos, l1) == Keep(repos, l2)
    decreases |repos|
  {
    if |repos| > 0 {
      KeepDependsOnlyOnLanguageSet(repos[..|repos| - 1], l1, l2);
    }
  }

  /** The nested loops of `getStarredRepos`: for each repository, scan the
      languages and append the repository at the first match, then stop the scan. */
  method FilterRepos(repos: seq<Repo>, languages: seq<string>) returns (filtered: seq<Repo>)
    ensures filtered == FilterByLanguage(repos, languages)
  {
    filtered := repos;
    if |languages| > 0 {
      var kept: seq<Repo> := [];
      for i := 0 to |repos|
        invariant kept == Keep(repos[..i], languages)
      {
        var lang := Lower(repos[i].language);
        for j := 0 to |languages|
          invariant kept == Keep(repos[..i], languages)
          invariant forall k :: 0 <= k < j ==> languages[k] != lang
        {
          if lang == languages[j] {
            kept := kept + [repos[i]];
            break;
          }
        }
        assert repos[..i + 1][..i] == repos[..i];
        if lang !in languages {
          assert kept == Keep(repos[..i + 1], languages);
        }
      }
      assert repos[..|repos|] == repos;
      filtered := kept;
    }
  }
}
