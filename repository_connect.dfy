/**
 * The repository picker: fetching every page of the user's repositories,
 * dropping repeated ids, ordering by last push, and filtering by a search
 * query and a visibility tab. The HTTP call behind each page is an input:
 * `responses[k]` is what the request for page k + 1 produced, None when
 * the call threw.
 */
module RepositoryConnect {
  import opened Wrappers
  import opened Repositories
  import JsString

  /** Repositories requested per page. */
  const ItemsPerPage := 100

  datatype PageRequest = PageRequest(page: nat, perPage: nat)
  datatype PageResponse = PageResponse(repositories: seq<Repository>, hasNextPage: bool)

  /** The requests for pages 1 to `n`, `ItemsPerPage` repositories each. */
  function PageRequests(n: nat): (r: seq<PageRequest>)
    ensures |r| == n && forall k :: 0 <= k < n ==> r[k] == PageRequest(k + 1, ItemsPerPage)
  {
    seq(n, k requires 0 <= k < n => PageRequest(k + 1, ItemsPerPage))
  }

  /** A response after which no further page is requested. */
  predicate Stops(r: Option<PageResponse>) {
    r.None? || !r.value.hasNextPage
  }

  /**
   * The answers the server gives in one run of the paging loop: every page
   * but the last says there is a next one, and the last ends the loop.
   */
  predicate IsRun(responses: seq<Option<PageResponse>>) {
    && |responses| > 0
    && Stops(responses[|responses| - 1])
    && forall j :: 0 <= j < |responses| - 1 ==> !Stops(responses[j])
  }

  /** In a run, a response ends the loop exactly when it is the last one. */
  lemma StopsOnlyAtLast(responses: seq<Option<PageResponse>>, i: nat)
    requires IsRun(responses) && i < |responses|
    ensures Stops(responses[i]) <==> i == |responses| - 1
  {
  }

  /** The repositories of the first `n` responses, in order; a failed call contributes none. */
  function Fetched(responses: seq<Option<PageResponse>>, n: nat): seq<Repository>
    requires n <= |responses|
  {
    if n == 0 then []
    else Fetched(responses, n - 1) + (if responses[n - 1].Some? then responses[n - 1].value.repositories else [])
  }

  /** The ids of a list of repositories. */
  function Ids(s: seq<Repository>): set<int> {
    set r | r in s :: r.id
  }

  /** Keeping the first repository seen with each id, in order (the `seenIds` pass). */
  function Dedup(s: seq<Repository>): (d: seq<Repository>)
    ensures |d| <= |s|
  {
    if s == [] then []
    else
      var d := Dedup(s[..|s| - 1]);
      if s[|s| - 1].id in Ids(d) then d else d + [s[|s| - 1]]
  }

  /** No id occurs at an earlier position of `s` than `i`. */
  predicate IsFirstOccurrence(s: seq<Repository>, i: nat)
    requires i < |s|
  {
    forall j :: 0 <= j < i ==> s[j].id != s[i].id
  }

  /** Reference definition: the repositories at first-occurrence positions among the first `n`. */
  function FirstOccurrences(s: seq<Repository>, n: nat): seq<Repository>
    requires n <= |s|
  {
    if n == 0 then []
    else FirstOccurrences(s, n - 1) + (if IsFirstOccurrence(s, n - 1) then [s[n - 1]] else [])
  }

  /** `a` is `b` with some elements left out, the rest in their order. */
  predicate IsSubsequence<T(==)>(a: seq<T>, b: seq<T>)
    decreases |b|
  {
    a == [] || (b != [] && ((a[0] == b[0] && IsSubsequence(a[1..], b[1..])) || IsSubsequence(a, b[1..])))
  }

  /** The ids that survive deduplication are exactly the ids fetched. */
  lemma {:induction false} DedupKeepsIds(s: seq<Repository>)
    ensures Ids(Dedup(s)) == Ids(s)
  {
    if s != [] {
      var p := s[..|s| - 1];
      DedupKeepsIds(p);
      assert s == p + [s[|s| - 1]];
      assert Ids(s) == Ids(p) + {s[|s| - 1].id};
      var d := Dedup(p);
      assert Ids(d + [s[|s| - 1]]) == Ids(d) + {s[|s| - 1].id};
    }
  }

  /** No two repositories kept share an id. */
  lemma {:induction false} DedupDistinct(s: seq<Repository>)
    ensures forall i, j :: 0 <= i < j < |Dedup(s)| ==> Dedup(s)[i].id != Dedup(s)[j].id
  {
    if s != [] {
      DedupDistinct(s[..|s| - 1]);
    }
  }

  /** Deduplication keeps exactly the first occurrence of each id, in fetch order. */
  lemma {:induction false} DedupIsFirstOccurrences(s: seq<Repository>)
    ensures Dedup(s) == FirstOccurrences(s, |s|)
  {
    if s != [] {
      var n := |s|;
      var p := s[..n - 1];
      DedupIsFirstOccurrences(p);
      FirstOccurrencesOfPrefix(s, n - 1);
      DedupKeepsIds(p);
      SeenBeforeIff(s);
    }
  }

  /** The last repository's id was seen earlier exactly when it is not a first occurrence. */
  lemma SeenBeforeIff(s: seq<Repository>)
    requires s != []
    ensures s[|s| - 1].id in Ids(s[..|s| - 1]) <==> !IsFirstOccurrence(s, |s| - 1)
  {
    var p := s[..|s| - 1];
    if s[|s| - 1].id in Ids(p) {
      var r :| r in p && r.id == s[|s| - 1].id;
      var j :| 0 <= j < |p| && p[j] == r;
      assert s[j] == p[j];
    } else {
      forall j | 0 <= j < |s| - 1 ensures s[j].id != s[|s| - 1].id {
        assert s[j] == p[j];
        assert p[j] in p;
      }
    }
  }

  /** The first-occurrence selection of a prefix does not depend on what follows it. */
  lemma {:induction false} FirstOccurrencesOfPrefix(s: seq<Repository>, n: nat)
    requires n <= |s|
    ensures FirstOccurrences(s[..n], n) == FirstOccurrences(s, n)
  {
    if n > 0 {
      FirstOccurrencesOfPrefix(s, n - 1);
      assert s[..n][..n - 1] == s[..n - 1];
      FirstOccurrencesPrefixAgree(s[..n], s, n - 1);
      assert IsFirstOccurrence(s[..n], n - 1) == IsFirstOccurrence(s, n - 1);
    }
  }

  /** Two lists that agree on their first `n` elements select the same first occurrences there. */
  lemma {:induction false} FirstOccurrencesPrefixAgree(a: seq<Repository>, b: seq<Repository>, n: nat)
    requires n <= |a| && n <= |b| && a[..n] == b[..n]
    ensures FirstOccurrences(a, n) == FirstOccurrences(b, n)
  {
    if n > 0 {
      assert a[..n - 1] == b[..n - 1];
      FirstOccurrencesPrefixAgree(a, b, n - 1);
      assert a[n - 1] == a[..n][n - 1] == b[..n][n - 1] == b[n - 1];
      if IsFirstOccurrence(a, n - 1) {
        forall j | 0 <= j < n - 1 ensures b[j].id != b[n - 1].id {
          assert a[j] == a[..n][j] == b[..n][j] == b[j];
        }
      }
      if IsFirstOccurrence(b, n - 1) {
        forall j | 0 <= j < n - 1 ensures a[j].id != a[n - 1].id {
          assert a[j] == a[..n][j] == b[..n][j] == b[j];
        }
      }
    }
  }

  /** Every repository left after deduplication is one that was fetched. */
  lemma {:induction false} DedupOnlyFetched(s: seq<Repository>)
    ensures forall r :: r in Dedup(s) ==> r in s
  {
    if s != [] {
      var p := s[..|s| - 1];
      DedupOnlyFetched(p);
      assert forall r :: r in p ==> r in s;
    }
  }

  /** Deduplication only drops repositories: what is left keeps its relative order. */
  lemma {:induction false} DedupIsSubsequence(s: seq<Repository>)
    ensures IsSubsequence(Dedup(s), s)
  {
    DedupIsFirstOccurrences(s);
    FirstOccurrencesSubsequence(s, |s|);
    assert s[..|s|] == s;
  }

  lemma {:induction false} FirstOccurrencesSubsequence(s: seq<Repository>, n: nat)
    requires n <= |s|
    ensures IsSubsequence(FirstOccurrences(s, n), s[..n])
  {
    if n > 0 {
      FirstOccurrencesSubsequence(s, n - 1);
      assert s[..n] == s[..n - 1] + [s[n - 1]];
      if IsFirstOccurrence(s, n - 1) {
        SubsequenceAppend(FirstOccurrences(s, n - 1), s[..n - 1], s[n - 1]);
      } else {
        assert FirstOccurrences(s, n) == FirstOccurrences(s, n - 1);
        SubsequenceExtend(FirstOccurrences(s, n - 1), s[..n - 1], [s[n - 1]]);
      }
    }
  }

  lemma {:induction false} SubsequenceAppend<T>(a: seq<T>, b: seq<T>, x: T)
    requires IsSubsequence(a, b)
    ensures IsSubsequence(a + [x], b + [x])
    decreases |b|
  {
    if a == [] {
      SubsequenceOfSingleton(b, x);
      assert a + [x] == [x];
    } else if a[0] == b[0] && IsSubsequence(a[1..], b[1..]) {
      SubsequenceAppend(a[1..], b[1..], x);
      assert (a + [x])[1..] == a[1..] + [x];
      assert (b + [x])[1..] == b[1..] + [x];
    } else {
      SubsequenceAppend(a, b[1..], x);
      assert (b + [x])[1..] == b[1..] + [x];
    }
  }

  lemma {:induction false} SubsequenceOfSingleton<T>(b: seq<T>, x: T)
    ensures IsSubsequence([x], b + [x])
    decreases |b|
  {
    if b == [] {
      assert IsSubsequence([x][1..], (b + [x])[1..]);
    } else {
      SubsequenceOfSingleton(b[1..], x);
      assert (b + [x])[1..] == b[1..] + [x];
    }
  }

  lemma {:induction false} SubsequenceExtend<T>(a: seq<T>, b: seq<T>, c: seq<T>)
    requires IsSubsequence(a, b)
    ensures IsSubsequence(a, b + c)
    decreases |b|
  {
    if a != [] {
      if a[0] == b[0] && IsSubsequence(a[1..], b[1..]) {
        SubsequenceExtend(a[1..], b[1..], c);
      } else {
        SubsequenceExtend(a, b[1..], c);
      }
      assert (b + c)[1..] == b[1..] + c;
    }
  }

  /** The sort comparator: newer push first when both dates are known, otherwise "equal". */
  function ComparePushed(a: Repository, b: Repository): (c: int)
    ensures c < 0 <==> a.pushedAt.Some? && b.pushedAt.Some? && a.pushedAt.value > b.pushedAt.value
    ensures c > 0 <==> a.pushedAt.Some? && b.pushedAt.Some? && a.pushedAt.value < b.pushedAt.value
  {
    if a.pushedAt.Some? && b.pushedAt.Some? then b.pushedAt.value - a.pushedAt.value else 0
  }

  /** Places `x` before the first element it does not sort after. */
  function Insert(x: Repository, s: seq<Repository>): (r: seq<Repository>)
    ensures |r| == |s| + 1
  {
    if s == [] then [x]
    else if ComparePushed(x, s[0]) <= 0 then [x] + s
    else [s[0]] + Insert(x, s[1..])
  }

  /**
   * `allRepos.sort(comparator)`, as a stable insertion sort. With undated
   * repositories the comparator is not a consistent order, so a different
   * engine may order such lists differently.
   */
  function SortByPushed(s: seq<Repository>): (r: seq<Repository>)
    ensures |r| == |s|
  {
    if s == [] then []
    else Insert(s[0], SortByPushed(s[1..]))
  }

  lemma {:induction false} InsertIsPermutation(x: Repository, s: seq<Repository>)
    ensures multiset(Insert(x, s)) == multiset(s) + multiset{x}
  {
    if s != [] && ComparePushed(x, s[0]) > 0 {
      InsertIsPermutation(x, s[1..]);
      assert s == [s[0]] + s[1..];
    }
  }

  /** Sorting neither drops nor duplicates a repository. */
  lemma {:induction false} SortIsPermutation(s: seq<Repository>)
    ensures multiset(SortByPushed(s)) == multiset(s)
  {
    if s != [] {
      SortIsPermutation(s[1..]);
      InsertIsPermutation(s[0], SortByPushed(s[1..]));
      assert s == [s[0]] + s[1..];
    }
  }

  predicate AllDated(s: seq<Repository>) {
    forall i :: 0 <= i < |s| ==> s[i].pushedAt.Some?
  }

  /** Newest push first. */
  predicate NewestFirst(s: seq<Repository>)
    requires AllDated(s)
  {
    forall i, j :: 0 <= i < j < |s| ==> s[i].pushedAt.value >= s[j].pushedAt.value
  }

  lemma {:induction false} InsertMembers(x: Repository, s: seq<Repository>, y: Repository)
    ensures y in Insert(x, s) <==> y == x || y in s
  {
    if s != [] && ComparePushed(x, s[0]) > 0 {
      InsertMembers(x, s[1..], y);
      assert s == [s[0]] + s[1..];
    }
  }

  lemma {:induction false} InsertKeepsNewestFirst(x: Repository, s: seq<Repository>)
    requires x.pushedAt.Some? && AllDated(s) && NewestFirst(s)
    ensures AllDated(Insert(x, s)) && NewestFirst(Insert(x, s))
  {
    if s != [] && ComparePushed(x, s[0]) > 0 {
      var t := s[1..];
      assert AllDated(t) && NewestFirst(t);
      InsertKeepsNewestFirst(x, t);
      var r := Insert(x, t);
      forall k | 0 <= k < |r| ensures r[k].pushedAt.value <= s[0].pushedAt.value {
        InsertMembers(x, t, r[k]);
        if r[k] != x {
          var m :| 0 <= m < |t| && t[m] == r[k];
          assert r[k] == s[m + 1];
        }
      }
    }
  }

  /** When every repository has a push date, the sorted list runs from newest to oldest. */
  lemma {:induction false} SortedNewestFirst(s: seq<Repository>)
    requires AllDated(s)
    ensures AllDated(SortByPushed(s)) && NewestFirst(SortByPushed(s))
  {
    if s != [] {
      SortedNewestFirst(s[1..]);
      InsertKeepsNewestFirst(s[0], SortByPushed(s[1..]));
    }
  }

  /** One more repository through the `seenIds` check. */
  lemma DedupSnoc(s: seq<Repository>, x: Repository)
    ensures Dedup(s + [x]) == if x.id in Ids(Dedup(s)) then Dedup(s) else Dedup(s) + [x]
  {
    assert (s + [x])[..|s + [x]| - 1] == s;
  }

  lemma IdsSnoc(s: seq<Repository>, x: Repository)
    ensures Ids(s + [x]) == Ids(s) + {x.id}
  {
  }

  /** One step of the `seenIds` loop keeps the accumulated list equal to the de-duplicated prefix. */
  lemma UnseenStep(prefix: seq<Repository>, allRepos: seq<Repository>, repo: Repository)
    requires allRepos == Dedup(prefix)
    ensures Dedup(prefix + [repo]) == if repo.id in Ids(allRepos) then allRepos else allRepos + [repo]
    ensures Ids(allRepos + [repo]) == Ids(allRepos) + {repo.id}
  {
    DedupSnoc(prefix, repo);
    IdsSnoc(allRepos, repo);
  }

  lemma SliceSnoc(before: seq<Repository>, batch: seq<Repository>, i: nat)
    requires i < |batch|
    ensures before + batch[..i + 1] == (before + batch[..i]) + [batch[i]]
  {
    assert batch[..i + 1] == batch[..i] + [batch[i]];
  }

  lemma FetchedStep(responses: seq<Option<PageResponse>>, page: nat)
    requires 1 <= page <= |responses| && responses[page - 1].Some?
    ensures Fetched(responses, page) == Fetched(responses, page - 1) + responses[page - 1].value.repositories
  {
  }

  /**
   * The inner loop of `fetchAllRepositories`: appends each repository of a
   * page whose id has not been seen yet, and records its id.
   */
  method AddUnseen(allRepos: seq<Repository>, seenIds: set<int>, ghost before: seq<Repository>, batch: seq<Repository>)
    returns (allRepos': seq<Repository>, seenIds': set<int>)
    requires allRepos == Dedup(before) && seenIds == Ids(allRepos)
    ensures allRepos' == Dedup(before + batch) && seenIds' == Ids(allRepos')
  {
    allRepos', seenIds' := allRepos, seenIds;
    ghost var prefix := before;
    var i := 0;
    assert before + batch[..0] == before;
    while i < |batch|
      invariant 0 <= i <= |batch|
      invariant prefix == before + batch[..i]
      invariant allRepos' == Dedup(prefix)
      invariant seenIds' == Ids(allRepos')
    {
      var repo := batch[i];
      UnseenStep(prefix, allRepos', repo);
      SliceSnoc(before, batch, i);
      if repo.id !in seenIds' {
        seenIds' := seenIds' + {repo.id};
        allRepos' := allRepos' + [repo];
      }
      prefix := prefix + [repo];
      i := i + 1;
    }
    assert batch[..i] == batch;
  }

  /**
   * `fetchAllRepositories`: requests pages 1, 2, ... of `ItemsPerPage`
   * repositories until a page says there is no next one, keeping the first
   * repository seen with each id, and sorts the result by last push. A
   * thrown call ends the loop and leaves the list as it was (None).
   * The server is assumed to end the paging eventually.
   */
  method FetchAllRepositories(responses: seq<Option<PageResponse>>)
    returns (requests: seq<PageRequest>, result: Option<seq<Repository>>)
    requires IsRun(responses)
    ensures |requests| == |responses|
    ensures forall k :: 0 <= k < |requests| ==> requests[k] == PageRequest(k + 1, ItemsPerPage)
    ensures result.None? <==> responses[|responses| - 1].None?
    ensures result.Some? ==> result.value == SortByPushed(Dedup(Fetched(responses, |responses|)))
  {
    var allRepos: seq<Repository> := [];
    var seenIds: set<int> := {};
    var page := 1;
    var hasMore := true;
    ghost var fetched: seq<Repository> := [];
    requests := [];
    while hasMore
      invariant 1 <= page <= |responses| + 1
      invariant hasMore <==> page <= |responses|
      invariant !hasMore ==> responses[|responses| - 1].Some?
      invariant requests == PageRequests(page - 1)
      invariant fetched == Fetched(responses, page - 1)
      invariant allRepos == Dedup(fetched)
      invariant seenIds == Ids(allRepos)
      decreases |responses| + 1 - page
    {
      requests := requests + [PageRequest(page, ItemsPerPage)];
      assert requests == PageRequests(page);
      var response := responses[page - 1];
      StopsOnlyAtLast(responses, page - 1);
      if response.None? {
        return requests, None;
      }
      var data := response.value;
      FetchedStep(responses, page);
      allRepos, seenIds := AddUnseen(allRepos, seenIds, fetched, data.repositories);
      fetched := fetched + data.repositories;
      hasMore := data.hasNextPage;
      page := page + 1;
    }
    result := Some(SortByPushed(allRepos));
  }

  /** The visibility tabs. */
  datatype Visibility = All | Public | Private

  function VisibilityName(v: Visibility): string {
    match v
    case All => "all"
    case Public => "public"
    case Private => "private"
  }

  /** The query occurs, ignoring case, in the name or in the description when there is one. */
  predicate MatchesSearch(repo: Repository, query: string): (m: bool)
    ensures m <==> OccursInNameOrDescription(repo, JsString.Lower(query))
    ensures query == "" ==> m
  {
    SearchIsOccurrence(repo, JsString.Lower(query));
    IncludedInNameOrDescription(repo, JsString.Lower(query))
  }

  /** The lower-cased name, or the lower-cased description when there is one, contains `q`. */
  ghost predicate OccursInNameOrDescription(repo: Repository, q: string) {
    JsString.Occurs(JsString.Lower(repo.name), q)
    || (repo.description.Some? && JsString.Occurs(JsString.Lower(repo.description.value), q))
  }

  predicate IncludedInNameOrDescription(repo: Repository, q: string) {
    JsString.Includes(JsString.Lower(repo.name), q)
    || (repo.description.Some? && JsString.Includes(JsString.Lower(repo.description.value), q))
  }

  lemma SearchIsOccurrence(repo: Repository, q: string)
    ensures OccursInNameOrDescription(repo, q) <==> IncludedInNameOrDescription(repo, q)
  {
    JsString.IncludesIffOccurs(JsString.Lower(repo.name), q);
    if repo.description.Some? {
      JsString.IncludesIffOccurs(JsString.Lower(repo.description.value), q);
    }
  }

  /** The "all" tab keeps every repository; the other two keep those whose visibility has the tab's name. */
  predicate MatchesVisibility(repo: Repository, v: Visibility): (m: bool)
    ensures v == All ==> m
    ensures v == Public ==> (m <==> repo.visibility == "public")
    ensures v == Private ==> (m <==> repo.visibility == "private")
  {
    v == All || repo.visibility == VisibilityName(v)
  }

  predicate Matches(repo: Repository, query: string, v: Visibility): (m: bool)
    ensures query == "" && v == All ==> m
    ensures m ==> MatchesVisibility(repo, v)
  {
    MatchesSearch(repo, query) && MatchesVisibility(repo, v)
  }

  /** `filteredRepositories`. */
  function Filtered(repos: seq<Repository>, query: string, v: Visibility): (r: seq<Repository>)
    ensures |r| <= |repos|
  {
    if repos == [] then []
    else (if Matches(repos[0], query, v) then [repos[0]] else []) + Filtered(repos[1..], query, v)
  }

  /** A repository is shown exactly when it is in the list and matches both filters. */
  lemma {:induction false} FilteredMembership(repos: seq<Repository>, query: string, v: Visibility, repo: Repository)
    ensures repo in Filtered(repos, query, v) <==> repo in repos && Matches(repo, query, v)
  {
    if repos != [] {
      FilteredMembership(repos[1..], query, v, repo);
      assert repos == [repos[0]] + repos[1..];
    }
  }

  /** Filtering keeps the list order. */
  lemma {:induction false} FilteredIsSubsequence(repos: seq<Repository>, query: string, v: Visibility)
    ensures IsSubsequence(Filtered(repos, query, v), repos)
  {
    if repos != [] {
      FilteredIsSubsequence(repos[1..], query, v);
      var rest := Filtered(repos[1..], query, v);
      if Matches(repos[0], query, v) {
        assert ([repos[0]] + rest)[1..] == rest;
      } else {
        assert Filtered(repos, query, v) == rest;
      }
    }
  }

  /** Nothing is hidden exactly when every repository matches. */
  lemma {:induction false} FilteredKeepsAllIff(repos: seq<Repository>, query: string, v: Visibility)
    ensures |Filtered(repos, query, v)| == |repos| <==> forall i :: 0 <= i < |repos| ==> Matches(repos[i], query, v)
  {
    if repos != [] {
      FilteredKeepsAllIff(repos[1..], query, v);
      if |Filtered(repos, query, v)| == |repos| {
        forall i | 0 <= i < |repos| ensures Matches(repos[i], query, v) {
          if i > 0 {
            assert repos[i] == repos[1..][i - 1];
          }
        }
      }
    }
  }

  /** With an empty query on the "all" tab every repository is shown, in order. */
  lemma {:induction false} EmptyQueryShowsAll(repos: seq<Repository>)
    ensures Filtered(repos, "", All) == repos
  {
    if repos != [] {
      JsString.IncludesEmpty(JsString.Lower(repos[0].name));
      EmptyQueryShowsAll(repos[1..]);
      assert repos == [repos[0]] + repos[1..];
    }
  }

  /** What the list panel shows. */
  datatype ListView = NoRepositories | Loading | NoMatches | Rows(shown: seq<Repository>)

  function ListPanel(repos: seq<Repository>, query: string, v: Visibility, isLoading: bool): (view: ListView)
    ensures view.Rows? ==> view.shown != [] && view.shown == Filtered(repos, query, v) && !isLoading
    ensures view == NoRepositories <==> repos == [] && !isLoading
    ensures view == Loading <==> isLoading
    ensures view.Rows? <==> !isLoading && Filtered(repos, query, v) != []
  {
    if repos == [] && !isLoading then NoRepositories
    else if isLoading then Loading
    else if Filtered(repos, query, v) == [] then NoMatches
    else Rows(Filtered(repos, query, v))
  }

  /** The footer's count line; None while loading or when there are no repositories. */
  function Footer(repos: seq<Repository>, query: string, v: Visibility, isLoading: bool): (f: Option<string>)
    ensures f.Some? <==> repos != [] && !isLoading
    ensures f.Some? ==> JsString.EndsWith(f.value, " repositories") && '0' <= f.value[0] <= '9'
  {
    if |repos| > 0 && !isLoading then
      var shown := |Filtered(repos, query, v)|;
      if shown == |repos| then Some(JsString.NatToString(|repos|) + " repositories")
      else Some(JsString.NatToString(shown) + " of " + JsString.NatToString(|repos|) + " repositories")
    else None
  }

  /** The footer gives the bare total exactly when no repository is filtered out. */
  lemma FooterCounts(repos: seq<Repository>, query: string, v: Visibility)
    requires repos != []
    ensures (forall i :: 0 <= i < |repos| ==> Matches(repos[i], query, v)) ==>
      Footer(repos, query, v, false) == Some(JsString.NatToString(|repos|) + " repositories")
    ensures (exists i :: 0 <= i < |repos| && !Matches(repos[i], query, v)) ==>
      Footer(repos, query, v, false) == Some(JsString.NatToString(|Filtered(repos, query, v)|) + " of "
        + JsString.NatToString(|repos|) + " repositories")
  {
    FilteredKeepsAllIff(repos, query, v);
  }
}
