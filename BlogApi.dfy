/**
 * The read-only handlers of the blog API, as functions of the stored corpus
 * (`seq<Blog>` in natural order) and the request. Each returns what the
 * handler puts in its JSON envelope: the success payload, or the client
 * error it answers with.
 */
module BlogApi {
  import opened Wrappers
  import opened Corpus
  import opened Text
  import opened Ordering
  import opened Params
  import opened Paging

  /** The client errors the handlers answer with. */
  datatype ApiError = BadRequest(message: string) | NotFound(message: string)

  function StatusCode(e: ApiError): int
  {
    match e
    case BadRequest(_) => 400
    case NotFound(_) => 404
  }

  const InvalidIdMessage := "Invalid blog ID format"
  const NotFoundMessage := "Blog not found"
  const ShortQueryMessage := "Search query must be at least 2 characters long"
  const MinQueryLength := 2
  const RecentCount := 5
  const OldestCount := 3

  // ---------------------------------------------------------------- listing

  datatype Pagination = Pagination(
    currentPage: nat, totalPages: nat, totalBlogs: nat, blogsPerPage: nat,
    hasNextPage: bool, hasPrevPage: bool)

  datatype BlogPage = BlogPage(data: seq<Blog>, pagination: Pagination)

  /** `GET /api/blogs`: one page of the corpus in the requested order. */
  function ListBlogs(corpus: seq<Blog>, q: ListQuery): (r: BlogPage)
    ensures var req, p := NormalizeListQuery(q), r.pagination;
      && p.currentPage == req.page && p.blogsPerPage == req.limit
      && p.totalBlogs == |corpus| && p.totalPages == CeilDiv(|corpus|, req.limit)
      && (p.hasNextPage <==> p.currentPage < p.totalPages)
      && (p.hasPrevPage <==> p.currentPage > 1)
    ensures var req := NormalizeListQuery(q);
      PageOfSorted(req.field, req.direction, Sort(req.field, req.direction, corpus),
                   req.page, req.limit, r.data)
    ensures multiset(r.data) <= multiset(corpus)
    ensures r.pagination.currentPage > r.pagination.totalPages ==> !r.pagination.hasNextPage
  {
    var req := NormalizeListQuery(q);
    var sorted := Sort(req.field, req.direction, corpus);
    var blogs := PageOf(sorted, req.page, req.limit);
    var totalPages := CeilDiv(|corpus|, req.limit);
    SortedPageFacts(req.field, req.direction, sorted, req.page, req.limit);
    BlogPage(blogs, Pagination(req.page, totalPages, |corpus|, req.limit,
                               req.page < totalPages, req.page > 1))
  }

  /** `w` is page `page` of the sorted `s`, with `limit` documents a page:
      sorted, exactly the documents of `s` from `Skip(page, limit)` on up to
      `limit` of them or the end, full before the last page, non-empty on it
      and empty after it. */
  predicate PageOfSorted(f: SortField, d: Direction, s: seq<Blog>, page: nat, limit: nat, w: seq<Blog>)
    requires page >= 1 && limit >= 1
  {
    var n := CeilDiv(|s|, limit);
    && Sorted(f, d, w)
    && multiset(w) <= multiset(s)
    && |w| <= limit
    && (forall i :: 0 <= i < |w| ==> Skip(page, limit) + i < |s| && w[i] == s[Skip(page, limit) + i])
    && |w| == (if Skip(page, limit) < |s| then Min(limit, |s| - Skip(page, limit)) else 0)
    && (page < n ==> |w| == limit)
    && (page == n ==> 1 <= |w|)
    && (page > n ==> w == [])
  }

  /** The page clause pins the page down: the only `w` it admits is the
      skip-then-limit window of `s`. */
  lemma PageOfSortedIsPage(f: SortField, d: Direction, s: seq<Blog>, page: nat, limit: nat, w: seq<Blog>)
    requires page >= 1 && limit >= 1 && PageOfSorted(f, d, s, page, limit, w)
    ensures w == PageOf(s, page, limit)
  {
    var v := PageOf(s, page, limit);
    assert |w| == |v|;
    forall i | 0 <= i < |w| ensures w[i] == v[i] {
    }
  }

  lemma SortedPageFacts(f: SortField, d: Direction, s: seq<Blog>, page: nat, limit: nat)
    requires Sorted(f, d, s) && page >= 1 && limit >= 1
    ensures PageOfSorted(f, d, s, page, limit, PageOf(s, page, limit))
  {
    PageSize(s, page, limit);
    WindowOfSorted(f, d, s, Skip(page, limit), limit);
  }

  /** A window of a sorted sequence is sorted and drawn from it. */
  lemma WindowOfSorted(f: SortField, d: Direction, s: seq<Blog>, skip: nat, limit: nat)
    requires Sorted(f, d, s)
    ensures Sorted(f, d, Window(s, skip, limit))
    ensures multiset(Window(s, skip, limit)) <= multiset(s)
  {
    if skip < |s| {
      var hi := Min(|s|, skip + limit);
      assert s == s[..skip] + s[skip..hi] + s[hi..];
      assert multiset(s) == multiset(s[..skip]) + multiset(s[skip..hi]) + multiset(s[hi..]);
    }
  }

  /** Every stored blog shows up on some page between 1 and `totalPages`
      when the same limit and order are kept. Each page request runs its own
      sort, and the store may order blogs with equal keys differently each
      time, so `orders(page)` is the order the request for `page` sees: any
      sorted arrangement of the corpus. With pairwise distinct keys the page
      it yields is the one `ListBlogs` returns. */
  lemma ListingReachesEveryBlog(corpus: seq<Blog>, q: ListQuery, b: Blog, orders: nat -> seq<Blog>)
    requires b in corpus
    requires var req := NormalizeListQuery(q);
      && DistinctKeys(req.field, corpus)
      && forall page :: Sorted(req.field, req.direction, orders(page)) && multiset(orders(page)) == multiset(corpus)
    ensures var req, n := NormalizeListQuery(q), ListBlogs(corpus, q).pagination.totalPages;
      exists page :: 1 <= page <= n
        && b in PageOf(orders(page), page, req.limit)
        && PageOf(orders(page), page, req.limit) == ListBlogs(corpus, q.(page := Some(page))).data
  {
    var req := NormalizeListQuery(q);
    var sorted := Sort(req.field, req.direction, corpus);
    var n := CeilDiv(|corpus|, req.limit);
    assert b in multiset(sorted);
    PagesCover(sorted, req.limit);
    InSomePage(sorted, req.limit, n, b);
    var page :| 1 <= page <= n && b in PageOf(sorted, page, req.limit);
    StoreOrderIsSort(req.field, req.direction, corpus, orders(page));
    assert NormalizeListQuery(q.(page := Some(page))) == req.(page := page);
    assert PageOf(orders(page), page, req.limit) == ListBlogs(corpus, q.(page := Some(page))).data;
  }

  // ----------------------------------------------------------------- search

  datatype SearchPagination = SearchPagination(
    currentPage: nat, totalPages: nat, totalBlogs: nat, blogsPerPage: nat, searchQuery: string)

  datatype SearchPage = SearchPage(data: seq<Blog>, pagination: SearchPagination)

  /** The `$or` filter: the title or the content contains `q`, ignoring case. */
  predicate Matches(q: string, b: Blog)
  {
    ContainsIgnoringCase(b.title, q) || ContainsIgnoringCase(b.content, q)
  }

  /** `find(filter)` in natural order: the matching blogs, each as often as stored. */
  function Filter(q: string, s: seq<Blog>): (r: seq<Blog>)
    ensures forall b :: multiset(r)[b] == if Matches(q, b) then multiset(s)[b] else 0
    ensures forall b :: b in r ==> Matches(q, b)
    decreases |s|
  {
    if s == [] then
      []
    else
      var rest := Filter(q, s[1..]);
      assert s == [s[0]] + s[1..];
      assert forall b :: b in rest ==> b in multiset(rest);
      if Matches(q, s[0]) then [s[0]] + rest else rest
  }

  /** `GET /api/blogs/search/:query`: one page of the matching blogs, newest first. */
  function SearchBlogs(corpus: seq<Blog>, query: string, page: Option<int>, limit: Option<int>)
    : (r: Result<SearchPage, ApiError>)
    ensures r.Failure? <==> Utf16Length(Trim(query)) < MinQueryLength
    ensures r.Failure? ==> r.error == BadRequest(ShortQueryMessage)
    ensures r.Success? ==> var p := r.value.pagination;
      && p.searchQuery == Trim(query)
      && p.currentPage == NormalizePage(page)
      && p.blogsPerPage == NormalizeLimit(limit, MaxSearchLimit)
      && p.totalBlogs == |Filter(Trim(query), corpus)|
      && p.totalPages == CeilDiv(p.totalBlogs, p.blogsPerPage)
    ensures r.Success? ==> var p := r.value.pagination;
      PageOfSorted(CreatedAt, Desc, Sort(CreatedAt, Desc, Filter(Trim(query), corpus)),
                   p.currentPage, p.blogsPerPage, r.value.data)
    ensures r.Success? ==>
      && (forall b :: b in r.value.data ==> Matches(Trim(query), b))
      && multiset(r.value.data) <= multiset(corpus)
  {
    var term := Trim(query);
    if Utf16Length(term) < MinQueryLength then
      Failure(BadRequest(ShortQueryMessage))
    else
      var pg := NormalizePage(page);
      var lim := NormalizeLimit(limit, MaxSearchLimit);
      var matching := Filter(term, corpus);
      var sorted := Sort(CreatedAt, Desc, matching);
      var blogs := PageOf(sorted, pg, lim);
      SortedPageFacts(CreatedAt, Desc, sorted, pg, lim);
      assert multiset(matching) <= multiset(corpus);
      assert forall b :: b in blogs ==> b in multiset(matching);
      Success(SearchPage(blogs, SearchPagination(pg, CeilDiv(|matching|, lim), |matching|, lim, term)))
  }

  /** A matching blog is found by paging through the search results, when
      no two matches share a creation time. As for the listing,
      `orders(page)` is the newest-first order the request for `page` sees. */
  lemma SearchFindsEveryMatch(corpus: seq<Blog>, query: string, limit: Option<int>, b: Blog,
                              orders: nat -> seq<Blog>)
    requires Utf16Length(Trim(query)) >= MinQueryLength
    requires b in corpus && Matches(Trim(query), b)
    requires var matching := Filter(Trim(query), corpus);
      && DistinctKeys(CreatedAt, matching)
      && forall page :: Sorted(CreatedAt, Desc, orders(page)) && multiset(orders(page)) == multiset(matching)
    ensures var lim, n := NormalizeLimit(limit, MaxSearchLimit),
                          SearchBlogs(corpus, query, None, limit).value.pagination.totalPages;
      exists page :: 1 <= page <= n
        && b in PageOf(orders(page), page, lim)
        && PageOf(orders(page), page, lim) == SearchBlogs(corpus, query, Some(page), limit).value.data
  {
    var lim := NormalizeLimit(limit, MaxSearchLimit);
    var matching := Filter(Trim(query), corpus);
    var sorted := Sort(CreatedAt, Desc, matching);
    var n := CeilDiv(|matching|, lim);
    assert b in multiset(corpus);
    assert b in multiset(matching);
    assert b in multiset(sorted);
    PagesCover(sorted, lim);
    InSomePage(sorted, lim, n, b);
    var page :| 1 <= page <= n && b in PageOf(sorted, page, lim);
    StoreOrderIsSort(CreatedAt, Desc, matching, orders(page));
    SearchPageIs(corpus, query, limit, page);
  }

  /** The blogs `SearchBlogs` returns for `page` are that page of the sorted
      matches. */
  lemma SearchPageIs(corpus: seq<Blog>, query: string, limit: Option<int>, page: nat)
    requires Utf16Length(Trim(query)) >= MinQueryLength && page >= 1
    ensures SearchBlogs(corpus, query, Some(page), limit).value.data
      == PageOf(Sort(CreatedAt, Desc, Filter(Trim(query), corpus)), page, NormalizeLimit(limit, MaxSearchLimit))
  {
  }

  // ------------------------------------------------------------- statistics

  datatype ContentStats = ContentStats(averageLength: nat, minimumLength: nat, maximumLength: nat)

  datatype Stats = Stats(
    totalBlogs: nat, contentStats: ContentStats,
    recentBlogs: seq<TitleEntry>, oldestBlogs: seq<TitleEntry>)

  /** The summed content length of `s`, the `$strLenCP` values the `$avg`
      stage averages. */
  function TotalLength(s: seq<Blog>): nat
  {
    if s == [] then 0 else |s[0].content| + TotalLength(s[1..])
  }

  /** `$min` of the content lengths. */
  function MinLength(s: seq<Blog>): (m: nat)
    requires s != []
    ensures forall i :: 0 <= i < |s| ==> m <= |s[i].content|
    ensures exists i :: 0 <= i < |s| && |s[i].content| == m
    decreases |s|
  {
    if |s| == 1 then
      |s[0].content|
    else
      var m := MinLength(s[1..]);
      assert forall i :: 1 <= i < |s| ==> s[1..][i - 1] == s[i];
      if |s[0].content| <= m then
        |s[0].content|
      else
        var k :| 0 <= k < |s[1..]| && |s[1..][k].content| == m;
        assert |s[k + 1].content| == m;
        m
  }

  /** `$max` of the content lengths. */
  function MaxLength(s: seq<Blog>): (m: nat)
    requires s != []
    ensures forall i :: 0 <= i < |s| ==> |s[i].content| <= m
    ensures exists i :: 0 <= i < |s| && |s[i].content| == m
    decreases |s|
  {
    if |s| == 1 then
      |s[0].content|
    else
      var m := MaxLength(s[1..]);
      assert forall i :: 1 <= i < |s| ==> s[1..][i - 1] == s[i];
      if m <= |s[0].content| then
        |s[0].content|
      else
        var k :| 0 <= k < |s[1..]| && |s[1..][k].content| == m;
        assert |s[k + 1].content| == m;
        m
  }

  /** `Math.round(sum / n)`: the nearest integer, halves rounded up. */
  function RoundedMean(sum: nat, n: nat): (r: nat)
    requires n >= 1
    ensures 2 * n * r <= 2 * sum + n < 2 * n * (r + 1)
  {
    (2 * sum + n) / (2 * n)
  }

  /** Every length lies between the minimum and the maximum, so the sum lies
      between `|s|` times each. */
  lemma {:induction false} TotalLengthBounds(s: seq<Blog>, lo: nat, hi: nat)
    requires forall i :: 0 <= i < |s| ==> lo <= |s[i].content| <= hi
    ensures |s| * lo <= TotalLength(s) <= |s| * hi
    decreases |s|
  {
    if s != [] {
      assert forall i :: 0 <= i < |s[1..]| ==> s[1..][i] == s[i + 1];
      TotalLengthBounds(s[1..], lo, hi);
      assert |s| * lo == (|s| - 1) * lo + lo;
      assert |s| * hi == (|s| - 1) * hi + hi;
    }
  }

  /** A rounded mean of values between `lo` and `hi` stays between them. */
  lemma RoundedMeanBetween(sum: nat, n: nat, lo: nat, hi: nat)
    requires n >= 1 && n * lo <= sum <= n * hi
    ensures lo <= RoundedMean(sum, n) <= hi
  {
    var r := RoundedMean(sum, n);
    var m := 2 * n;
    assert m * r <= 2 * sum + n < m * (r + 1);
    assert m * lo == 2 * (n * lo);
    MulCancel(lo, r + 1, m);
    assert m * (hi + 1) == 2 * (n * hi) + m;
    MulCancel(r, hi + 1, m);
  }

  lemma MulCancel(a: int, b: int, c: int)
    requires c > 0 && c * a < c * b
    ensures a < b
  {
  }

  /** The `$group` stage and its `|| 0` defaults for an empty collection. */
  function ContentStatsOf(s: seq<Blog>): (c: ContentStats)
    ensures s == [] ==> c == ContentStats(0, 0, 0)
    ensures s != [] ==> c.minimumLength <= c.averageLength <= c.maximumLength
    ensures forall i :: 0 <= i < |s| ==> c.minimumLength <= |s[i].content| <= c.maximumLength
    ensures s != [] ==> exists i :: 0 <= i < |s| && |s[i].content| == c.minimumLength
    ensures s != [] ==> exists i :: 0 <= i < |s| && |s[i].content| == c.maximumLength
    ensures s != [] ==>
      2 * |s| * c.averageLength <= 2 * TotalLength(s) + |s| < 2 * |s| * (c.averageLength + 1)
  {
    if s == [] then
      ContentStats(0, 0, 0)
    else
      var lo, hi := MinLength(s), MaxLength(s);
      TotalLengthBounds(s, lo, hi);
      RoundedMeanBetween(TotalLength(s), |s|, lo, hi);
      ContentStats(RoundedMean(TotalLength(s), |s|), lo, hi)
  }

  /** `e` is the projection of a blog that is at least as recent as every
      blog of `s` whose projection is not among `es`. */
  predicate NewestFirst(es: seq<TitleEntry>, s: seq<Blog>)
  {
    && (forall i, j :: 0 <= i < j < |es| ==> es[i].createdAt >= es[j].createdAt)
    && multiset(es) <= multiset(Projections(s))
    && (es != [] ==> forall b :: b in s && Project(b) !in es ==> b.createdAt <= es[|es| - 1].createdAt)
  }

  predicate OldestFirst(es: seq<TitleEntry>, s: seq<Blog>)
  {
    && (forall i, j :: 0 <= i < j < |es| ==> es[i].createdAt <= es[j].createdAt)
    && multiset(es) <= multiset(Projections(s))
    && (es != [] ==> forall b :: b in s && Project(b) !in es ==> es[|es| - 1].createdAt <= b.createdAt)
  }

  /** The projections of the first `m` blogs of `s` sorted on `f` are drawn
      from the projections of `s`. */
  lemma TopEntriesDrawn(f: SortField, d: Direction, s: seq<Blog>, m: nat)
    requires m <= |s|
    ensures multiset(Projections(Sort(f, d, s)[..m])) <= multiset(Projections(s))
  {
    var sorted := Sort(f, d, s);
    assert sorted == sorted[..m] + sorted[m..];
    ProjectionsAppend(sorted[..m], sorted[m..]);
    SortProjections(f, d, s);
  }

  /** A blog of `s` whose projection is not among the first `m` of `sorted`
      comes no earlier than the `m`-th of them. */
  lemma TopEntriesExtreme(d: Direction, sorted: seq<Blog>, s: seq<Blog>, m: nat, b: Blog)
    requires Sorted(CreatedAt, d, sorted) && multiset(sorted) == multiset(s)
    requires 0 < m <= |sorted|
    requires b in s && Project(b) !in Projections(sorted[..m])
    ensures Precedes(CreatedAt, d, sorted[m - 1], b)
  {
    assert b in multiset(sorted);
    var es := Projections(sorted[..m]);
    forall i | 0 <= i < m
      ensures sorted[..m][i] != b
    {
      assert es[i] == Project(sorted[..m][i]);
    }
    SortedPrefixBound(CreatedAt, d, sorted, m, b);
  }

  /** Projecting a sequence sorted on creation time keeps its order. */
  lemma EntriesOrdered(d: Direction, top: seq<Blog>)
    requires Sorted(CreatedAt, d, top)
    ensures var es := Projections(top);
      && (d == Desc ==> forall i, j :: 0 <= i < j < |es| ==> es[i].createdAt >= es[j].createdAt)
      && (d == Asc ==> forall i, j :: 0 <= i < j < |es| ==> es[i].createdAt <= es[j].createdAt)
  {
  }

  /** Every blog left out of the first `m` is no more extreme than the last
      one kept. */
  lemma EntriesBound(d: Direction, sorted: seq<Blog>, s: seq<Blog>, m: nat)
    requires Sorted(CreatedAt, d, sorted) && multiset(sorted) == multiset(s)
    requires 0 < m <= |sorted|
    ensures var es := Projections(sorted[..m]);
      && (d == Desc ==> forall b :: b in s && Project(b) !in es ==> b.createdAt <= es[m - 1].createdAt)
      && (d == Asc ==> forall b :: b in s && Project(b) !in es ==> es[m - 1].createdAt <= b.createdAt)
  {
    var es := Projections(sorted[..m]);
    forall b | b in s && Project(b) !in es
      ensures Precedes(CreatedAt, d, sorted[m - 1], b)
    {
      TopEntriesExtreme(d, sorted, s, m, b);
    }
    assert es[m - 1].createdAt == sorted[m - 1].createdAt;
  }

  /** The first `k` of `s` sorted on creation time, projected, are the `k`
      most extreme blogs of `s` in that direction, in order. */
  lemma ExtremeEntries(d: Direction, s: seq<Blog>, k: nat)
    ensures var es := Projections(Sort(CreatedAt, d, s)[..Min(k, |s|)]);
      && |es| == Min(k, |s|)
      && (d == Desc ==> NewestFirst(es, s))
      && (d == Asc ==> OldestFirst(es, s))
  {
    var sorted := Sort(CreatedAt, d, s);
    var m := Min(k, |s|);
    TopEntriesDrawn(CreatedAt, d, s, m);
    EntriesOrdered(d, sorted[..m]);
    if m > 0 {
      EntriesBound(d, sorted, s, m);
    }
  }

  /** `GET /api/stats`. */
  function GetStats(corpus: seq<Blog>): (r: Stats)
    ensures r.totalBlogs == |corpus|
    ensures r.contentStats == ContentStatsOf(corpus)
    ensures |r.recentBlogs| == Min(RecentCount, |corpus|) && NewestFirst(r.recentBlogs, corpus)
    ensures |r.oldestBlogs| == Min(OldestCount, |corpus|) && OldestFirst(r.oldestBlogs, corpus)
  {
    ExtremeEntries(Desc, corpus, RecentCount);
    ExtremeEntries(Asc, corpus, OldestCount);
    Stats(|corpus|, ContentStatsOf(corpus),
          Projections(Sort(CreatedAt, Desc, corpus)[..Min(RecentCount, |corpus|)]),
          Projections(Sort(CreatedAt, Asc, corpus)[..Min(OldestCount, |corpus|)]))
  }

  // ----------------------------------------------------------------- titles

  /** `GET /api/titles`: every blog projected, ordered by title ascending. */
  function ListTitles(corpus: seq<Blog>): (r: seq<TitleEntry>)
    ensures forall i, j :: 0 <= i < j < |r| ==> StrLe(r[i].title, r[j].title)
    ensures multiset(r) == multiset(Projections(corpus))
  {
    var sorted := Sort(Title, Asc, corpus);
    SortProjections(Title, Asc, corpus);
    Projections(sorted)
  }

  // ---------------------------------------------------------------- lookups

  /** The index of the first blog of `s` that satisfies `p`, as `findOne`
      returns the first match in natural order. */
  function FindFirst(s: seq<Blog>, p: Blog -> bool): (r: Option<nat>)
    ensures r.Some? ==> r.value < |s| && p(s[r.value])
    ensures r.Some? ==> forall j :: 0 <= j < r.value ==> !p(s[j])
    ensures r.None? ==> forall j :: 0 <= j < |s| ==> !p(s[j])
    decreases |s|
  {
    if s == [] then None
    else if p(s[0]) then Some(0)
    else
      match FindFirst(s[1..], p)
      case None => None
      case Some(k) => Some(k + 1)
  }

  /** `GET /api/blogs/:id`. `isValidId` stands for `ObjectId.isValid`. */
  function GetBlogById(corpus: seq<Blog>, id: string, isValidId: string -> bool): (r: Result<Blog, ApiError>)
    ensures r == Failure(BadRequest(InvalidIdMessage)) <==> !isValidId(id)
    ensures r == Failure(NotFound(NotFoundMessage)) <==>
      isValidId(id) && forall b :: b in corpus ==> b.id != id
    ensures r.Success? ==> r.value in corpus && r.value.id == id
    ensures r.Failure? ==> r.error == BadRequest(InvalidIdMessage) || r.error == NotFound(NotFoundMessage)
  {
    if !isValidId(id) then
      Failure(BadRequest(InvalidIdMessage))
    else
      match FindFirst(corpus, (b: Blog) => b.id == id)
      case None => Failure(NotFound(NotFoundMessage))
      case Some(k) => Success(corpus[k])
  }

  /** With identifiers unique, a well-formed identifier of a stored blog
      fetches exactly that blog. */
  lemma GetBlogByIdFindsStored(corpus: seq<Blog>, i: nat, isValidId: string -> bool)
    requires i < |corpus| && isValidId(corpus[i].id)
    requires forall j, k :: 0 <= j < k < |corpus| ==> corpus[j].id != corpus[k].id
    ensures GetBlogById(corpus, corpus[i].id, isValidId) == Success(corpus[i])
  {
  }

  /** `GET /api/blogs/title/:title`: the first blog, in natural order, with
      exactly that title. */
  function GetBlogByTitle(corpus: seq<Blog>, title: string): (r: Result<Blog, ApiError>)
    ensures r.Failure? <==> forall b :: b in corpus ==> b.title != title
    ensures r.Failure? ==> r.error == NotFound(NotFoundMessage)
    ensures r.Success? ==> r.value.title == title
    ensures r.Success? ==>
      exists i :: 0 <= i < |corpus| && corpus[i] == r.value && (forall j :: 0 <= j < i ==> corpus[j].title != title)
  {
    match FindFirst(corpus, (b: Blog) => b.title == title)
    case None => Failure(NotFound(NotFoundMessage))
    case Some(k) => Success(corpus[k])
  }
}
