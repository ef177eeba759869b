# Blog API query layer, in Dafny

This project models the read-only query layer of the blog API server
(`server/api-server.js`): the handlers behind `GET /api/blogs`,
`GET /api/blogs/search/:query`, `GET /api/stats`, `GET /api/titles`,
`GET /api/blogs/:id` and `GET /api/blogs/title/:title`. The MongoDB
`blogs` collection is replaced by an in-memory `seq<Blog>` in natural
(insertion) order, and each handler becomes a pure function of that
sequence and the request. Every handler is built from `const` bindings
and expressions, with no loops and no state updated in place, so the
model is written as datatypes, functions and lemmas.

Modules:

- `Wrappers` has the `Option` and `Result` datatypes.
- `Corpus` has the stored `Blog`, the `{title, createdAt}` projection
  (`TitleEntry`, which keeps `_id`), the sort fields and the directions.
- `Text` has JavaScript `trim`, `length` in UTF-16 code units, ASCII case
  folding and literal substring search.
- `Ordering` has the MongoDB sort orders and a sort function proved to
  return a sorted permutation.
- `Params` normalises `page`, `limit`, `sortBy` and `sortOrder`.
- `Paging` holds the skip, window and page-count arithmetic.
- `BlogApi` has the handlers.
- `ApiExamples` works through small concrete cases.

Details of the server's behaviour that the model keeps:

- A negative `limit` is truthy in `parseInt(limit) || 10`, so it is clamped to 1, not replaced by the default 10.
- Only 0, or a value that is absent or unparseable, gives 10.
- The search length check uses JavaScript's `length`, which counts UTF-16 code units. A single character outside the Basic Multilingual Plane is therefore long enough (`ApiExamples.AstralCharacterQueryAccepted`).
- Search responses carry no `hasNextPage` or `hasPrevPage` flags.

## Model

| member | source | states |
|---|---|---|
| Params.NormalizePage | server/api-server.js:51 | the page is at least 1; it is the parsed value when that is positive and 1 otherwise (absent, unparseable, zero or negative) |
| Params.NormalizeLimit | server/api-server.js:52 | the limit lies in [1, max]; absent, unparseable or 0 gives 10; a value in range is kept; a negative one gives 1; one above max gives max |
| Params.ParseSortField | server/api-server.js:58-61 | a name is accepted exactly when it is in the allow-list {title, createdAt, _id}, and the accepted field has that name |
| Params.NormalizeSortBy | server/api-server.js:53-61 | an allow-listed `sortBy` is kept; any other value, empty or absent, becomes createdAt |
| Params.NormalizeDirection | server/api-server.js:54 | the direction is ascending if and only if `sortOrder` is exactly "asc" |
| Params.NormalizeListQuery | server/api-server.js:51-61 | normalisation never fails and always gives page >= 1 and limit in [1, 100] |
| Params.NormalizeIdempotent | server/api-server.js:51-61 | normalising an already normalised request returns it unchanged |
| Ordering.StrLeTotal | server/api-server.js:69 | any two strings are comparable in the binary order used to sort on title and _id |
| Ordering.StrLeTransitive | server/api-server.js:69 | the string order is transitive |
| Ordering.StrLeAntisymmetric | server/api-server.js:69 | two strings that are each at most the other are equal |
| Ordering.PrecedesTotal | server/api-server.js:69 | any two blogs are ordered one way or the other, for every field and direction |
| Ordering.PrecedesTransitive | server/api-server.js:69 | the sort order is transitive, for every field and direction |
| Ordering.Insert | server/api-server.js:69 | inserting adds exactly that one blog and removes nothing, counted with multiplicity |
| Ordering.InsertSorted | server/api-server.js:69 | inserting into a sequence sorted on a field and direction keeps it sorted |
| Ordering.Sort | server/api-server.js:67-69 | the result is sorted on the field in the direction and is a permutation of the input |
| Ordering.PrecedesBothWays | server/api-server.js:69 | two blogs that may each precede the other share the sort key |
| Ordering.SortedUnique | server/api-server.js:67-69 | with pairwise distinct keys, two sorted arrangements of the same blogs are equal |
| Ordering.DistinctKeysPermutation | server/api-server.js:67-69 | distinct keys are kept by any rearrangement of the blogs |
| Ordering.StoreOrderIsSort | server/api-server.js:67-69 | with pairwise distinct keys, any sorted arrangement the store may return is the model's sort |
| Ordering.InsertProjections | server/api-server.js:294-302 | projecting after an insertion gives the old projections plus exactly the inserted blog's |
| Ordering.SortProjections | server/api-server.js:294-302 | the projections of the sorted blogs are a permutation of the projections of the stored blogs |
| Ordering.SortedPrefixBound | server/api-server.js:249-262 | in a sorted sequence, a blog outside the first k comes no earlier than the k-th |
| Corpus.ProjectionsAppend | server/api-server.js:294-302 | projecting a concatenation is concatenating the projections |
| Paging.CeilDiv | server/api-server.js:75 | `Math.ceil(n / d)`: the least q with n <= q*d, and it is 0 exactly when n is 0 |
| Paging.Window | server/api-server.js:70-71 | skip-then-limit returns at most `limit` items; it is empty when skip is past the end; otherwise its i-th item is the input's (skip+i)-th |
| Paging.PageSize | server/api-server.js:55 | every page before the last holds exactly `limit` blogs; the last page holds 1 to `limit`; a page past the last is empty |
| Paging.PagesArePrefix | server/api-server.js:55 | pages 1 to k, concatenated, are the first min(total, k*limit) items |
| Paging.PagesCover | server/api-server.js:75 | pages 1 to totalPages, concatenated, give back the whole ordered result, so each blog is on exactly one page |
| Paging.InSomePage | server/api-server.js:55 | an item among the first k pages is on one particular page between 1 and k |
| BlogApi.ListBlogs | server/api-server.js:46-90 | the page is exactly the sorted corpus's items from index (page-1)*limit up to limit of them or the end; it is sorted; full before the last page, the remaining items on it, empty past it; totalPages is ceil(total/limit); hasNextPage iff page < totalPages; hasPrevPage iff page > 1 |
| BlogApi.PageOfSortedIsPage | server/api-server.js:70-71 | the page clause admits one page only: the skip-then-limit window of the sorted result |
| BlogApi.WindowOfSorted | server/api-server.js:69-71 | a skip/limit window of a sorted result is sorted and is a sub-multiset of it |
| BlogApi.SortedPageFacts | server/api-server.js:55-71 | a skip/limit page of a sorted result is sorted, positioned at the skip offset and holds min(limit, total - skip) items, or none past the end |
| BlogApi.ListingReachesEveryBlog | server/api-server.js:55-77 | when no two blogs share the sort key, every stored blog is on some page between 1 and totalPages of whatever sorted order each page request gets, and that page is what ListBlogs returns |
| BlogApi.Filter | server/api-server.js:157-162 | the filter keeps exactly the blogs whose title or content contains the query ignoring case, each as often as it is stored |
| BlogApi.SearchBlogs | server/api-server.js:139-187 | the request fails with 400 exactly when the trimmed query is shorter than 2 (in UTF-16 units), whatever the corpus; otherwise the page is exactly the skip/limit window of the matches newest first, every returned blog matches, total counts all matches, the limit is in [1, 50] and the trimmed query is echoed |
| BlogApi.SearchFindsEveryMatch | server/api-server.js:157-175 | when no two matches share createdAt, every matching blog is on some search page between 1 and totalPages of whatever newest-first order each request gets, and that page is what SearchBlogs returns |
| BlogApi.MinLength | server/api-server.js:241 | the minimum content length is at most every blog's length, and some blog has it |
| BlogApi.MaxLength | server/api-server.js:242 | the maximum content length is at least every blog's length, and some blog has it |
| BlogApi.RoundedMean | server/api-server.js:275 | `Math.round(sum / n)`: the nearest integer to the mean, with halves rounded up |
| BlogApi.TotalLengthBounds | server/api-server.js:240-242 | when every length lies in [lo, hi], the total lies in [n*lo, n*hi] |
| BlogApi.RoundedMeanBetween | server/api-server.js:240-242 | a rounded mean of values in [lo, hi] is in [lo, hi] |
| BlogApi.ContentStatsOf | server/api-server.js:235-247 | an empty corpus gives 0 for all three metrics; otherwise min <= rounded average <= max, both extremes are some blog's length, and the average is the rounded mean |
| BlogApi.TopEntriesDrawn | server/api-server.js:249-262 | the first m sorted blogs, projected, are drawn from the corpus's projections |
| BlogApi.TopEntriesExtreme | server/api-server.js:249-262 | a blog whose projection is not among the first m sorted comes no earlier than the m-th |
| BlogApi.EntriesOrdered | server/api-server.js:249-262 | projecting blogs sorted on createdAt keeps their order |
| BlogApi.EntriesBound | server/api-server.js:249-262 | every blog left out of the first m is no newer than the last one kept (no older, for ascending) |
| BlogApi.ExtremeEntries | server/api-server.js:249-262 | the first k sorted on createdAt, projected, are min(k, n) entries in order, drawn from the corpus, and are the k newest (or oldest) |
| BlogApi.GetStats | server/api-server.js:228-282 | totalBlogs is the corpus size; recentBlogs is the at most 5 newest in descending createdAt; oldestBlogs is the at most 3 oldest in ascending createdAt; the content statistics are as ContentStatsOf |
| BlogApi.ListTitles | server/api-server.js:294-302 | the titles listing is sorted by title ascending and is a permutation of the corpus's projections |
| BlogApi.FindFirst | server/api-server.js:115 | `findOne` returns the first blog in natural order that satisfies the filter, or nothing when none does |
| BlogApi.GetBlogById | server/api-server.js:102-127 | 400 exactly for an id that ObjectId.isValid rejects; 404 exactly for a valid id that no blog has; otherwise a stored blog with that id |
| BlogApi.GetBlogByIdFindsStored | server/api-server.js:107-126 | with unique ids, a valid id of a stored blog fetches exactly that blog |
| BlogApi.GetBlogByTitle | server/api-server.js:199-216 | 404 exactly when no blog has the title; otherwise the first blog in natural order with exactly that title |
| Text.Trim | server/api-server.js:143 | the trimmed query is the slice between the leading and the trailing JavaScript whitespace, and neither of its ends is whitespace |
| Text.TrimOfPadded | server/api-server.js:143 | trimming whitespace padding around a core that is not whitespace at either end gives back the core |
| Text.TrimIdempotent | server/api-server.js:185 | trimming the echoed query again changes nothing |
| Text.Utf16Length | server/api-server.js:143 | the JavaScript length is between the number of characters and twice that, and equals it exactly when no character is outside the Basic Multilingual Plane |
| Text.LowerEqualIff | server/api-server.js:159-160 | two strings lower-case to the same string exactly when they have the same length and differ only in the case of ASCII letters, the equivalence the `i` option matches up to |
| Text.Contains | server/api-server.js:159-160 | the search returns true exactly when the pattern occurs at some index of the text |
| ApiExamples.StatsOfTwoBlogs | server/api-server.js:264-278 | content lengths 5 and 2 give average 4, minimum 2, maximum 5 |
| ApiExamples.StatsOfNothing | server/api-server.js:264-279 | an empty collection gives zero blogs, all-zero content statistics and empty recent and oldest lists |
| ApiExamples.OneCharacterQueryRefused | server/api-server.js:143-148 | the query "a" gets 400 whatever the corpus |
| ApiExamples.AstralCharacterQueryAccepted | server/api-server.js:143 | a query of one character outside the Basic Multilingual Plane passes the length check |
| ApiExamples.TwoCharacterQueryOnNothing | server/api-server.js:143-186 | the query "ab" on an empty corpus succeeds with no results and 0 pages |
| ApiExamples.SearchJavaFindsJavaScript | server/api-server.js:157-162 | "java" matches the title "JavaScript Basics", ignoring case |
| ApiExamples.SearchJavaSkipsPython | server/api-server.js:157-162 | "java" does not match "Python Guide" |

## Left out

- Express wiring (lines 1-41 and 343-437) is not modelled: middleware, request logging, CORS, the `/api` documentation payload, the catch-all 404 route list, the error middleware, SIGINT handling and server start-up. They are I/O and bootstrap.
- The MongoDB connection, ping and the `/health` probe are not modelled (lines 27-41, 319-341). The store is an in-memory sequence that never fails, so the 500 answers to store failures do not appear.
- BlogApi.SearchBlogs: the query is matched as a literal substring. The code passes the raw trimmed query to `$regex`, so metacharacters such as `.` or `+` are read as a pattern, and an invalid pattern becomes a 500. Literal matching is the intended behaviour, so the model does not reproduce the regex reading.
- Text.ContainsIgnoringCase folds ASCII letters only. Unicode case folding by the regex engine is not modelled.
- Params.NormalizePage and Params.NormalizeLimit take the result of `parseInt` as `Option<int>`. `None` stands for absent or NaN. Prefix parsing, floats, very large numbers and repeated query parameters (which arrive as arrays) are not modelled.
- BlogApi.GetBlogById takes `ObjectId.isValid` as a parameter `isValidId`. Its exact rules depend on the driver version. Ids are compared as strings, so an upper-case hexadecimal id is not folded to the stored lower-case form.
- BlogApi.ListingReachesEveryBlog, BlogApi.SearchFindsEveryMatch: both need the sort keys (createdAt among the matches, for search) to be pairwise distinct. MongoDB gives no order among equal keys and sorts afresh for every page, so with ties a blog can show on two pages and another on none. The loader stamps `createdAt` for each file in one loop (server/index.js:42-46), so equal times do occur. Both lemmas also take the collection as unchanged across page requests and between `countDocuments` and `find`; concurrent writes are not modelled.
- Ordering.Sort: the order of blogs with equal sort keys is not promised by MongoDB. The model fixes one order, and its contract promises only sortedness and permutation.
- Content length is counted in Unicode code points, as `$strLenCP` does. Documents without a string `content` field, on which `$strLenCP` fails, are not modelled.
- The ingestion loader (`server/index.js`), the React UI (`ui/src/...`) and `editor.py` are not part of this model. They are file I/O, rendering and an HTTP client.
