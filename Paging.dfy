/**
 * Pagination arithmetic shared by listing and search: `skip = (page - 1) *
 * limit`, the `.skip(skip).limit(limit)` window of an ordered result, and
 * `Math.ceil(total / limit)` pages.
 */
module Paging {
  import opened Params

  /** `Math.ceil(n / d)` on naturals. */
  function CeilDiv(n: nat, d: nat): (q: nat)
    requires d >= 1
    ensures n <= q * d
    ensures q == 0 || (q - 1) * d < n
    ensures q == 0 <==> n == 0
  {
    var q := (n + d - 1) / d;
    assert q * d <= n + d - 1 < q * d + d;
    assert (q - 1) * d == q * d - d;
    q
  }

  /** `.skip(skip).limit(limit)` applied to the ordered result `s`. */
  function Window<T>(s: seq<T>, skip: nat, limit: nat): (w: seq<T>)
    ensures |w| <= limit
    ensures skip >= |s| ==> w == []
    ensures skip < |s| ==> |w| == Min(limit, |s| - skip)
    ensures forall i :: 0 <= i < |w| ==> skip + i < |s| && w[i] == s[skip + i]
  {
    if skip >= |s| then [] else s[skip..Min(|s|, skip + limit)]
  }

  /** The number of documents skipped to reach `page`. */
  function Skip(page: nat, limit: nat): nat
    requires page >= 1
  {
    (page - 1) * limit
  }

  /** The documents of page `page` of the ordered result `s`. */
  function PageOf<T>(s: seq<T>, page: nat, limit: nat): seq<T>
    requires page >= 1
  {
    Window(s, Skip(page, limit), limit)
  }

  lemma MulMonotone(a: int, b: int, c: nat)
    requires a <= b
    ensures a * c <= b * c
  {
  }

  /** Every page before the last is full, the last holds the remaining
      one to `limit` documents, and a page past the last is empty. */
  lemma PageSize<T>(s: seq<T>, page: nat, limit: nat)
    requires page >= 1 && limit >= 1
    ensures var n, w := CeilDiv(|s|, limit), PageOf(s, page, limit);
      && (page < n ==> |w| == limit)
      && (page == n ==> 1 <= |w| <= limit && |w| == |s| - Skip(page, limit))
      && (page > n ==> w == [])
  {
    var n := CeilDiv(|s|, limit);
    var skip := Skip(page, limit);
    assert skip + limit == page * limit;
    if page < n {
      MulMonotone(page, n - 1, limit);
    } else if page == n {
      assert skip < |s|;
    } else {
      MulMonotone(n, page - 1, limit);
    }
  }

  /** Pages 1 to `k` of `s`, one after the other. */
  function Pages<T>(s: seq<T>, limit: nat, k: nat): seq<T>
  {
    if k == 0 then [] else Pages(s, limit, k - 1) + PageOf(s, k, limit)
  }

  lemma {:induction false} PagesArePrefix<T>(s: seq<T>, limit: nat, k: nat)
    ensures Pages(s, limit, k) == s[..Min(|s|, k * limit)]
  {
    if k > 0 {
      PagesArePrefix(s, limit, k - 1);
      var skip := Skip(k, limit);
      assert skip + limit == k * limit;
      assert skip == (k - 1) * limit;
      if skip < |s| {
        assert s[..skip] + s[skip..Min(|s|, skip + limit)] == s[..Min(|s|, k * limit)];
      } else {
        MulMonotone(k - 1, k, limit);
      }
    }
  }

  /** Walking through pages 1 to `CeilDiv(|s|, limit)` yields every document
      exactly once, in order. */
  lemma PagesCover<T>(s: seq<T>, limit: nat)
    requires limit >= 1
    ensures Pages(s, limit, CeilDiv(|s|, limit)) == s
  {
    PagesArePrefix(s, limit, CeilDiv(|s|, limit));
  }

  /** Whatever lies in the first `k` pages lies in one of them. */
  lemma {:induction false} InSomePage<T>(s: seq<T>, limit: nat, k: nat, x: T)
    requires x in Pages(s, limit, k)
    ensures exists page :: 1 <= page <= k && x in PageOf(s, page, limit)
  {
    if k > 0 {
      if x in Pages(s, limit, k - 1) {
        InSomePage(s, limit, k - 1, x);
      } else {
        assert x in PageOf(s, k, limit);
      }
    }
  }
}
