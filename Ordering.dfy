/**
 * The orders MongoDB sorts on: binary lexicographic order on strings (the
 * default collation, which is code-point order), numeric order on creation
 * times, and the ascending or descending direction of a sort specification.
 * `Sort` stands in for the store's `.sort(...)`; the order it gives to blogs
 * with equal keys is not part of any promise.
 */
module Ordering {
  import opened Corpus

  /** `a` is lexicographically at most `b`. */
  predicate StrLe(a: string, b: string)
    decreases |a|
  {
    a == [] || (b != [] && (a[0] < b[0] || (a[0] == b[0] && StrLe(a[1..], b[1..]))))
  }

  lemma {:induction false} StrLeTotal(a: string, b: string)
    ensures StrLe(a, b) || StrLe(b, a)
    decreases |a|
  {
    if a != [] && b != [] && a[0] == b[0] {
      StrLeTotal(a[1..], b[1..]);
    }
  }

  lemma {:induction false} StrLeTransitive(a: string, b: string, c: string)
    requires StrLe(a, b) && StrLe(b, c)
    ensures StrLe(a, c)
    decreases |a|
  {
    if a != [] && a[0] == b[0] && b[0] == c[0] {
      StrLeTransitive(a[1..], b[1..], c[1..]);
    }
  }

  lemma {:induction false} StrLeAntisymmetric(a: string, b: string)
    requires StrLe(a, b) && StrLe(b, a)
    ensures a == b
    decreases |a|
  {
    if a != [] {
      StrLeAntisymmetric(a[1..], b[1..]);
      assert a == [a[0]] + a[1..] && b == [b[0]] + b[1..];
    }
  }

  /** The key of `a` under field `f` is at most that of `b`. */
  predicate KeyLe(f: SortField, a: Blog, b: Blog)
  {
    match f
    case Title => StrLe(a.title, b.title)
    case CreatedAt => a.createdAt <= b.createdAt
    case Id => StrLe(a.id, b.id)
  }

  /** `a` may stand before `b` in a result sorted on `f` in direction `d`. */
  predicate Precedes(f: SortField, d: Direction, a: Blog, b: Blog)
  {
    if d == Asc then KeyLe(f, a, b) else KeyLe(f, b, a)
  }

  lemma PrecedesTotal(f: SortField, d: Direction, a: Blog, b: Blog)
    ensures Precedes(f, d, a, b) || Precedes(f, d, b, a)
  {
    match f
    case Title => StrLeTotal(a.title, b.title);
    case CreatedAt =>
    case Id => StrLeTotal(a.id, b.id);
  }

  lemma PrecedesTransitive(f: SortField, d: Direction, a: Blog, b: Blog, c: Blog)
    requires Precedes(f, d, a, b) && Precedes(f, d, b, c)
    ensures Precedes(f, d, a, c)
  {
    match f
    case Title =>
      if d == Asc { StrLeTransitive(a.title, b.title, c.title); }
      else { StrLeTransitive(c.title, b.title, a.title); }
    case CreatedAt =>
    case Id =>
      if d == Asc { StrLeTransitive(a.id, b.id, c.id); }
      else { StrLeTransitive(c.id, b.id, a.id); }
  }

  /** `a` and `b` have the same key under field `f`. */
  predicate SameKey(f: SortField, a: Blog, b: Blog)
  {
    match f
    case Title => a.title == b.title
    case CreatedAt => a.createdAt == b.createdAt
    case Id => a.id == b.id
  }

  /** No two positions of `s` share a key under field `f`. */
  predicate DistinctKeys(f: SortField, s: seq<Blog>)
  {
    forall i, j :: 0 <= i < j < |s| ==> !SameKey(f, s[i], s[j])
  }

  /** Two blogs that may each stand before the other have the same key. */
  lemma PrecedesBothWays(f: SortField, d: Direction, a: Blog, b: Blog)
    requires Precedes(f, d, a, b) && Precedes(f, d, b, a)
    ensures SameKey(f, a, b)
  {
    match f
    case Title => StrLeAntisymmetric(a.title, b.title);
    case CreatedAt =>
    case Id => StrLeAntisymmetric(a.id, b.id);
  }

  /** With pairwise distinct keys there is only one sorted order: any two
      sorted arrangements of the same blogs are equal, so the order the
      store returns does not depend on how it breaks ties. */
  lemma {:induction false} SortedUnique(f: SortField, d: Direction, a: seq<Blog>, b: seq<Blog>)
    requires Sorted(f, d, a) && Sorted(f, d, b) && multiset(a) == multiset(b)
    requires DistinctKeys(f, a)
    ensures a == b
    decreases |a|
  {
    assert |a| == |multiset(a)| == |multiset(b)| == |b|;
    if a != [] {
      SortedHeadsMeet(f, d, a, b);
      SortedTails(f, d, a, b);
      SortedUnique(f, d, a[1..], b[1..]);
      assert a == [a[0]] + a[1..] && b == [b[0]] + b[1..];
    }
  }

  /** Sorted arrangements of the same blogs with distinct keys start alike. */
  lemma SortedHeadsMeet(f: SortField, d: Direction, a: seq<Blog>, b: seq<Blog>)
    requires Sorted(f, d, a) && Sorted(f, d, b) && multiset(a) == multiset(b)
    requires DistinctKeys(f, a) && a != [] && b != []
    ensures a[0] == b[0]
  {
    assert a[0] in multiset(b) && b[0] in multiset(a);
    var j :| 0 <= j < |a| && a[j] == b[0];
    var k :| 0 <= k < |b| && b[k] == a[0];
    if j > 0 && k > 0 {
      PrecedesBothWays(f, d, a[0], a[j]);
    }
  }

  /** Removing a common head keeps both sorted, the same blogs, and the
      keys distinct. */
  lemma SortedTails(f: SortField, d: Direction, a: seq<Blog>, b: seq<Blog>)
    requires Sorted(f, d, a) && Sorted(f, d, b) && multiset(a) == multiset(b)
    requires DistinctKeys(f, a) && a != [] && b != [] && a[0] == b[0]
    ensures Sorted(f, d, a[1..]) && Sorted(f, d, b[1..])
    ensures multiset(a[1..]) == multiset(b[1..])
    ensures DistinctKeys(f, a[1..])
  {
    SortedTail(f, d, a);
    SortedTail(f, d, b);
    DistinctKeysTail(f, a);
    TailMultiset(a);
    TailMultiset(b);
  }

  lemma SortedTail(f: SortField, d: Direction, s: seq<Blog>)
    requires Sorted(f, d, s) && s != []
    ensures Sorted(f, d, s[1..])
  {
    var t := s[1..];
    forall i, j | 0 <= i < j < |t| ensures Precedes(f, d, t[i], t[j]) {
      assert t[i] == s[i + 1] && t[j] == s[j + 1];
    }
  }

  lemma DistinctKeysTail(f: SortField, s: seq<Blog>)
    requires DistinctKeys(f, s) && s != []
    ensures DistinctKeys(f, s[1..])
  {
    var t := s[1..];
    forall i, j | 0 <= i < j < |t| ensures !SameKey(f, t[i], t[j]) {
      assert t[i] == s[i + 1] && t[j] == s[j + 1];
    }
  }

  lemma TailMultiset(s: seq<Blog>)
    requires s != []
    ensures multiset(s[1..]) == multiset(s) - multiset{s[0]}
  {
    assert s == [s[0]] + s[1..];
  }

  /** Distinct keys are a property of the blogs, not of their arrangement. */
  lemma DistinctKeysPermutation(f: SortField, a: seq<Blog>, b: seq<Blog>)
    requires multiset(a) == multiset(b) && DistinctKeys(f, a)
    ensures DistinctKeys(f, b)
  {
    forall i, j | 0 <= i < j < |b| ensures !SameKey(f, b[i], b[j]) {
      assert b[i] in multiset(a) && b[j] in multiset(a);
      var p :| 0 <= p < |a| && a[p] == b[i];
      var q :| 0 <= q < |a| && a[q] == b[j];
      RepeatCounts(b, i, j);
      OccursOnce(f, a, p);
      DistinctAt(f, a, p, q);
    }
  }

  /** A blog found at two positions is counted at least twice. */
  lemma RepeatCounts(s: seq<Blog>, i: nat, j: nat)
    requires i < j < |s|
    ensures s[i] == s[j] ==> multiset(s)[s[i]] >= 2
  {
    if s[i] == s[j] {
      assert s == s[..j] + s[j..];
      assert s[..j][i] == s[i] && s[j..][0] == s[j];
      assert multiset(s)[s[i]] == multiset(s[..j])[s[i]] + multiset(s[j..])[s[i]];
    }
  }

  /** With distinct keys every blog of `s` occurs exactly once. */
  lemma OccursOnce(f: SortField, s: seq<Blog>, p: nat)
    requires DistinctKeys(f, s) && p < |s|
    ensures multiset(s)[s[p]] == 1
  {
    var x := s[p];
    forall r | 0 <= r < |s| && r != p ensures s[r] != x {
      DistinctAt(f, s, r, p);
    }
    assert s == s[..p] + [x] + s[p + 1..];
    var before := s[..p];
    assert x !in before by {
      forall r | 0 <= r < |before| ensures before[r] != x { assert before[r] == s[r]; }
    }
    var after := s[p + 1..];
    assert x !in after by {
      forall r | 0 <= r < |after| ensures after[r] != x { assert after[r] == s[p + 1 + r]; }
    }
  }

  /** Two different positions of `s` hold blogs with different keys. */
  lemma DistinctAt(f: SortField, s: seq<Blog>, p: nat, q: nat)
    requires DistinctKeys(f, s) && p < |s| && q < |s|
    ensures p != q ==> !SameKey(f, s[p], s[q])
  {
    if p > q {
      assert !SameKey(f, s[q], s[p]);
    }
  }

  /** Whatever order the store returns for a sort on `f`, it is `Sort`'s
      order, once the blogs' keys under `f` are pairwise distinct. */
  lemma StoreOrderIsSort(f: SortField, d: Direction, s: seq<Blog>, order: seq<Blog>)
    requires Sorted(f, d, order) && multiset(order) == multiset(s)
    requires DistinctKeys(f, s)
    ensures order == Sort(f, d, s)
  {
    DistinctKeysPermutation(f, s, Sort(f, d, s));
    SortedUnique(f, d, Sort(f, d, s), order);
  }

  predicate Sorted(f: SortField, d: Direction, s: seq<Blog>)
  {
    forall i, j :: 0 <= i < j < |s| ==> Precedes(f, d, s[i], s[j])
  }

  /** Inserts `b` before the first element of `s` that it may precede. */
  function Insert(f: SortField, d: Direction, b: Blog, s: seq<Blog>): (r: seq<Blog>)
    ensures multiset(r) == multiset(s) + multiset{b}
    decreases |s|
  {
    if s == [] then
      [b]
    else if Precedes(f, d, b, s[0]) then
      [b] + s
    else
      assert s == [s[0]] + s[1..];
      [s[0]] + Insert(f, d, b, s[1..])
  }

  /** Inserting into a sorted sequence keeps it sorted. */
  lemma {:induction false} InsertSorted(f: SortField, d: Direction, b: Blog, s: seq<Blog>)
    requires Sorted(f, d, s)
    ensures Sorted(f, d, Insert(f, d, b, s))
    decreases |s|
  {
    if s == [] {
    } else if Precedes(f, d, b, s[0]) {
      ConsSorted(f, d, b, s);
    } else {
      var rest := Insert(f, d, b, s[1..]);
      InsertSorted(f, d, b, s[1..]);
      PrecedesTotal(f, d, b, s[0]);
      ConsSortedAfter(f, d, s, b, rest);
    }
  }

  /** A blog that may precede the head of a sorted sequence may lead it. */
  lemma ConsSorted(f: SortField, d: Direction, b: Blog, s: seq<Blog>)
    requires Sorted(f, d, s) && s != [] && Precedes(f, d, b, s[0])
    ensures Sorted(f, d, [b] + s)
  {
    forall j | 0 < j < |s| ensures Precedes(f, d, b, s[j]) {
      PrecedesTransitive(f, d, b, s[0], s[j]);
    }
    var t := [b] + s;
    forall i, j | 0 <= i < j < |t| ensures Precedes(f, d, t[i], t[j]) {
      if i > 0 { assert t[i] == s[i - 1] && t[j] == s[j - 1]; }
      else { assert t[j] == s[j - 1]; }
    }
  }

  /** The head of a sorted `s` may lead any sorted `rest` drawn from the rest
      of `s` and `b`, when it may precede `b`. */
  lemma ConsSortedAfter(f: SortField, d: Direction, s: seq<Blog>, b: Blog, rest: seq<Blog>)
    requires Sorted(f, d, s) && s != [] && Precedes(f, d, s[0], b)
    requires Sorted(f, d, rest) && multiset(rest) == multiset(s[1..]) + multiset{b}
    ensures Sorted(f, d, [s[0]] + rest)
  {
    var t := [s[0]] + rest;
    forall x | x in rest ensures Precedes(f, d, s[0], x) {
      assert x in multiset(rest);
      if x != b {
        assert x in multiset(s[1..]);
        var k :| 0 <= k < |s[1..]| && s[1..][k] == x;
        assert s[k + 1] == x;
      }
    }
    forall i, j | 0 <= i < j < |t| ensures Precedes(f, d, t[i], t[j]) {
      assert t[j] == rest[j - 1];
      if i > 0 { assert t[i] == rest[i - 1]; }
    }
  }

  /** The blogs of `s` ordered on `f` in direction `d`. */
  function Sort(f: SortField, d: Direction, s: seq<Blog>): (r: seq<Blog>)
    ensures Sorted(f, d, r)
    ensures multiset(r) == multiset(s)
    ensures |r| == |s|
    decreases |s|
  {
    if s == [] then
      []
    else
      assert s == [s[0]] + s[1..];
      var rest := Sort(f, d, s[1..]);
      InsertSorted(f, d, s[0], rest);
      Insert(f, d, s[0], rest)
  }

  /** Projecting after an insertion adds exactly the inserted blog's projection. */
  lemma {:induction false} InsertProjections(f: SortField, d: Direction, b: Blog, s: seq<Blog>)
    ensures multiset(Projections(Insert(f, d, b, s))) == multiset(Projections(s)) + multiset{Project(b)}
    decreases |s|
  {
    if s == [] || Precedes(f, d, b, s[0]) {
      InsertFront(f, d, b, s);
    } else {
      InsertProjections(f, d, b, s[1..]);
      InsertBehind(f, d, b, s);
    }
  }

  lemma InsertFront(f: SortField, d: Direction, b: Blog, s: seq<Blog>)
    requires s == [] || Precedes(f, d, b, s[0])
    ensures multiset(Projections(Insert(f, d, b, s))) == multiset(Projections(s)) + multiset{Project(b)}
  {
    assert Insert(f, d, b, s) == [b] + s;
    ProjectionsConsMultiset(b, s);
  }

  lemma InsertBehind(f: SortField, d: Direction, b: Blog, s: seq<Blog>)
    requires s != [] && !Precedes(f, d, b, s[0])
    requires multiset(Projections(Insert(f, d, b, s[1..]))) == multiset(Projections(s[1..])) + multiset{Project(b)}
    ensures multiset(Projections(Insert(f, d, b, s))) == multiset(Projections(s)) + multiset{Project(b)}
  {
    var t := Insert(f, d, b, s[1..]);
    assert Insert(f, d, b, s) == [s[0]] + t;
    ProjectionsConsStep(s[0], t, s[1..], Project(b));
    assert [s[0]] + s[1..] == s;
  }

  /** Sorting reorders the projections of the blogs, and nothing more. */
  lemma {:induction false} SortProjections(f: SortField, d: Direction, s: seq<Blog>)
    ensures multiset(Projections(Sort(f, d, s))) == multiset(Projections(s))
    decreases |s|
  {
    if s != [] {
      SortProjections(f, d, s[1..]);
      SortProjectionsStep(f, d, s);
    }
  }

  lemma SortProjectionsStep(f: SortField, d: Direction, s: seq<Blog>)
    requires s != []
    requires multiset(Projections(Sort(f, d, s[1..]))) == multiset(Projections(s[1..]))
    ensures multiset(Projections(Sort(f, d, s))) == multiset(Projections(s))
  {
    var t := Sort(f, d, s[1..]);
    assert Sort(f, d, s) == Insert(f, d, s[0], t);
    InsertProjections(f, d, s[0], t);
    ProjectionsConsMultiset(s[0], s[1..]);
    assert [s[0]] + s[1..] == s;
  }

  /** In a sorted sequence, any element from position `k` on is preceded by
      the one at `k - 1`, the last element of the first `k`. */
  lemma SortedPrefixBound(f: SortField, d: Direction, s: seq<Blog>, k: nat, x: Blog)
    requires Sorted(f, d, s) && 0 < k <= |s|
    requires x in s && x !in s[..k]
    ensures Precedes(f, d, s[k - 1], x)
  {
    var j :| 0 <= j < |s| && s[j] == x;
  }
}
