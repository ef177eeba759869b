/**
 * The stored documents of the `blogs` collection, and the values the query
 * layer builds from them. The MongoDB collection itself is replaced by an
 * in-memory `seq<Blog>` in natural (insertion) order.
 */
module Corpus {

  /** One stored blog document. `id` is the hexadecimal text of the document's
      ObjectId and `createdAt` its creation time in milliseconds. */
  datatype Blog = Blog(id: string, title: string, content: string, createdAt: int)

  /** A blog projected with `{ title: 1, createdAt: 1 }`; MongoDB keeps `_id`
      in a projection unless it is excluded, so the id stays. */
  datatype TitleEntry = TitleEntry(id: string, title: string, createdAt: int)

  /** The sort keys the listing endpoint accepts. */
  datatype SortField = Title | CreatedAt | Id

  /** A MongoDB sort direction: `1` is ascending, `-1` descending. */
  datatype Direction = Asc | Desc

  /** The name under which a sort key travels in a request. */
  function FieldName(f: SortField): string
  {
    match f
    case Title => "title"
    case CreatedAt => "createdAt"
    case Id => "_id"
  }

  /** The `{ title: 1, createdAt: 1 }` projection of one blog. */
  function Project(b: Blog): TitleEntry
  {
    TitleEntry(b.id, b.title, b.createdAt)
  }

  /** The projection of every blog of `s`, in the same order. */
  function Projections(s: seq<Blog>): (r: seq<TitleEntry>)
  {
    seq(|s|, i requires 0 <= i < |s| => Project(s[i]))
  }

  lemma {:induction false} ProjectionsCons(b: Blog, s: seq<Blog>)
    ensures Projections([b] + s) == [Project(b)] + Projections(s)
  {
    assert ([b] + s)[1..] == s;
  }

  lemma ProjectionsConsMultiset(b: Blog, s: seq<Blog>)
    ensures multiset(Projections([b] + s)) == multiset(Projections(s)) + multiset{Project(b)}
  {
    ProjectionsCons(b, s);
  }

  /** Putting the same blog in front of two sequences keeps a difference of
      one projection between them. */
  lemma ProjectionsConsStep(b: Blog, t: seq<Blog>, u: seq<Blog>, e: TitleEntry)
    requires multiset(Projections(t)) == multiset(Projections(u)) + multiset{e}
    ensures multiset(Projections([b] + t)) == multiset(Projections([b] + u)) + multiset{e}
  {
    ProjectionsConsMultiset(b, t);
    ProjectionsConsMultiset(b, u);
  }

  lemma {:induction false} ProjectionsAppend(a: seq<Blog>, b: seq<Blog>)
    ensures Projections(a + b) == Projections(a) + Projections(b)
  {
    var l, r := Projections(a + b), Projections(a) + Projections(b);
    assert |l| == |r|;
    forall i | 0 <= i < |l| ensures l[i] == r[i] {
      if i < |a| { assert (a + b)[i] == a[i]; } else { assert (a + b)[i] == b[i - |a|]; }
    }
  }
}
