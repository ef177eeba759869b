/** Worked examples of the handlers on small concrete corpora. */
module ApiExamples {
  import opened Wrappers
  import opened Corpus
  import opened Text
  import opened Params
  import opened BlogApi

  /** Content lengths 5 and 2: the average 3.5 rounds up to 4. */
  lemma StatsOfTwoBlogs()
    ensures var corpus := [Blog("a1", "A", "xxxxx", 1), Blog("b2", "B", "xx", 2)];
      GetStats(corpus).contentStats == ContentStats(4, 2, 5)
  {
    var a, b := Blog("a1", "A", "xxxxx", 1), Blog("b2", "B", "xx", 2);
    var corpus := [a, b];
    assert |a.content| == 5 && |b.content| == 2;
    assert corpus[1..] == [b];
    assert TotalLength([b]) == 2 by { assert [b][1..] == []; }
    assert TotalLength(corpus) == 7;
    var c := ContentStatsOf(corpus);
    assert c.minimumLength == 2;
    assert c.maximumLength == 5;
    assert 4 * c.averageLength <= 16 < 4 * (c.averageLength + 1);
  }

  /** Statistics of an empty collection are all zero, not missing. */
  lemma StatsOfNothing()
    ensures GetStats([]) == Stats(0, ContentStats(0, 0, 0), [], [])
  {
  }

  /** A one-character query is refused whatever is stored. */
  lemma OneCharacterQueryRefused(corpus: seq<Blog>, page: Option<int>, limit: Option<int>)
    ensures var r := SearchBlogs(corpus, "a", page, limit);
      r.Failure? && StatusCode(r.error) == 400
  {
    var q := "a";
    assert |q| == 1;
    assert |Trim(q)| <= 1;
  }

  /** One character outside the Basic Multilingual Plane is two UTF-16 code
      units long, so it passes the length check on its own. */
  lemma AstralCharacterQueryAccepted(corpus: seq<Blog>, c: char)
    requires c as int >= 0x1_0000
    ensures SearchBlogs(corpus, [c], None, None).Success?
  {
    var q := [c];
    assert !IsTrimmable(c);
    assert q == [] + q + [];
    TrimOfPadded([], q, []);
    assert Utf16Length(q) == 2 by {
      assert q[1..] == [];
    }
  }

  /** A two-character query over an empty collection is an empty success. */
  lemma TwoCharacterQueryOnNothing()
    ensures var r := SearchBlogs([], "ab", None, None);
      r.Success? && r.value.data == [] && r.value.pagination.totalPages == 0
  {
    var q := "ab";
    assert !IsTrimmable(q[0]) && !IsTrimmable(q[1]);
    assert q == [] + q + [];
    TrimOfPadded([], q, []);
  }

  /** "java" finds "JavaScript Basics" by its title, ignoring case. */
  lemma SearchJavaFindsJavaScript()
    ensures Matches("java", Blog("1", "JavaScript Basics", "", 1))
  {
    var t, q := "JavaScript Basics", "java";
    var lt, lq := Lower(t), Lower(q);
    assert lq == q by {
      assert forall i :: 0 <= i < |q| ==> 'a' <= q[i] <= 'z';
    }
    assert lt[..4] == q by {
      assert t[0] == 'J' && t[1] == 'a' && t[2] == 'v' && t[3] == 'a';
    }
    assert OccursAt(lq, lt, 0);
  }

  /** ... and does not find "Python Guide", which has no `j` at all. */
  lemma SearchJavaSkipsPython()
    ensures !Matches("java", Blog("2", "Python Guide", "", 2))
  {
    var t, q := "Python Guide", "java";
    var lt, lq := Lower(t), Lower(q);
    assert lq[0] == 'j';
    assert forall i :: 0 <= i < |t| ==> t[i] != 'j' && t[i] != 'J';
    assert forall i :: 0 <= i < |lt| ==> lt[i] != 'j';
    assert Lower("") == "";
  }
}
