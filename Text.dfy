/**
 * The string operations the search endpoint relies on: `String.prototype.trim`,
 * ASCII case folding, and literal substring containment.
 */
module Text {

  /** The characters `trim` removes: ECMAScript WhiteSpace (TAB, VT, FF,
      ZWNBSP and every space separator) and LineTerminator (LF, CR, LS, PS). */
  predicate IsTrimmable(c: char)
  {
    || c == '\t' || c == '\n' || c == '\U{000B}' || c == '\U{000C}' || c == '\r'
    || c == ' ' || c == '\U{00A0}' || c == '\U{1680}'
    || ('\U{2000}' <= c <= '\U{200A}')
    || c == '\U{2028}' || c == '\U{2029}' || c == '\U{202F}' || c == '\U{205F}'
    || c == '\U{3000}' || c == '\U{FEFF}'
  }

  predicate AllTrimmable(s: string)
  {
    forall i :: 0 <= i < |s| ==> IsTrimmable(s[i])
  }

  /** The first position at or after `i` that `trim` keeps, or `|s|`. */
  function FirstKept(s: string, i: nat): (k: nat)
    requires i <= |s|
    ensures i <= k <= |s|
    ensures forall j :: i <= j < k ==> IsTrimmable(s[j])
    ensures k < |s| ==> !IsTrimmable(s[k])
    decreases |s| - i
  {
    if i == |s| || !IsTrimmable(s[i]) then i else FirstKept(s, i + 1)
  }

  /** The end of what `trim` keeps of `s[lo..hi]`: everything from it up to
      `hi` is trimmable, and the character before it, if within the
      stretch, is not. */
  function LastKept(s: string, lo: nat, hi: nat): (k: nat)
    requires lo <= hi <= |s|
    ensures lo <= k <= hi
    ensures forall j :: k <= j < hi ==> IsTrimmable(s[j])
    ensures lo < k ==> !IsTrimmable(s[k - 1])
    decreases hi - lo
  {
    if hi == lo || !IsTrimmable(s[hi - 1]) then hi else LastKept(s, lo, hi - 1)
  }

  /** `String.prototype.trim`: the slice of `s` between its leading and its
      trailing trimmable characters. */
  function Trim(s: string): (r: string)
    ensures |r| <= |s|
    ensures r == [] || (!IsTrimmable(r[0]) && !IsTrimmable(r[|r| - 1]))
    ensures var a := FirstKept(s, 0); var b := LastKept(s, a, |s|);
      && r == s[a..b]
      && (forall j :: 0 <= j < a ==> IsTrimmable(s[j]))
      && (forall j :: b <= j < |s| ==> IsTrimmable(s[j]))
  {
    var a := FirstKept(s, 0);
    var b := LastKept(s, a, |s|);
    assert a < |s| ==> a < b;
    s[a..b]
  }

  lemma {:induction false} FirstKeptAt(s: string, i: nat, k: nat)
    requires i <= k <= |s|
    requires forall j :: i <= j < k ==> IsTrimmable(s[j])
    requires k < |s| ==> !IsTrimmable(s[k])
    ensures FirstKept(s, i) == k
    decreases k - i
  {
    if i < k {
      FirstKeptAt(s, i + 1, k);
    }
  }

  lemma {:induction false} LastKeptAt(s: string, lo: nat, hi: nat, k: nat)
    requires lo <= k <= hi <= |s|
    requires forall j :: k <= j < hi ==> IsTrimmable(s[j])
    requires lo < k ==> !IsTrimmable(s[k - 1])
    ensures LastKept(s, lo, hi) == k
    decreases hi - k
  {
    if k < hi {
      LastKeptAt(s, lo, hi - 1, k);
    }
  }

  /** `Trim` is the only way to cut a string into trimmable padding around a
      core that neither starts nor ends with a trimmable character. */
  lemma TrimOfPadded(p: string, m: string, q: string)
    requires AllTrimmable(p) && AllTrimmable(q)
    requires m == [] || (!IsTrimmable(m[0]) && !IsTrimmable(m[|m| - 1]))
    ensures Trim(p + m + q) == m
  {
    var s := p + m + q;
    assert forall j :: 0 <= j < |p| ==> s[j] == p[j];
    assert forall j :: |p| + |m| <= j < |s| ==> s[j] == q[j - |p| - |m|];
    if m == [] {
      FirstKeptAt(s, 0, |s|);
      LastKeptAt(s, |s|, |s|, |s|);
    } else {
      assert s[|p|] == m[0] && s[|p| + |m| - 1] == m[|m| - 1];
      FirstKeptAt(s, 0, |p|);
      LastKeptAt(s, |p|, |s|, |p| + |m|);
      assert s[|p|..|p| + |m|] == m;
    }
  }

  /** Trimming twice trims nothing more. */
  lemma TrimIdempotent(s: string)
    ensures Trim(Trim(s)) == Trim(s)
  {
    var r := Trim(s);
    assert r == [] + r + [];
    TrimOfPadded([], r, []);
  }

  /** JavaScript's `length`: UTF-16 code units, two for a character outside
      the Basic Multilingual Plane. */
  function Utf16Length(s: string): (n: nat)
    ensures |s| <= n <= 2 * |s|
    ensures n == |s| <==> forall i :: 0 <= i < |s| ==> s[i] as int < 0x1_0000
    decreases |s|
  {
    if s == [] then 0
    else
      var rest := Utf16Length(s[1..]);
      assert forall i :: 1 <= i < |s| ==> s[1..][i - 1] == s[i];
      (if s[0] as int < 0x1_0000 then 1 else 2) + rest
  }

  /** ASCII lower-casing of one character; all others are unchanged. */
  function LowerChar(c: char): char
  {
    if 'A' <= c <= 'Z' then (c as int + 32) as char else c
  }

  function Lower(s: string): (r: string)
    ensures |r| == |s|
    ensures forall i :: 0 <= i < |s| ==> r[i] == LowerChar(s[i])
  {
    seq(|s|, i requires 0 <= i < |s| => LowerChar(s[i]))
  }

  /** `a` and `b` are the same character up to the case of an ASCII letter. */
  predicate SameIgnoringCase(a: char, b: char)
  {
    || a == b
    || ('A' <= a <= 'Z' && b as int == a as int + 32)
    || ('A' <= b <= 'Z' && a as int == b as int + 32)
  }

  /** Lower-casing makes two strings equal exactly when they differ only in
      the case of ASCII letters, which is what the case-insensitive match
      ignores. */
  lemma LowerEqualIff(a: string, b: string)
    ensures Lower(a) == Lower(b) <==>
      |a| == |b| && forall i :: 0 <= i < |a| ==> SameIgnoringCase(a[i], b[i])
  {
    if |a| == |b| {
      forall i | 0 <= i < |a|
        ensures LowerChar(a[i]) == LowerChar(b[i]) <==> SameIgnoringCase(a[i], b[i])
      {
      }
      if Lower(a) != Lower(b) {
        var k :| 0 <= k < |a| && Lower(a)[k] != Lower(b)[k];
      }
    }
  }

  /** `pat` occurs in `text` starting at index `i`. */
  predicate OccursAt(pat: string, text: string, i: int)
  {
    0 <= i && i + |pat| <= |text| && text[i..i + |pat|] == pat
  }

  lemma ShiftOccurrence(pat: string, text: string, i: int)
    requires text != [] && 1 <= i
    ensures OccursAt(pat, text[1..], i - 1) <==> OccursAt(pat, text, i)
  {
    if i + |pat| <= |text| {
      assert text[1..][i - 1..i - 1 + |pat|] == text[i..i + |pat|];
    }
  }

  /** Literal substring search: does `pat` occur anywhere in `text`? */
  function Contains(text: string, pat: string): (b: bool)
    ensures b <==> exists i :: OccursAt(pat, text, i)
    decreases |text|
  {
    if pat <= text then
      assert OccursAt(pat, text, 0);
      true
    else if text == [] then
      false
    else
      var b := Contains(text[1..], pat);
      assert !OccursAt(pat, text, 0);
      assert forall i :: 1 <= i ==> (OccursAt(pat, text[1..], i - 1) <==> OccursAt(pat, text, i)) by {
        forall i | 1 <= i ensures OccursAt(pat, text[1..], i - 1) <==> OccursAt(pat, text, i) {
          ShiftOccurrence(pat, text, i);
        }
      }
      assert b ==> exists i :: OccursAt(pat, text, i) by {
        if b {
          var j :| OccursAt(pat, text[1..], j);
          assert OccursAt(pat, text, j + 1);
        }
      }
      assert (exists i :: OccursAt(pat, text, i)) ==> b by {
        if exists i :: OccursAt(pat, text, i) {
          var j :| OccursAt(pat, text, j);
          assert OccursAt(pat, text[1..], j - 1);
        }
      }
      b
  }

  /** Case-insensitive (ASCII) containment, the `$options: "i"` match. */
  predicate ContainsIgnoringCase(text: string, pat: string)
  {
    Contains(Lower(text), Lower(pat))
  }
}
