/**
 * Small vocabulary about strings shared by the other modules: "pattern occurs
 * at index" and "contains", a search for the text before the first occurrence
 * of a pattern, and the regroupings of concatenations the proofs rely on.
 */
module Text {

  /** `pat` occurs in `s` starting at index `i`. */
  predicate OccursAt(s: string, pat: string, i: nat)
  {
    i + |pat| <= |s| && s[i..i + |pat|] == pat
  }

  /** `pat` occurs somewhere in `s`. */
  ghost predicate Contains(s: string, pat: string)
  {
    exists i: nat :: OccursAt(s, pat, i)
  }

  /** The last part of a concatenation occurs right after the first. */
  lemma OccursAtEnd(a: string, b: string)
    ensures OccursAt(a + b, b, |a|)
  {
    assert (a + b)[|a|..|a| + |b|] == b;
  }

  /** Appending text keeps an occurrence where it was. */
  lemma OccursExtend(s: string, pat: string, i: nat, t: string)
    requires OccursAt(s, pat, i)
    ensures OccursAt(s + t, pat, i)
  {
    assert (s + t)[i..i + |pat|] == s[i..i + |pat|];
  }

  /** Prepending text shifts an occurrence by the length of that text. */
  lemma OccursPrepend(u: string, s: string, pat: string, i: nat)
    requires OccursAt(s, pat, i)
    ensures OccursAt(u + s, pat, |u| + i)
  {
    assert (u + s)[|u| + i..|u| + i + |pat|] == s[i..i + |pat|];
  }

  /** Regrouping a concatenation of three pieces. */
  lemma Regroup3(a: string, b: string, c: string)
    ensures a + (b + c) == a + b + c
  {
  }

  /** Regrouping a concatenation of four pieces: appending them one by one appends their concatenation. */
  lemma Regroup4(a: string, b: string, c: string, d: string)
    ensures a + b + c + d == a + (b + c + d)
    ensures a + b + (c + d) == a + (b + c + d)
  {
  }

  /** Regrouping a concatenation of six pieces after the second. */
  lemma Regroup6(a: string, b: string, c: string, d: string, e: string, f: string)
    ensures a + (b + c + d) + e + f == (a + b) + (c + d + (e + f))
  {
  }

  /** Regrouping a concatenation of seven pieces, moving the middle group one piece to the right. */
  lemma Regroup7(a: string, b: string, c: string, d: string, e: string, f: string, g: string)
    ensures a + (b + c + d) + e + f + g == a + b + c + (d + e + f) + g
  {
  }

  /** An occurrence that ends within the first part of a concatenation is an occurrence in that part. */
  lemma OccursInPrefix(s: string, t: string, pat: string, i: nat)
    requires OccursAt(s + t, pat, i) && i + |pat| <= |s|
    ensures OccursAt(s, pat, i)
  {
    assert s[i..i + |pat|] == (s + t)[i..i + |pat|];
  }

  /** A common first part keeps a prefix a prefix, and appending keeps one. */
  lemma PrefixConcat(a: string, b: string, c: string, d: string)
    requires b <= c
    ensures a + b <= a + c + d
  {
    assert (a + c + d)[..|a + b|] == a + b;
  }

  /** An occurrence inside an occurrence is an occurrence. */
  lemma OccursTransitive(s: string, mid: string, pat: string, i: nat, j: nat)
    requires OccursAt(s, mid, i) && OccursAt(mid, pat, j)
    ensures OccursAt(s, pat, i + j)
  {
    forall k | 0 <= k < |pat|
      ensures s[i + j + k] == pat[k]
    {
      assert mid[j + k] == pat[k];
      assert s[i + (j + k)] == mid[j + k];
    }
    assert s[i + j..i + j + |pat|] == pat;
  }

  /** Containment carries over from an occurrence to the enclosing string. */
  lemma ContainsTransitive(s: string, mid: string, pat: string, i: nat)
    requires OccursAt(s, mid, i) && Contains(mid, pat)
    ensures Contains(s, pat)
  {
    var j: nat :| OccursAt(mid, pat, j);
    OccursTransitive(s, mid, pat, i, j);
  }

  /** Occurrences in `s[1..]` are the occurrences in `s` shifted by one. */
  lemma OccursShift(s: string, pat: string, i: nat)
    requires |s| > 0
    ensures OccursAt(s, pat, i + 1) <==> OccursAt(s[1..], pat, i)
  {
    if i + 1 + |pat| <= |s| {
      assert s[i + 1..i + 1 + |pat|] == s[1..][i..i + |pat|];
    }
  }

  /**
   * The longest prefix of `s` in which `stop` does not start; `s` itself when
   * `stop` never occurs.
   */
  function Before(s: string, stop: string): (r: string)
    ensures r <= s
    ensures forall i: nat :: i < |r| ==> !OccursAt(s, stop, i)
    ensures |r| < |s| ==> OccursAt(s, stop, |r|)
    decreases |s|
  {
    if |s| == 0 || stop <= s then
      []
    else
      var rest := Before(s[1..], stop);
      BeforeStep(s, stop, rest);
      [s[0]] + rest
  }

  /** The induction step of `Before`: a search that fails at index 0 continues at index 1. */
  lemma BeforeStep(s: string, stop: string, rest: string)
    requires |s| > 0 && !(stop <= s)
    requires forall i: nat :: i < |rest| ==> !OccursAt(s[1..], stop, i)
    requires |rest| < |s[1..]| ==> OccursAt(s[1..], stop, |rest|)
    ensures forall i: nat :: i < |rest| + 1 ==> !OccursAt(s, stop, i)
    ensures |rest| + 1 < |s| ==> OccursAt(s, stop, |rest| + 1)
  {
    forall i: nat | i < |rest| + 1
      ensures !OccursAt(s, stop, i)
    {
      if i > 0 { OccursShift(s, stop, i - 1); }
    }
    if |rest| + 1 < |s| { OccursShift(s, stop, |rest|); }
  }

  /** `Before` stops at the first occurrence of `stop`, wherever that is. */
  lemma BeforeAt(s: string, stop: string, n: nat)
    requires OccursAt(s, stop, n)
    requires forall i: nat :: i < n ==> !OccursAt(s, stop, i)
    ensures Before(s, stop) == s[..n]
  {
  }
}
