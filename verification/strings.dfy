/**
 * Go's strings.TrimSpace, which the quiz applies to every CSV field and to
 * every answer line before grading: it removes leading and trailing white
 * space, as defined by unicode.IsSpace. Like Go's implementation it finds
 * the first character that is not white space, then the end of the text
 * after it, and returns what lies between.
 */
module Strings {

  /** unicode.IsSpace: the Latin-1 white space characters and the other
      code points with the Unicode White_Space property. */
  predicate IsSpace(c: char) {
    || c == ' ' || c == '\t' || c == '\n' || c == '\r'
    || c == '\U{0B}' || c == '\U{0C}' || c == '\U{85}' || c == '\U{A0}'
    || c == '\U{1680}' || ('\U{2000}' <= c <= '\U{200A}')
    || c == '\U{2028}' || c == '\U{2029}' || c == '\U{202F}'
    || c == '\U{205F}' || c == '\U{3000}'
  }

  /** Every character of `s` at a position in [i, j) is white space. */
  predicate SpaceBetween(s: string, i: int, j: int)
    requires 0 <= i && j <= |s|
  {
    forall k :: i <= k < j ==> IsSpace(s[k])
  }

  /** Every character of `s` is white space. */
  predicate AllSpace(s: string) {
    SpaceBetween(s, 0, |s|)
  }

  /** `s` is empty or begins and ends with a character that is not white space. */
  predicate Trimmed(s: string) {
    s == [] || (!IsSpace(s[0]) && !IsSpace(s[|s| - 1]))
  }

  /** The first position at or after `i` that does not hold white space
      (|s| if there is none). */
  function FirstNonSpace(s: string, i: nat): (k: nat)
    requires i <= |s|
    ensures i <= k <= |s| && SpaceBetween(s, i, k)
    ensures k < |s| ==> !IsSpace(s[k])
    decreases |s| - i
  {
    if i < |s| && IsSpace(s[i]) then FirstNonSpace(s, i + 1) else i
  }

  /** The end of the text in s[lo..hi]: the least position from which only
      white space remains before `hi` (`lo` if there is no text). */
  function EndNonSpace(s: string, lo: nat, hi: nat): (k: nat)
    requires lo <= hi <= |s|
    ensures lo <= k <= hi && SpaceBetween(s, k, hi)
    ensures k > lo ==> !IsSpace(s[k - 1])
    decreases hi
  {
    if hi > lo && IsSpace(s[hi - 1]) then EndNonSpace(s, lo, hi - 1) else hi
  }

  /** strings.TrimSpace: the middle of `s` once the white space around it is
      removed. */
  function TrimSpace(s: string): (r: string)
    ensures Trimmed(r)
    ensures var start := FirstNonSpace(s, 0);
      && start + |r| <= |s|
      && r == s[start..start + |r|]
      && SpaceBetween(s, 0, start)
      && SpaceBetween(s, start + |r|, |s|)
  {
    var start := FirstNonSpace(s, 0);
    var stop := EndNonSpace(s, start, |s|);
    s[start..stop]
  }

  /** FirstNonSpace is the only position with the properties it ensures. */
  lemma FirstNonSpaceUnique(s: string, i: nat, k: nat)
    requires i <= k <= |s| && SpaceBetween(s, i, k) && (k < |s| ==> !IsSpace(s[k]))
    ensures FirstNonSpace(s, i) == k
  {
  }

  /** EndNonSpace is the only position with the properties it ensures. */
  lemma EndNonSpaceUnique(s: string, lo: nat, hi: nat, k: nat)
    requires lo <= k <= hi <= |s| && SpaceBetween(s, k, hi) && (k > lo ==> !IsSpace(s[k - 1]))
    ensures EndNonSpace(s, lo, hi) == k
  {
  }

  /** TrimSpace is fully determined by the two conditions it ensures: any
      split of `s` into white space, a trimmed middle and white space yields
      that middle. */
  lemma TrimSpaceOfPadded(pre: string, mid: string, post: string)
    requires AllSpace(pre) && AllSpace(post) && Trimmed(mid)
    ensures TrimSpace(pre + mid + post) == mid
  {
    var s := pre + mid + post;
    var a, b := |pre|, |pre| + |mid|;
    assert s[a..b] == mid;
    assert SpaceBetween(s, b, |s|) by {
      forall k | b <= k < |s| ensures IsSpace(s[k]) {
        assert s[k] == post[k - b];
      }
    }
    assert SpaceBetween(s, 0, a) by {
      forall k | 0 <= k < a ensures IsSpace(s[k]) {
        assert s[k] == pre[k];
      }
    }
    if mid == [] {
      FirstNonSpaceUnique(s, 0, |s|);
      EndNonSpaceUnique(s, |s|, |s|, |s|);
    } else {
      assert s[a] == mid[0] && s[b - 1] == mid[|mid| - 1];
      FirstNonSpaceUnique(s, 0, a);
      EndNonSpaceUnique(s, a, |s|, b);
    }
  }

  /** Trimming twice is trimming once. */
  lemma TrimSpaceIdempotent(s: string)
    ensures TrimSpace(TrimSpace(s)) == TrimSpace(s)
  {
    var m := TrimSpace(s);
    assert [] + m + [] == m;
    TrimSpaceOfPadded([], m, []);
  }
}
