/**
 * The independent reference for `longest_common_substring`: the length of the
 * longest string that occurs contiguously in both arguments, defined by search
 * rather than by suffix arrays.
 */
module CommonSubstring {

  /** `a[p..p + len]` and `b[q..q + len]` are the same string. */
  predicate CommonAt(a: seq<char>, b: seq<char>, p: nat, q: nat, len: nat) {
    p + len <= |a| && q + len <= |b| && a[p..p + len] == b[q..q + len]
  }

  /** Some string of length `len` is a substring of both `a` and `b`. */
  ghost predicate IsCommonLength(a: seq<char>, b: seq<char>, len: nat) {
    exists p: nat, q: nat :: CommonAt(a, b, p, q, len)
  }

  /** The largest common length at most `len`, knowing none above `len` exists. */
  ghost function SearchDown(a: seq<char>, b: seq<char>, len: nat): (r: nat)
    requires forall l: nat :: len < l ==> !IsCommonLength(a, b, l)
    ensures r <= len && IsCommonLength(a, b, r)
    ensures forall l: nat :: r < l ==> !IsCommonLength(a, b, l)
    decreases len
  {
    if len == 0 then assert CommonAt(a, b, 0, 0, 0); 0
    else if IsCommonLength(a, b, len) then len
    else SearchDown(a, b, len - 1)
  }

  /** The length of a longest common substring of `a` and `b`. */
  ghost function LongestCommonLength(a: seq<char>, b: seq<char>): (r: nat)
    ensures IsCommonLength(a, b, r)
    ensures forall l: nat :: IsCommonLength(a, b, l) ==> l <= r
  {
    SearchDown(a, b, |a|)
  }

  /** A common substring is no longer than either string. */
  lemma {:induction false} LongestCommonBounded(a: seq<char>, b: seq<char>)
    ensures LongestCommonLength(a, b) <= |a| && LongestCommonLength(a, b) <= |b|
  {
    var r := LongestCommonLength(a, b);
    var p: nat, q: nat :| CommonAt(a, b, p, q, r);
  }

  /** Swapping the arguments does not change the longest common length. */
  lemma LongestCommonSymmetric(a: seq<char>, b: seq<char>)
    ensures LongestCommonLength(a, b) == LongestCommonLength(b, a)
  {
    var r, r' := LongestCommonLength(a, b), LongestCommonLength(b, a);
    var p: nat, q: nat :| CommonAt(a, b, p, q, r);
    assert CommonAt(b, a, q, p, r);
    assert IsCommonLength(b, a, r);
    var p': nat, q': nat :| CommonAt(b, a, p', q', r');
    assert CommonAt(a, b, q', p', r');
    assert IsCommonLength(a, b, r');
  }

  /** A string shares all of itself with itself. */
  lemma LongestCommonSelf(a: seq<char>)
    ensures LongestCommonLength(a, a) == |a|
  {
    assert CommonAt(a, a, 0, 0, |a|);
    LongestCommonBounded(a, a);
  }

  /** Nothing is shared with the empty string. */
  lemma LongestCommonWithEmpty(a: seq<char>)
    ensures LongestCommonLength(a, []) == 0
  {
    LongestCommonBounded(a, []);
  }

  /** A string occurring in `b` is shared in full. */
  lemma LongestCommonContained(a: seq<char>, b: seq<char>, q: nat)
    requires q + |a| <= |b| && b[q..q + |a|] == a
    ensures LongestCommonLength(a, b) == |a|
  {
    assert a[0..|a|] == a;
    assert CommonAt(a, b, 0, q, |a|);
    LongestCommonBounded(a, b);
  }
}
