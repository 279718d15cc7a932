/**
 * Python's ordering of strings (and of lists of comparable symbols):
 * lexicographic, with a proper prefix ordered before its extensions.
 * Both the suffix ranking and Kasai's LCP array are stated in these terms.
 */
module LexOrder {

  /** Length of the longest common prefix of `x` and `y`. */
  function CommonPrefix(x: seq<char>, y: seq<char>): (p: nat)
    ensures p <= |x| && p <= |y|
    ensures x[..p] == y[..p]
    ensures p < |x| && p < |y| ==> x[p] != y[p]
  {
    if |x| == 0 || |y| == 0 || x[0] != y[0] then 0
    else
      var q := CommonPrefix(x[1..], y[1..]);
      assert x[..q + 1] == [x[0]] + x[1..][..q];
      assert y[..q + 1] == [y[0]] + y[1..][..q];
      q + 1
  }

  /** `x < y` on Python strings. */
  predicate LexLess(x: seq<char>, y: seq<char>) {
    var p := CommonPrefix(x, y);
    (p == |x| && p < |y|) || (p < |x| && p < |y| && x[p] < y[p])
  }

  /** A common prefix of length `q` bounds the longest one from below. */
  lemma CommonPrefixAtLeast(x: seq<char>, y: seq<char>, q: nat)
    requires q <= |x| && q <= |y| && x[..q] == y[..q]
    ensures CommonPrefix(x, y) >= q
  {
  }

  /** The longest common prefix is the first position where `x` and `y` differ or one ends. */
  lemma CommonPrefixIs(x: seq<char>, y: seq<char>, q: nat)
    requires q <= |x| && q <= |y| && x[..q] == y[..q]
    requires q == |x| || q == |y| || x[q] != y[q]
    ensures CommonPrefix(x, y) == q
  {
    CommonPrefixAtLeast(x, y, q);
  }

  /** A mismatch at `q` bounds the longest common prefix from above. */
  lemma CommonPrefixBelow(x: seq<char>, y: seq<char>, q: nat)
    requires q < |x| && q < |y| && x[q] != y[q]
    ensures CommonPrefix(x, y) <= q
  {
  }

  lemma CommonPrefixSymmetric(x: seq<char>, y: seq<char>)
    ensures CommonPrefix(x, y) == CommonPrefix(y, x)
  {
    CommonPrefixIs(y, x, CommonPrefix(x, y));
  }

  lemma CommonPrefixSelf(x: seq<char>)
    ensures CommonPrefix(x, x) == |x|
  {
    CommonPrefixIs(x, x, |x|);
  }

  lemma LexIrreflexive(x: seq<char>)
    ensures !LexLess(x, x)
  {
    CommonPrefixSelf(x);
  }

  lemma LexAsymmetric(x: seq<char>, y: seq<char>)
    requires LexLess(x, y)
    ensures !LexLess(y, x) && x != y
  {
    CommonPrefixSymmetric(x, y);
    CommonPrefixSelf(x);
  }

  lemma LexTotal(x: seq<char>, y: seq<char>)
    requires x != y
    ensures LexLess(x, y) || LexLess(y, x)
  {
    CommonPrefixSymmetric(x, y);
  }

  lemma LexSingletons(a: char, b: char)
    ensures LexLess([a], [b]) <==> a < b
  {
    CommonPrefixIs([a], [b], if a == b then 1 else 0);
  }

  /** Comparing two concatenations whose first parts have equal length. */
  lemma LexConcat(a1: seq<char>, a2: seq<char>, b1: seq<char>, b2: seq<char>)
    requires |a1| == |b1|
    ensures LexLess(a1 + a2, b1 + b2) <==> LexLess(a1, b1) || (a1 == b1 && LexLess(a2, b2))
  {
    var p := CommonPrefix(a1, b1);
    if a1 == b1 {
      var q := CommonPrefix(a2, b2);
      assert (a1 + a2)[..|a1| + q] == a1 + a2[..q];
      assert (b1 + b2)[..|b1| + q] == b1 + b2[..q];
      if |a1| + q < |a1 + a2| && |b1| + q < |b1 + b2| {
        assert (a1 + a2)[|a1| + q] == a2[q];
        assert (b1 + b2)[|b1| + q] == b2[q];
      }
      CommonPrefixIs(a1 + a2, b1 + b2, |a1| + q);
      LexIrreflexive(a1);
    } else {
      assert (a1 + a2)[..p] == a1[..p];
      assert (b1 + b2)[..p] == b1[..p];
      assert (a1 + a2)[p] == a1[p];
      assert (b1 + b2)[p] == b1[p];
      CommonPrefixIs(a1 + a2, b1 + b2, p);
    }
  }

  /**
   * Comparing `a` with an extension `b + c` of a string `b` at least as long as `a`:
   * `a` comes first iff it is at most `b`.
   */
  lemma LexExtend(a: seq<char>, b: seq<char>, c: seq<char>)
    requires |a| <= |b| && |c| > 0
    ensures LexLess(a, b + c) <==> LexLess(a, b) || a == b
    ensures LexLess(b + c, a) <==> LexLess(b, a)
  {
    var p := CommonPrefix(a, b);
    CommonPrefixSymmetric(a, b);
    CommonPrefixSymmetric(a, b + c);
    assert (b + c)[..p] == b[..p];
    if p < |a| {
      assert (b + c)[p] == b[p];
      CommonPrefixIs(a, b + c, p);
    } else {
      CommonPrefixIs(a, b + c, p);
      if |a| == |b| {
        assert a == a[..p] == b[..p] == b;
      }
    }
  }

  /**
   * Comparing prefixes of length at most `k` decides the comparison of the
   * whole strings whenever the prefixes already differ.
   */
  lemma LexTruncate(x: seq<char>, y: seq<char>, k: nat)
    requires LexLess(x[..if k < |x| then k else |x|], y[..if k < |y| then k else |y|])
    ensures LexLess(x, y)
  {
    var x' := x[..if k < |x| then k else |x|];
    var y' := y[..if k < |y| then k else |y|];
    var p := CommonPrefix(x', y');
    assert x[..p] == x'[..p] && y[..p] == y'[..p];
    if p < |x'| && p < |y'| {
      assert x[p] == x'[p] && y[p] == y'[p];
      CommonPrefixIs(x, y, p);
    } else {
      assert x' == x;
      CommonPrefixIs(x, y, p);
    }
  }

  /** Dropping one common leading symbol keeps the order and shortens the common prefix by one. */
  lemma LexDropCommonHead(x: seq<char>, y: seq<char>)
    requires CommonPrefix(x, y) >= 1
    ensures CommonPrefix(x[1..], y[1..]) == CommonPrefix(x, y) - 1
    ensures LexLess(x, y) <==> LexLess(x[1..], y[1..])
  {
  }

  /** Between `x < y < z`, the neighbour `y` shares at least as much with `x` as `z` does. */
  lemma SandwichLeft(x: seq<char>, y: seq<char>, z: seq<char>)
    requires LexLess(x, y) && LexLess(y, z)
    ensures CommonPrefix(x, y) >= CommonPrefix(x, z)
  {
    var q := CommonPrefix(x, y);
    var p := CommonPrefix(x, z);
    if q < p {
      CommonPrefixIs(y, z, q);
      LexAsymmetric(y, z);
      CommonPrefixSymmetric(y, z);
    }
  }

  /** Between `x < y < z`, the neighbour `y` shares at least as much with `z` as `x` does. */
  lemma SandwichRight(x: seq<char>, y: seq<char>, z: seq<char>)
    requires LexLess(x, y) && LexLess(y, z)
    ensures CommonPrefix(y, z) >= CommonPrefix(x, z)
  {
    var q := CommonPrefix(y, z);
    var p := CommonPrefix(x, z);
    if q < p {
      CommonPrefixIs(x, y, q);
      LexAsymmetric(x, y);
    }
  }
}
