/**
 * Longest common substring through a suffix array (prefix doubling) and
 * Kasai's LCP array, as in har2requests/stringalg.py.
 *
 * Naming follows the source, which is easy to misread: `SuffixArray` returns
 * the RANK array (`line[i]` is the rank of the suffix starting at `i`), its
 * inverse `pos` lists the suffix starts in sorted order, and Kasai's `lcp`
 * is indexed by rank.
 */
module StringAlg {
  import opened Wrappers
  import opened Seqs
  import opened LexOrder
  import opened CommonSubstring

  // ---------------------------------------------------------------------------
  // to_int_keys: dense, order-preserving re-ranking
  // ---------------------------------------------------------------------------

  predicate StrictlyIncreasing(s: seq<int>) {
    forall i, j :: 0 <= i < j < |s| ==> s[i] < s[j]
  }

  /** Inserts a new value into a strictly increasing sequence. */
  function Insert(s: seq<int>, x: int): (r: seq<int>)
    requires StrictlyIncreasing(s) && x !in s
    ensures StrictlyIncreasing(r)
    ensures Elems(r) == Elems(s) + {x}
  {
    if |s| == 0 then [x]
    else if x < s[0] then
      ConsIncreasing(x, s);
      [x] + s
    else
      TailIncreasing(s);
      var t := Insert(s[1..], x);
      assert forall y :: y in t ==> y in Elems(t);
      ConsIncreasing(s[0], t);
      [s[0]] + t
  }

  /** The tail of an increasing sequence is increasing and above its head. */
  lemma TailIncreasing(s: seq<int>)
    requires StrictlyIncreasing(s) && |s| > 0
    ensures StrictlyIncreasing(s[1..]) && forall y :: y in s[1..] ==> s[0] < y
    ensures Elems(s) == {s[0]} + Elems(s[1..])
  {
    assert s == [s[0]] + s[1..];
    forall y | y in s[1..] ensures s[0] < y {
      var i :| 0 <= i < |s[1..]| && s[1..][i] == y;
      assert s[i + 1] == y;
    }
  }

  /** A value below every entry of an increasing sequence can be put in front. */
  lemma ConsIncreasing(h: int, t: seq<int>)
    requires StrictlyIncreasing(t) && forall y :: y in t ==> h < y
    ensures StrictlyIncreasing([h] + t) && Elems([h] + t) == {h} + Elems(t)
  {
    var r := [h] + t;
    forall i, j | 0 <= i < j < |r| ensures r[i] < r[j] {
      assert r[j] == t[j - 1];
      if i > 0 { assert r[i] == t[i - 1]; } else { assert t[j - 1] in t; }
    }
  }

  /** `ls.sort()` on a list of distinct values. */
  function SortDistinct(d: seq<int>): (ls: seq<int>)
    requires NoDup(d)
    ensures StrictlyIncreasing(ls)
    ensures Elems(ls) == Elems(d)
  {
    if |d| == 0 then []
    else
      var t, x := d[..|d| - 1], d[|d| - 1];
      assert d == t + [x];
      ElemsSnoc(t, x);
      Insert(SortDistinct(t), x)
  }

  lemma StrictlyIncreasingNoDup(s: seq<int>)
    requires StrictlyIncreasing(s)
    ensures NoDup(s)
  {
    forall i, j | 0 <= i < |s| && 0 <= j < |s| && i != j ensures s[i] != s[j] {
      if i < j { assert s[i] < s[j]; } else { assert s[j] < s[i]; }
    }
  }

  /** The `index` dict of to_int_keys: each value of a sorted list mapped to its position. */
  function PositionIndex(ls: seq<int>): (index: map<int, nat>)
    requires StrictlyIncreasing(ls)
    ensures index.Keys == Elems(ls)
    ensures forall p :: 0 <= p < |ls| ==> index[ls[p]] == p
  {
    StrictlyIncreasingNoDup(ls);
    map p | 0 <= p < |ls| :: ls[p] := p
  }

  /**
   * to_int_keys: each value is replaced by its index in the sorted list of
   * distinct values. The result has `l`'s length, its entries are exactly
   * 0 .. #distinct - 1, and it orders positions exactly as `l` does.
   */
  function ToIntKeys(l: seq<int>): (out: seq<nat>)
    ensures |out| == |l|
    ensures Elems(out) == Range(|Elems(l)|)
    ensures forall i, j :: 0 <= i < |l| && 0 <= j < |l| ==> (l[i] < l[j] <==> out[i] < out[j])
  {
    var ls := SortDistinct(Dedupe(l));
    var index := PositionIndex(ls);
    var out := seq(|l|, i requires 0 <= i < |l| => index[l[i]]);
    RankFacts(l, ls, index, out);
    out
  }

  lemma RankFacts(l: seq<int>, ls: seq<int>, index: map<int, nat>, out: seq<nat>)
    requires StrictlyIncreasing(ls) && Elems(ls) == Elems(l)
    requires index.Keys == Elems(ls)
    requires forall p :: 0 <= p < |ls| ==> index[ls[p]] == p
    requires |out| == |l| && forall i :: 0 <= i < |l| ==> l[i] in index && out[i] == index[l[i]]
    ensures Elems(out) == Range(|Elems(l)|)
    ensures forall i, j :: 0 <= i < |l| && 0 <= j < |l| ==> (l[i] < l[j] <==> out[i] < out[j])
  {
    StrictlyIncreasingNoDup(ls);
    ElemsCard(ls);
    forall i | 0 <= i < |l| ensures out[i] < |ls| && ls[out[i]] == l[i] {
      assert l[i] in Elems(ls);
      var p :| 0 <= p < |ls| && ls[p] == l[i];
    }
    forall p: nat | p < |ls| ensures p in Elems(out) {
      assert ls[p] in Elems(l);
      var i :| 0 <= i < |l| && l[i] == ls[p];
      assert out[i] == p;
    }
    forall i, j | 0 <= i < |l| && 0 <= j < |l| ensures l[i] < l[j] <==> out[i] < out[j] {
      var p, q := out[i], out[j];
      assert ls[p] == l[i] && ls[q] == l[j];
      if p < q { assert ls[p] < ls[q]; }
      if q < p { assert ls[q] < ls[p]; }
    }
  }

  // ---------------------------------------------------------------------------
  // suffix_array: prefix doubling
  // ---------------------------------------------------------------------------

  /** Python's `max` of a non-empty list. */
  function Max(l: seq<int>): (m: int)
    requires |l| > 0
    ensures m in l
    ensures forall i :: 0 <= i < |l| ==> l[i] <= m
  {
    if |l| == 1 then l[0]
    else
      var m := Max(l[1..]);
      assert forall i :: 1 <= i < |l| ==> l[i] == l[1..][i - 1];
      if l[0] > m then l[0] else m
  }

  /** One-character strings compare by code point: `to_int_keys(s)` ranks the code points. */
  function Codes(s: seq<char>): seq<int> {
    seq(|s|, i requires 0 <= i < |s| => s[i] as int)
  }

  /** The first `k` symbols of the suffix starting at `i` (all of it when it is shorter). */
  function PrefixAt(s: seq<char>, i: nat, k: nat): seq<char>
    requires i <= |s|
  {
    var x := s[i..];
    x[..if k < |x| then k else |x|]
  }

  /** `line` orders the positions of `s` exactly as their length-`k` prefixes. */
  ghost predicate RanksPrefixes(s: seq<char>, line: seq<nat>, k: nat) {
    |line| == |s| &&
    forall i, j :: 0 <= i < |s| && 0 <= j < |s| ==>
      (line[i] < line[j] <==> LexLess(PrefixAt(s, i, k), PrefixAt(s, j, k)))
  }

  /**
   * `line` is the suffix rank array of `s`: a permutation of 0 .. |s| - 1 with
   * `line[i] < line[j]` iff the suffix at `i` sorts before the suffix at `j`.
   */
  ghost predicate IsRankArray(s: seq<char>, line: seq<nat>) {
    && |line| == |s|
    && Elems(line) == Range(|s|)
    && (forall i :: 0 <= i < |line| ==> line[i] < |s|)
    && NoDup(line)
    && forall i, j {:trigger LexLess(s[i..], s[j..])} :: 0 <= i < |s| && 0 <= j < |s| ==>
         (line[i] < line[j] <==> LexLess(s[i..], s[j..]))
  }

  /** The doubling step's comprehension over `zip_longest(line, line[k:], fillvalue=-1)`. */
  function PairKeys(line: seq<nat>, k: nat): seq<int> {
    var n := |line|;
    seq(n, i requires 0 <= i < n => line[i] * (n + 1) + (if i + k < n then line[i + k] else -1) + 1)
  }

  lemma MulMono(x: int, y: int, m: nat)
    requires x <= y
    ensures x * m <= y * m
  {
    assert y * m == x * m + (y - x) * m;
  }

  /**
   * For `a` in [0, n) and `b` in [-1, n) the key `a * (n + 1) + b + 1` is
   * injective and orders pairs lexicographically, so a missing partner
   * (`b == -1`) sorts before every present one.
   */
  lemma PairKeyOrder(n: nat, a: int, b: int, a': int, b': int)
    requires 0 <= a < n && 0 <= a' < n && -1 <= b < n && -1 <= b' < n
    ensures a * (n + 1) + b + 1 < a' * (n + 1) + b' + 1 <==> a < a' || (a == a' && b < b')
    ensures a * (n + 1) + b + 1 == a' * (n + 1) + b' + 1 <==> a == a' && b == b'
  {
    if a < a' {
      MulMono(a + 1, a', n + 1);
      assert (a + 1) * (n + 1) == a * (n + 1) + n + 1;
    } else if a' < a {
      MulMono(a' + 1, a, n + 1);
      assert (a' + 1) * (n + 1) == a' * (n + 1) + n + 1;
    }
  }

  /** The length-2k prefix is the length-k prefix followed by the length-k prefix k symbols on. */
  lemma PrefixAtDouble(s: seq<char>, i: nat, k: nat)
    requires i < |s| && k >= 1
    ensures i + k < |s| ==>
      && PrefixAt(s, i, 2 * k) == PrefixAt(s, i, k) + PrefixAt(s, i + k, k)
      && |PrefixAt(s, i, k)| == k
      && |PrefixAt(s, i + k, k)| > 0
    ensures i + k >= |s| ==> PrefixAt(s, i, 2 * k) == PrefixAt(s, i, k) == s[i..]
  {
    var x := s[i..];
    if i + k < |s| {
      var m := if 2 * k < |x| then 2 * k else |x|;
      assert x[..m] == x[..k] + x[k..m];
      assert x[k..m] == s[i + k..][..m - k];
    }
  }

  /** Equal ranks are equal prefixes. */
  lemma RankEqual(s: seq<char>, line: seq<nat>, k: nat, i: int, j: int)
    requires RanksPrefixes(s, line, k) && 0 <= i < |s| && 0 <= j < |s|
    ensures line[i] == line[j] <==> PrefixAt(s, i, k) == PrefixAt(s, j, k)
  {
    if PrefixAt(s, i, k) == PrefixAt(s, j, k) {
      LexIrreflexive(PrefixAt(s, i, k));
    } else {
      LexTotal(PrefixAt(s, i, k), PrefixAt(s, j, k));
    }
  }

  /** The rank `k` positions on, or -1 past the end: `zip_longest`'s fill value. */
  function Partner(line: seq<nat>, k: nat, i: nat): int
    requires i < |line|
  {
    if i + k < |line| then line[i + k] else -1
  }

  /** Pair keys compare as (rank, partner rank) pairs. */
  lemma PairKeyCompare(line: seq<nat>, k: nat, i: nat, j: nat)
    requires forall p :: 0 <= p < |line| ==> line[p] < |line|
    requires i < |line| && j < |line|
    ensures PairKeys(line, k)[i] < PairKeys(line, k)[j] <==>
      line[i] < line[j] || (line[i] == line[j] && Partner(line, k, i) < Partner(line, k, j))
  {
    var n := |line|;
    assert PairKeys(line, k)[i] == line[i] * (n + 1) + Partner(line, k, i) + 1;
    assert PairKeys(line, k)[j] == line[j] * (n + 1) + Partner(line, k, j) + 1;
    PairKeyOrder(n, line[i], Partner(line, k, i), line[j], Partner(line, k, j));
  }

  /** Re-ranking the pair keys ranks positions by their length-2k prefixes. */
  lemma DoublingStep(s: seq<char>, line: seq<nat>, k: nat, i: int, j: int)
    requires k >= 1 && RanksPrefixes(s, line, k)
    requires forall p :: 0 <= p < |s| ==> line[p] < |s|
    requires 0 <= i < |s| && 0 <= j < |s|
    ensures PairKeys(line, k)[i] < PairKeys(line, k)[j] <==>
      LexLess(PrefixAt(s, i, 2 * k), PrefixAt(s, j, 2 * k))
  {
    PairKeyCompare(line, k, i, j);
    RankEqual(s, line, k, i, j);
    if i + k < |s| && j + k < |s| {
      RankEqual(s, line, k, i + k, j + k);
    }
    DoublingCases(s, k, i, j, line[i], line[j], Partner(line, k, i), Partner(line, k, j));
  }

  /**
   * The doubling step without the rank array: ranks `li, lj` compare as the
   * length-k prefixes, partner ranks `bi, bj` (-1 when missing) as the
   * prefixes `k` further on.
   */
  lemma DoublingCases(s: seq<char>, k: nat, i: nat, j: nat, li: int, lj: int, bi: int, bj: int)
    requires k >= 1 && i < |s| && j < |s|
    requires li < lj <==> LexLess(PrefixAt(s, i, k), PrefixAt(s, j, k))
    requires li == lj <==> PrefixAt(s, i, k) == PrefixAt(s, j, k)
    requires bi == -1 <==> i + k >= |s|
    requires bj == -1 <==> j + k >= |s|
    requires bi >= -1 && bj >= -1
    requires i + k < |s| && j + k < |s| ==> (bi < bj <==> LexLess(PrefixAt(s, i + k, k), PrefixAt(s, j + k, k)))
    ensures li < lj || (li == lj && bi < bj) <==> LexLess(PrefixAt(s, i, 2 * k), PrefixAt(s, j, 2 * k))
  {
    if i + k < |s| && j + k < |s| {
      DoubleBoth(s, i, j, k);
    } else if j + k < |s| {
      DoubleShortLeft(s, i, j, k);
    } else if i + k < |s| {
      DoubleShortRight(s, i, j, k);
    } else {
      PrefixAtDouble(s, i, k);
      PrefixAtDouble(s, j, k);
    }
  }

  /** Both suffixes are longer than `k`: compare the first halves, then the second. */
  lemma DoubleBoth(s: seq<char>, i: nat, j: nat, k: nat)
    requires k >= 1 && i + k < |s| && j + k < |s|
    ensures LexLess(PrefixAt(s, i, 2 * k), PrefixAt(s, j, 2 * k)) <==>
      || LexLess(PrefixAt(s, i, k), PrefixAt(s, j, k))
      || (PrefixAt(s, i, k) == PrefixAt(s, j, k) && LexLess(PrefixAt(s, i + k, k), PrefixAt(s, j + k, k)))
  {
    PrefixAtDouble(s, i, k);
    PrefixAtDouble(s, j, k);
    LexConcat(PrefixAt(s, i, k), PrefixAt(s, i + k, k), PrefixAt(s, j, k), PrefixAt(s, j + k, k));
  }

  /** Only the right suffix is longer than `k`: the left one comes first iff its prefix is at most the right one's. */
  lemma DoubleShortLeft(s: seq<char>, i: nat, j: nat, k: nat)
    requires k >= 1 && i < |s| && i + k >= |s| && j + k < |s|
    ensures LexLess(PrefixAt(s, i, 2 * k), PrefixAt(s, j, 2 * k)) <==>
      LexLess(PrefixAt(s, i, k), PrefixAt(s, j, k)) || PrefixAt(s, i, k) == PrefixAt(s, j, k)
  {
    PrefixAtDouble(s, i, k);
    PrefixAtDouble(s, j, k);
    LexExtend(PrefixAt(s, i, k), PrefixAt(s, j, k), PrefixAt(s, j + k, k));
  }

  /** Only the left suffix is longer than `k`: it comes first iff its prefix does. */
  lemma DoubleShortRight(s: seq<char>, i: nat, j: nat, k: nat)
    requires k >= 1 && j < |s| && j + k >= |s| && i + k < |s|
    ensures LexLess(PrefixAt(s, i, 2 * k), PrefixAt(s, j, 2 * k)) <==> LexLess(PrefixAt(s, i, k), PrefixAt(s, j, k))
  {
    PrefixAtDouble(s, i, k);
    PrefixAtDouble(s, j, k);
    LexExtend(PrefixAt(s, j, k), PrefixAt(s, i, k), PrefixAt(s, i + k, k));
  }

  /** Once all ranks are distinct, comparing prefixes is comparing suffixes. */
  lemma DistinctPrefixRanks(s: seq<char>, line: seq<nat>, k: nat, i: int, j: int)
    requires RanksPrefixes(s, line, k) && NoDup(line)
    requires 0 <= i < |s| && 0 <= j < |s|
    ensures line[i] < line[j] <==> LexLess(s[i..], s[j..])
  {
    if line[i] < line[j] {
      LexTruncate(s[i..], s[j..], k);
    } else if line[j] < line[i] {
      LexTruncate(s[j..], s[i..], k);
      LexAsymmetric(s[j..], s[i..]);
    } else {
      LexIrreflexive(s[i..]);
    }
  }

  /** A dense ranking covering 0 .. d - 1 has maximum d - 1. */
  lemma MaxOfDense(l: seq<nat>, d: nat)
    requires |l| > 0 && Elems(l) == Range(d)
    ensures d >= 1 && Max(l) == d - 1
  {
    assert l[0] in Elems(l);
    var m := Max(l);
    assert m in Elems(l);
    assert d - 1 in Range(d);
    var i :| 0 <= i < |l| && l[i] == d - 1;
  }

  /** The ranks are below |s| when they are dense below some d <= |s|. */
  lemma DenseBelow(l: seq<nat>, d: nat)
    requires Elems(l) == Range(d)
    ensures forall p :: 0 <= p < |l| ==> l[p] < d
  {
    forall p | 0 <= p < |l| ensures l[p] < d {
      assert l[p] in Elems(l);
    }
  }

  /** The doubling loop runs only while k < |s|: prefixes of length |s| are whole, distinct suffixes. */
  lemma DoublingBelowLength(s: seq<char>, line: seq<nat>, k: nat, d: nat)
    requires |s| > 0 && RanksPrefixes(s, line, k)
    requires 1 <= d <= |s| && Elems(line) == Range(d)
    requires Max(line) < |s| - 1
    ensures k < |s|
  {
    var n := |s|;
    MaxOfDense(line, d);
    RangeCard(d);
    ElemsCard(line);
    var i, j :| 0 <= i < n && 0 <= j < n && i != j && line[i] == line[j];
    RankEqual(s, line, k, i, j);
  }

  /** Keys that order positions as their length-`k` prefixes give, through `to_int_keys`, ranks of those prefixes. */
  lemma KeysRank(s: seq<char>, keys: seq<int>, k: nat)
    requires |keys| == |s|
    requires forall i, j :: 0 <= i < |s| && 0 <= j < |s| ==>
      (keys[i] < keys[j] <==> LexLess(PrefixAt(s, i, k), PrefixAt(s, j, k)))
    ensures RanksPrefixes(s, ToIntKeys(keys), k)
  {
  }

  /** The pair keys of one round order positions as their length-2k prefixes. */
  lemma DoublingOrder(s: seq<char>, line: seq<nat>, k: nat, d: nat)
    requires k >= 1 && RanksPrefixes(s, line, k)
    requires d <= |s| && Elems(line) == Range(d)
    ensures forall i, j :: 0 <= i < |s| && 0 <= j < |s| ==>
      (PairKeys(line, k)[i] < PairKeys(line, k)[j] <==> LexLess(PrefixAt(s, i, 2 * k), PrefixAt(s, j, 2 * k)))
  {
    var n := |s|;
    var keys := PairKeys(line, k);
    DenseBelow(line, d);
    forall i, j | 0 <= i < n && 0 <= j < n
      ensures keys[i] < keys[j] <==> LexLess(PrefixAt(s, i, 2 * k), PrefixAt(s, j, 2 * k))
    {
      DoublingStep(s, line, k, i, j);
    }
  }

  /** One round of the doubling loop keeps the loop invariant at 2k. */
  lemma DoublingRound(s: seq<char>, line: seq<nat>, k: nat, d: nat)
    requires k >= 1 && |s| > 0 && RanksPrefixes(s, line, k)
    requires 1 <= d <= |s| && Elems(line) == Range(d)
    ensures RanksPrefixes(s, ToIntKeys(PairKeys(line, k)), 2 * k)
    ensures 1 <= |Elems(PairKeys(line, k))| <= |s|
    ensures Elems(ToIntKeys(PairKeys(line, k))) == Range(|Elems(PairKeys(line, k))|)
  {
    var keys := PairKeys(line, k);
    DoublingOrder(s, line, k, d);
    KeysRank(s, keys, 2 * k);
    ElemsCard(keys);
    assert keys[0] in Elems(keys);
  }

  /** When the loop stops, the ranks are all distinct and rank the whole suffixes. */
  lemma DoublingDone(s: seq<char>, line: seq<nat>, k: nat, d: nat)
    requires |s| > 0 && RanksPrefixes(s, line, k)
    requires 1 <= d <= |s| && Elems(line) == Range(d)
    requires Max(line) >= |s| - 1
    ensures IsRankArray(s, line)
  {
    var n := |s|;
    MaxOfDense(line, d);
    assert d == n;
    DenseBelow(line, n);
    RangeCard(n);
    ElemsCard(line);
    assert NoDup(line);
    forall i, j | 0 <= i < n && 0 <= j < n ensures line[i] < line[j] <==> LexLess(s[i..], s[j..]) {
      DistinctPrefixRanks(s, line, k, i, j);
    }
  }

  /** One-symbol prefixes compare as their code points. */
  lemma FirstSymbolOrder(s: seq<char>)
    ensures forall i, j :: 0 <= i < |s| && 0 <= j < |s| ==>
      (Codes(s)[i] < Codes(s)[j] <==> LexLess(PrefixAt(s, i, 1), PrefixAt(s, j, 1)))
  {
    forall i, j | 0 <= i < |s| && 0 <= j < |s|
      ensures Codes(s)[i] < Codes(s)[j] <==> LexLess(PrefixAt(s, i, 1), PrefixAt(s, j, 1))
    {
      assert PrefixAt(s, i, 1) == [s[i]];
      assert PrefixAt(s, j, 1) == [s[j]];
      LexSingletons(s[i], s[j]);
    }
  }

  /** Before the loop, `to_int_keys(s)` ranks positions by their first symbol. */
  lemma InitialRanks(s: seq<char>)
    requires |s| > 0
    ensures RanksPrefixes(s, ToIntKeys(Codes(s)), 1)
    ensures 1 <= |Elems(Codes(s))| <= |s|
  {
    FirstSymbolOrder(s);
    KeysRank(s, Codes(s), 1);
    ElemsCard(Codes(s));
    assert Codes(s)[0] in Elems(Codes(s));
  }

  /**
   * suffix_array: the rank array of `s` by prefix doubling. On empty `s` the
   * loop test `max(line)` raises, because `line` is empty.
   */
  method SuffixArray(s: seq<char>) returns (r: Result<seq<nat>>)
    ensures r.Err? <==> |s| == 0
    ensures r.Ok? ==> IsRankArray(s, r.value)
  {
    var n := |s|;
    var k := 1;
    var line := ToIntKeys(Codes(s));
    if n == 0 {
      return Err(EmptyMax);
    }
    ghost var d := |Elems(Codes(s))|;
    InitialRanks(s);
    while Max(line) < n - 1
      invariant |line| == n && k >= 1
      invariant RanksPrefixes(s, line, k)
      invariant 1 <= d <= n && Elems(line) == Range(d)
      decreases n - k
    {
      DoublingBelowLength(s, line, k, d);
      DoublingRound(s, line, k, d);
      var keys := PairKeys(line, k);
      line := ToIntKeys(keys);
      d := |Elems(keys)|;
      k := 2 * k;
    }
    DoublingDone(s, line, k, d);
    return Ok(line);
  }

  // ---------------------------------------------------------------------------
  // inverse_array and kasai
  // ---------------------------------------------------------------------------

  /** `pos` inverts the permutation `sa`. */
  ghost predicate Inverts(sa: seq<nat>, pos: seq<nat>) {
    && |pos| == |sa|
    && (forall i :: 0 <= i < |sa| ==> sa[i] < |pos| && pos[sa[i]] == i)
    && (forall r :: 0 <= r < |pos| ==> pos[r] < |sa| && sa[pos[r]] == r)
  }

  /** After `i` rounds of inverse_array: each value of `l[..i]` maps to its last position so far, the rest to 0. */
  ghost predicate InverseUpTo(l: seq<nat>, ans: seq<nat>, i: nat)
    requires i <= |l| && |ans| == |l| && forall p :: 0 <= p < |l| ==> l[p] < |l|
  {
    && (forall i' :: 0 <= i' < i ==> i' <= ans[l[i']] < i && l[ans[l[i']]] == l[i'])
    && (forall r :: 0 <= r < |l| && r !in l[..i] ==> ans[r] == 0)
  }

  /** One round of inverse_array: `ans[l[i]] = i`. */
  lemma InverseStep(l: seq<nat>, ans: seq<nat>, i: nat)
    requires i < |l| && |ans| == |l| && forall p :: 0 <= p < |l| ==> l[p] < |l|
    requires InverseUpTo(l, ans, i)
    ensures InverseUpTo(l, ans[l[i] := i], i + 1)
  {
    assert l[..i + 1] == l[..i] + [l[i]];
  }

  /** On a permutation, a map sending every value to a position holding it is the inverse. */
  lemma PermutationInverse(l: seq<nat>, ans: seq<nat>)
    requires |ans| == |l| && forall i :: 0 <= i < |l| ==> l[i] < |l| && ans[l[i]] < |l| && l[ans[l[i]]] == l[i]
    requires NoDup(l) && Elems(l) == Range(|l|)
    ensures Inverts(l, ans)
  {
    forall i | 0 <= i < |l| ensures ans[l[i]] == i {
      assert l[ans[l[i]]] == l[i];
    }
    forall r | 0 <= r < |l| ensures ans[r] < |l| && l[ans[r]] == r {
      assert r in Elems(l);
      var i :| 0 <= i < |l| && l[i] == r;
    }
  }

  /**
   * inverse_array: `ans[l[i]] = i` for i = 0, 1, ... Every value of `l` ends up
   * mapped to its LAST position in `l`; values missing from `l` keep 0. On a
   * permutation this is the inverse permutation.
   */
  method InverseArray(l: seq<nat>) returns (ans: seq<nat>)
    requires forall i :: 0 <= i < |l| ==> l[i] < |l|
    ensures |ans| == |l|
    ensures forall i :: 0 <= i < |l| ==> ans[l[i]] < |l| && l[ans[l[i]]] == l[i] && i <= ans[l[i]]
    ensures forall r :: 0 <= r < |l| && r !in l ==> ans[r] == 0
    ensures NoDup(l) && Elems(l) == Range(|l|) ==> Inverts(l, ans)
  {
    var n := |l|;
    ans := seq(n, _ => 0);
    var i := 0;
    while i < n
      invariant 0 <= i <= n && |ans| == n
      invariant InverseUpTo(l, ans, i)
    {
      InverseStep(l, ans, i);
      ans := ans[l[i] := i];
      i := i + 1;
    }
    assert l[..n] == l;
    if NoDup(l) && Elems(l) == Range(n) {
      PermutationInverse(l, ans);
    }
  }

  /** The common-prefix length of the suffixes ranked r and r + 1 (0 past the last rank). */
  ghost function AdjacentLcp(s: seq<char>, pos: seq<nat>, r: nat): nat
    requires |pos| == |s| && forall q :: 0 <= q < |pos| ==> pos[q] < |s|
  {
    if r + 1 < |s| then CommonPrefix(s[pos[r]..], s[pos[r + 1]..]) else 0
  }

  /**
   * The step of Kasai's argument: if the suffix at i shares h symbols with its
   * successor in sorted order, the suffix at i + 1 shares at least h - 1 with its own.
   */
  lemma KasaiCarry(s: seq<char>, sa: seq<nat>, pos: seq<nat>, i: nat)
    requires IsRankArray(s, sa) && Inverts(sa, pos)
    requires i + 1 < |s| && sa[i] + 1 < |s| && sa[i + 1] + 1 < |s|
    ensures CommonPrefix(s[i..], s[pos[sa[i] + 1]..]) - 1 <= CommonPrefix(s[i + 1..], s[pos[sa[i + 1] + 1]..])
  {
    var j := pos[sa[i] + 1];
    var h := CommonPrefix(s[i..], s[j..]);
    if h >= 2 {
      assert sa[j] == sa[i] + 1;
      assert LexLess(s[i..], s[j..]);
      LexDropCommonHead(s[i..], s[j..]);
      assert j + 1 < |s|;
      assert s[i..][1..] == s[i + 1..];
      assert s[j..][1..] == s[j + 1..];
      assert CommonPrefix(s[i + 1..], s[j + 1..]) == h - 1;
      assert LexLess(s[i + 1..], s[j + 1..]);
      assert sa[i + 1] < sa[j + 1];
      var m := pos[sa[i + 1] + 1];
      assert sa[m] == sa[i + 1] + 1;
      if m != j + 1 {
        assert m < |s|;
        assert sa[m] != sa[j + 1];
        assert sa[m] < sa[j + 1];
        assert LexLess(s[m..], s[j + 1..]);
        assert LexLess(s[i + 1..], s[m..]);
        SandwichLeft(s[i + 1..], s[m..], s[j + 1..]);
      }
    }
  }

  /** `pos = inverse_array(sa)` on a rank array: the position holding each rank. */
  method RankPositions(s: seq<char>, sa: seq<nat>) returns (pos: seq<nat>)
    requires IsRankArray(s, sa)
    ensures Inverts(sa, pos)
  {
    DenseBelow(sa, |s|);
    pos := InverseArray(sa);
  }

  /** Kasai's loop invariant: the ranks of the positions before `i` hold their final values. */
  ghost predicate LcpUpTo(s: seq<char>, pos: seq<nat>, lcp: seq<nat>, i: nat)
    requires |pos| == |s| && forall q :: 0 <= q < |pos| ==> pos[q] < |s|
  {
    |lcp| == |s| && forall r :: 0 <= r < |s| ==> lcp[r] == if pos[r] < i then AdjacentLcp(s, pos, r) else 0
  }

  /** Storing the common prefix of position `i` at its rank extends the invariant to i + 1. */
  lemma KasaiStore(s: seq<char>, sa: seq<nat>, pos: seq<nat>, lcp: seq<nat>, i: nat, k: nat)
    requires Inverts(sa, pos) && |sa| == |s| && i < |s|
    requires LcpUpTo(s, pos, lcp, i)
    requires k == if sa[i] + 1 < |s| then CommonPrefix(s[i..], s[pos[sa[i] + 1]..]) else 0
    ensures LcpUpTo(s, pos, lcp[sa[i] := k], i + 1)
  {
    assert pos[sa[i]] == i;
    forall r | 0 <= r < |s| && r != sa[i] ensures pos[r] != i {
      assert sa[pos[r]] == r;
    }
  }

  /** The inner `while` of kasai: extend a known common prefix of the suffixes at `i` and `j` to the longest. */
  method ExtendMatch(s: seq<char>, i: nat, j: nat, k0: nat) returns (k: nat)
    requires i < |s| && j < |s| && k0 <= CommonPrefix(s[i..], s[j..])
    ensures k == CommonPrefix(s[i..], s[j..])
  {
    k := k0;
    while i + k < |s| && j + k < |s| && s[i + k] == s[j + k]
      invariant k <= CommonPrefix(s[i..], s[j..])
    {
      k := k + 1;
    }
    CommonPrefixIs(s[i..], s[j..], k);
  }

  /**
   * `lcp` is the LCP array of `s` for the rank array `sa`: when the suffix at `j`
   * is ranked right after the suffix at `i`, `lcp[sa[i]]` is their common-prefix
   * length, and the last rank holds 0.
   */
  ghost predicate LcpArray(s: seq<char>, sa: seq<nat>, lcp: seq<nat>)
    requires IsRankArray(s, sa)
  {
    && |lcp| == |s|
    && (forall i, j :: 0 <= i < |s| && 0 <= j < |s| && sa[j] == sa[i] + 1 ==>
          lcp[sa[i]] == CommonPrefix(s[i..], s[j..]))
    && (|s| > 0 ==> lcp[|s| - 1] == 0)
  }

  /** At the end of the loop every rank holds its adjacent common prefix. */
  lemma KasaiDone(s: seq<char>, sa: seq<nat>, pos: seq<nat>, lcp: seq<nat>)
    requires IsRankArray(s, sa) && Inverts(sa, pos)
    requires LcpUpTo(s, pos, lcp, |s|)
    ensures LcpArray(s, sa, lcp)
  {
    forall i, j | 0 <= i < |s| && 0 <= j < |s| && sa[j] == sa[i] + 1
      ensures lcp[sa[i]] == CommonPrefix(s[i..], s[j..])
    {
      assert pos[sa[i]] == i && pos[sa[j]] == j;
    }
  }

  /**
   * One iteration of kasai's loop at position `i`: store the common prefix at
   * rank `sa[i]` (nothing for the last rank) and carry `k - 1` to position i + 1.
   */
  method KasaiStep(s: seq<char>, sa: seq<nat>, pos: seq<nat>, lcp: seq<nat>, i: nat, k: nat)
    returns (lcp': seq<nat>, k': nat)
    requires IsRankArray(s, sa) && Inverts(sa, pos) && i < |s|
    requires LcpUpTo(s, pos, lcp, i)
    requires sa[i] + 1 < |s| ==> k <= CommonPrefix(s[i..], s[pos[sa[i] + 1]..])
    ensures LcpUpTo(s, pos, lcp', i + 1)
    ensures i + 1 < |s| && sa[i + 1] + 1 < |s| ==> k' <= CommonPrefix(s[i + 1..], s[pos[sa[i + 1] + 1]..])
  {
    var n := |s|;
    if sa[i] == n - 1 {
      KasaiStore(s, sa, pos, lcp, i, 0);
      assert lcp[sa[i] := 0] == lcp;
      return lcp, 0;
    }
    k' := ExtendMatch(s, i, pos[sa[i] + 1], k);
    KasaiStore(s, sa, pos, lcp, i, k');
    lcp' := lcp[sa[i] := k'];
    if i + 1 < n && sa[i + 1] + 1 < n {
      KasaiCarry(s, sa, pos, i);
    }
    if k' > 0 {
      k' := k' - 1;
    }
  }

  /**
   * kasai: `lcp[r]` is the common-prefix length of the suffixes ranked r and
   * r + 1, and 0 for the last rank. The carried `k` never exceeds the true value.
   */
  method Kasai(s: seq<char>, sa: seq<nat>) returns (lcp: seq<nat>)
    requires IsRankArray(s, sa)
    ensures LcpArray(s, sa, lcp)
  {
    var n := |s|;
    var k: nat := 0;
    lcp := seq(n, _ => 0);
    var pos := RankPositions(s, sa);
    var i := 0;
    while i < n
      invariant 0 <= i <= n
      invariant LcpUpTo(s, pos, lcp, i)
      invariant i < n && sa[i] + 1 < n ==> k <= CommonPrefix(s[i..], s[pos[sa[i] + 1]..])
    {
      lcp, k := KasaiStep(s, sa, pos, lcp, i, k);
      i := i + 1;
    }
    KasaiDone(s, sa, pos, lcp);
  }

  /** `kasai(s)` with the default `sa=None`: the rank array is computed first, which fails on an empty `s`. */
  method KasaiOf(s: seq<char>) returns (r: Result<seq<nat>>)
    ensures r.Err? <==> |s| == 0
    ensures r.Ok? ==> exists sa :: IsRankArray(s, sa) && LcpArray(s, sa, r.value)
  {
    var res := SuffixArray(s);
    if res.Err? {
      return Err(res.error);
    }
    var lcp := Kasai(s, res.value);
    return Ok(lcp);
  }

  // ---------------------------------------------------------------------------
  // longest_common_substring
  // ---------------------------------------------------------------------------

  /** No NUL character occurs in `x`, so `chr(0)` can separate two such strings. */
  predicate NulFree(x: seq<char>) {
    forall i :: 0 <= i < |x| ==> x[i] != '\0'
  }

  /** `s` is `a + [chr(0)] + b`, the string searched by `longest_common_substring`, described by its parts. */
  ghost predicate Joins(s: seq<char>, a: seq<char>, b: seq<char>) {
    && |s| == |a| + 1 + |b|
    && (forall i :: 0 <= i < |a| ==> s[i] == a[i])
    && s[|a|] == '\0'
    && (forall i :: 0 <= i < |b| ==> s[|a| + 1 + i] == b[i])
  }

  lemma JoinsConcat(a: seq<char>, b: seq<char>)
    ensures Joins(a + ['\0'] + b, a, b)
  {
  }

  /** The suffixes ranked `r` and `r + 1` start on different sides of position `m`. */
  predicate Crossing(pos: seq<nat>, m: nat, r: nat)
    requires r + 1 < |pos|
  {
    (pos[r] < m) != (pos[r + 1] < m)
  }

  /** Between two ranks whose suffixes start on different sides of `m`, some adjacent pair crosses. */
  lemma {:induction false} CrossingBetween(pos: seq<nat>, m: nat, lo: nat, hi: nat) returns (r: nat)
    requires lo < hi < |pos| && (pos[lo] < m) != (pos[hi] < m)
    ensures lo <= r < hi && Crossing(pos, m, r)
    decreases hi - lo
  {
    if Crossing(pos, m, lo) {
      r := lo;
    } else {
      r := CrossingBetween(pos, m, lo + 1, hi);
    }
  }

  /** `pos` lists the suffixes of `s` in increasing lexicographic order. */
  ghost predicate SortedByRank(s: seq<char>, pos: seq<nat>) {
    && |pos| == |s|
    && (forall r :: 0 <= r < |pos| ==> pos[r] < |s|)
    && forall r1, r2 {:trigger LexLess(s[pos[r1]..], s[pos[r2]..])} :: 0 <= r1 < r2 < |pos| ==> LexLess(s[pos[r1]..], s[pos[r2]..])
  }

  /** The inverse of a rank array lists the suffixes in sorted order. */
  lemma RanksSorted(s: seq<char>, sa: seq<nat>, pos: seq<nat>)
    requires IsRankArray(s, sa) && Inverts(sa, pos)
    ensures SortedByRank(s, pos)
  {
    forall r1, r2 | 0 <= r1 < r2 < |pos| ensures LexLess(s[pos[r1]..], s[pos[r2]..]) {
      assert sa[pos[r1]] == r1 && sa[pos[r2]] == r2;
    }
  }

  /** The suffixes of `s` in rank order. */
  ghost function RankedSuffixes(s: seq<char>, pos: seq<nat>): (l: seq<seq<char>>)
    requires SortedByRank(s, pos)
    ensures |l| == |s| && forall r :: 0 <= r < |s| ==> l[r] == s[pos[r]..]
  {
    seq(|s|, r requires 0 <= r < |s| => s[pos[r]..])
  }

  /** `l` is strictly increasing in lexicographic order. */
  ghost predicate LexSorted(l: seq<seq<char>>) {
    forall a, b {:trigger LexLess(l[a], l[b])} :: 0 <= a < b < |l| ==> LexLess(l[a], l[b])
  }

  /** In a sorted list, the entries at `lo` and `hi` share no more than any adjacent pair between them. */
  lemma {:induction false} SortedGapLcp(l: seq<seq<char>>, lo: nat, r: nat, hi: nat)
    requires LexSorted(l) && lo <= r < hi < |l|
    ensures CommonPrefix(l[lo], l[hi]) <= CommonPrefix(l[r], l[r + 1])
    decreases r - lo
  {
    if lo < r {
      assert LexLess(l[lo], l[lo + 1]) && LexLess(l[lo + 1], l[hi]);
      SandwichRight(l[lo], l[lo + 1], l[hi]);
      SortedGapLcp(l, lo + 1, r, hi);
    } else if r + 1 < hi {
      assert LexLess(l[r], l[r + 1]) && LexLess(l[r + 1], l[hi]);
      SandwichLeft(l[r], l[r + 1], l[hi]);
    }
  }

  /** The suffixes ranked `lo` and `hi` share no more than any adjacent pair ranked between them. */
  lemma RankGapLcp(s: seq<char>, pos: seq<nat>, lo: nat, r: nat, hi: nat)
    requires SortedByRank(s, pos) && lo <= r < hi < |s|
    ensures CommonPrefix(s[pos[lo]..], s[pos[hi]..]) <= CommonPrefix(s[pos[r]..], s[pos[r + 1]..])
  {
    var l := RankedSuffixes(s, pos);
    forall a, b | 0 <= a < b < |l| ensures LexLess(l[a], l[b]) {
      assert LexLess(s[pos[a]..], s[pos[b]..]);
    }
    SortedGapLcp(l, lo, r, hi);
  }

  /** Between two ranks on different sides of `m`, a common prefix of theirs is bounded by a crossing adjacent pair. */
  lemma CoverBetween(s: seq<char>, pos: seq<nat>, m: nat, lo: nat, hi: nat, len: nat) returns (r: nat)
    requires SortedByRank(s, pos) && lo < |s| && hi < |s| && (pos[lo] < m) != (pos[hi] < m)
    requires len <= CommonPrefix(s[pos[lo]..], s[pos[hi]..])
    ensures r + 1 < |s| && Crossing(pos, m, r)
    ensures len <= CommonPrefix(s[pos[r]..], s[pos[r + 1]..])
  {
    if lo < hi {
      r := CrossingBetween(pos, m, lo, hi);
      RankGapLcp(s, pos, lo, r, hi);
    } else {
      CommonPrefixSymmetric(s[pos[lo]..], s[pos[hi]..]);
      r := CrossingBetween(pos, m, hi, lo);
      RankGapLcp(s, pos, hi, r, lo);
    }
  }

  /**
   * With NUL-free strings, the common prefix of a suffix starting inside `a` and
   * one starting at or after the separator stops before the separator, so it is
   * a common substring of `a` and `b`.
   */
  lemma CrossingIsCommon(s: seq<char>, a: seq<char>, b: seq<char>, p: nat, q: nat)
    requires Joins(s, a, b) && NulFree(a) && NulFree(b)
    requires p < |a| && |a| <= q < |s|
    ensures IsCommonLength(a, b, CommonPrefix(s[p..], s[q..]))
  {
    if q == |a| {
      assert s[p..][0] == a[p] && s[q..][0] == '\0';
      assert CommonAt(a, b, 0, 0, 0);
    } else {
      var q' := q - |a| - 1;
      CrossingInside(s, a, b, p, q');
      assert CommonAt(a, b, p, q', CommonPrefix(s[p..], s[q..]));
    }
  }

  /** The common prefix of a suffix inside `a` and one inside `b` stops before the separator. */
  lemma CrossingBelowSeparator(s: seq<char>, a: seq<char>, b: seq<char>, p: nat, q: nat)
    requires Joins(s, a, b) && NulFree(b) && p < |a| && q < |b|
    ensures CommonPrefix(s[p..], s[|a| + 1 + q..]) <= |a| - p
  {
    var x, y := s[p..], s[|a| + 1 + q..];
    var d := |a| - p;
    assert x[d] == '\0';
    if d < |y| {
      assert y[d] == s[|a| + 1 + (q + d)] == b[q + d];
      CommonPrefixBelow(x, y, d);
    }
  }

  /** A common prefix of a suffix inside `a` and one inside `b` is a common substring at those positions. */
  lemma CrossingInside(s: seq<char>, a: seq<char>, b: seq<char>, p: nat, q: nat)
    requires Joins(s, a, b) && NulFree(b) && p < |a| && q < |b|
    ensures CommonAt(a, b, p, q, CommonPrefix(s[p..], s[|a| + 1 + q..]))
  {
    var x, y := s[p..], s[|a| + 1 + q..];
    var len := CommonPrefix(x, y);
    CrossingBelowSeparator(s, a, b, p, q);
    assert |y| == |b| - q;
    var u, w := a[p..p + len], b[q..q + len];
    forall i | 0 <= i < len ensures u[i] == w[i] {
      calc {
        u[i];
        s[p + i];
        x[..len][i];
        y[..len][i];
        s[|a| + 1 + (q + i)];
        w[i];
      }
    }
  }

  /**
   * Two suffixes starting on different sides of `m` are covered by the lcp of
   * some crossing pair of ranks: a common prefix length `len` of theirs is
   * at most that lcp.
   */
  lemma CrossingCovers(s: seq<char>, sa: seq<nat>, pos: seq<nat>, m: nat, i: nat, j: nat, len: nat) returns (r: nat)
    requires SortedByRank(s, pos) && Inverts(sa, pos) && i < m <= j < |s|
    requires len <= CommonPrefix(s[i..], s[j..])
    ensures r + 1 < |s| && Crossing(pos, m, r)
    ensures len <= CommonPrefix(s[pos[r]..], s[pos[r + 1]..])
  {
    var ri, rj := sa[i], sa[j];
    assert pos[ri] == i && pos[rj] == j;
    r := CoverBetween(s, pos, m, ri, rj, len);
  }

  /** A common substring of `a` and `b` is a common prefix of the matching suffixes of the joined string. */
  lemma CommonInJoined(s: seq<char>, a: seq<char>, b: seq<char>, p: nat, q: nat, len: nat)
    requires Joins(s, a, b) && CommonAt(a, b, p, q, len) && len > 0
    ensures p < |a| && |a| + 1 + q < |s|
    ensures len <= CommonPrefix(s[p..], s[|a| + 1 + q..])
  {
    assert s[p..][..len] == a[p..p + len];
    assert s[|a| + 1 + q..][..len] == b[q..q + len];
    CommonPrefixAtLeast(s[p..], s[|a| + 1 + q..], len);
  }

  /** Every common substring of `a` and `b` is covered by the lcp of some crossing pair of ranks. */
  lemma CommonBelowCrossing(s: seq<char>, a: seq<char>, b: seq<char>, sa: seq<nat>, pos: seq<nat>, p: nat, q: nat, len: nat)
    returns (r: nat)
    requires Joins(s, a, b) && SortedByRank(s, pos) && Inverts(sa, pos)
    requires |a| > 0 && CommonAt(a, b, p, q, len)
    ensures r + 1 < |s| && Crossing(pos, |a|, r)
    ensures len <= CommonPrefix(s[pos[r]..], s[pos[r + 1]..])
  {
    if len > 0 {
      CommonInJoined(s, a, b, p, q, len);
      r := CrossingCovers(s, sa, pos, |a|, p, |a| + 1 + q, len);
    } else {
      r := CrossingCovers(s, sa, pos, |a|, 0, |a|, 0);
    }
  }

  /**
   * The maximum of `lcp` over the crossing ranks is the longest common
   * substring length, when neither string contains a NUL.
   */
  lemma CrossingMaxIsLongest(s: seq<char>, a: seq<char>, b: seq<char>, sa: seq<nat>, pos: seq<nat>, lcp: seq<nat>, best: nat)
    requires Joins(s, a, b) && IsRankArray(s, sa) && Inverts(sa, pos) && LcpArray(s, sa, lcp)
    requires |a| > 0 && NulFree(a) && NulFree(b)
    requires exists u :: 0 <= u < |s| - 1 && Crossing(pos, |a|, u) && lcp[u] == best
    requires forall u :: 0 <= u < |s| - 1 && Crossing(pos, |a|, u) ==> lcp[u] <= best
    ensures best == LongestCommonLength(a, b)
  {
    var u :| 0 <= u < |s| - 1 && Crossing(pos, |a|, u) && lcp[u] == best;
    assert sa[pos[u]] == u && sa[pos[u + 1]] == u + 1;
    assert lcp[u] == CommonPrefix(s[pos[u]..], s[pos[u + 1]..]);
    if pos[u] < |a| {
      CrossingIsCommon(s, a, b, pos[u], pos[u + 1]);
    } else {
      CommonPrefixSymmetric(s[pos[u]..], s[pos[u + 1]..]);
      CrossingIsCommon(s, a, b, pos[u + 1], pos[u]);
    }
    var longest := LongestCommonLength(a, b);
    var p: nat, q: nat :| CommonAt(a, b, p, q, longest);
    RanksSorted(s, sa, pos);
    var v := CommonBelowCrossing(s, a, b, sa, pos, p, q, longest);
    assert sa[pos[v]] == v && sa[pos[v + 1]] == v + 1;
  }

  /**
   * The generator inside `max(...)`: the largest `lcp[r]` over the ranks `r`
   * whose suffixes and the next rank's lie on different sides of `m`;
   * `found` is false when there is no such rank.
   */
  method CrossingMax(pos: seq<nat>, m: nat, lcp: seq<nat>) returns (found: bool, best: nat)
    requires |lcp| == |pos| > 0
    ensures found <==> exists u :: 0 <= u < |pos| - 1 && Crossing(pos, m, u)
    ensures found ==> exists u :: 0 <= u < |pos| - 1 && Crossing(pos, m, u) && lcp[u] == best
    ensures forall u :: 0 <= u < |pos| - 1 && Crossing(pos, m, u) ==> lcp[u] <= best
  {
    found, best := false, 0;
    var t := 0;
    while t < |pos| - 1
      invariant 0 <= t <= |pos| - 1
      invariant found <==> exists u :: 0 <= u < t && Crossing(pos, m, u)
      invariant found ==> exists u :: 0 <= u < t && Crossing(pos, m, u) && lcp[u] == best
      invariant forall u :: 0 <= u < t && Crossing(pos, m, u) ==> lcp[u] <= best
    {
      if Crossing(pos, m, t) {
        if !found || lcp[t] > best {
          best := lcp[t];
        }
        found := true;
      }
      t := t + 1;
    }
  }

  /**
   * longest_common_substring: the rank array, its inverse and the LCP array of
   * `a + [chr(0)] + b`, then the maximum LCP over ranks whose suffixes start on
   * different sides of the separator. `max()` of no values raises, which
   * happens exactly when `a` is empty.
   */
  method LongestCommonSubstring(a: seq<char>, b: seq<char>) returns (r: Result<nat>)
    ensures r.Err? <==> |a| == 0
    ensures r.Ok? && NulFree(a) && NulFree(b) ==> r.value == LongestCommonLength(a, b)
  {
    var s := a + ['\0'] + b;
    JoinsConcat(a, b);
    var res := SuffixArray(s);
    assert res.Ok?;
    var sa := res.value;
    var pos := RankPositions(s, sa);
    var lcp := Kasai(s, sa);
    var found, best := CrossingMax(pos, |a|, lcp);
    if |a| > 0 {
      RanksSorted(s, sa, pos);
      var u := CommonBelowCrossing(s, a, b, sa, pos, 0, 0, 0);
      assert found;
    }
    if !found {
      return Err(EmptyMax);
    }
    if NulFree(a) && NulFree(b) {
      CrossingMaxIsLongest(s, a, b, sa, pos, lcp, best);
    }
    return Ok(best);
  }
}
