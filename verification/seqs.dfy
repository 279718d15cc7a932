/** Facts about sequences used by several modules: their element sets and duplicates. */
module Seqs {

  function Elems<T>(s: seq<T>): set<T> {
    set x | x in s
  }

  predicate NoDup<T(==)>(s: seq<T>) {
    forall i, j :: 0 <= i < |s| && 0 <= j < |s| && i != j ==> s[i] != s[j]
  }

  /** The integers 0 .. m - 1. */
  function Range(m: nat): (r: set<nat>)
    ensures forall p: nat :: p in r <==> p < m
  {
    if m == 0 then {} else Range(m - 1) + {m - 1}
  }

  lemma ElemsSnoc<T>(s: seq<T>, x: T)
    ensures Elems(s + [x]) == Elems(s) + {x}
  {
    assert forall y :: y in s + [x] <==> y in s || y == x;
  }

  /** A sequence has at most as many distinct elements as entries, and exactly as many iff it has no duplicates. */
  lemma {:induction false} ElemsCard<T>(s: seq<T>)
    ensures |Elems(s)| <= |s|
    ensures |Elems(s)| == |s| <==> NoDup(s)
  {
    if |s| == 0 {
    } else {
      var t, x := s[..|s| - 1], s[|s| - 1];
      assert s == t + [x];
      ElemsSnoc(t, x);
      ElemsCard(t);
      if x in t {
        var i :| 0 <= i < |t| && t[i] == x;
        assert s[i] == s[|s| - 1];
        assert Elems(s) == Elems(t);
      } else {
        NoDupSnoc(t, x);
      }
    }
  }

  /** Appending a new value keeps a sequence duplicate-free, and only then. */
  lemma NoDupSnoc<T>(t: seq<T>, x: T)
    requires x !in t
    ensures NoDup(t + [x]) <==> NoDup(t)
  {
    var s := t + [x];
    if NoDup(t) {
      forall i, j | 0 <= i < |s| && 0 <= j < |s| && i != j ensures s[i] != s[j] {
        if i < |t| && j < |t| {
          assert s[i] == t[i] && s[j] == t[j];
        }
      }
    }
    if NoDup(s) {
      forall i, j | 0 <= i < |t| && 0 <= j < |t| && i != j ensures t[i] != t[j] {
        assert s[i] == t[i] && s[j] == t[j];
      }
    }
  }

  lemma {:induction false} RangeCard(m: nat)
    ensures |Range(m)| == m
  {
    if m > 0 {
      RangeCard(m - 1);
    }
  }

  /** The distinct elements of `l`, in order of first occurrence. */
  function Dedupe<T(==)>(l: seq<T>): (d: seq<T>)
    ensures Elems(d) == Elems(l)
    ensures NoDup(d)
  {
    if |l| == 0 then []
    else
      var t, x := l[..|l| - 1], l[|l| - 1];
      assert l == t + [x];
      ElemsSnoc(t, x);
      var d := Dedupe(t);
      if x in d then d
      else
        ElemsSnoc(d, x);
        d + [x]
  }

  /**
   * The elements of `l` that `ks` lacks, in order of first occurrence: each is
   * taken once, and counts as present from then on.
   */
  function Fresh<T(==)>(ks: seq<T>, l: seq<T>): seq<T>
    decreases |l|
  {
    if |l| == 0 then []
    else if l[0] in ks then Fresh(ks, l[1..])
    else [l[0]] + Fresh(ks + [l[0]], l[1..])
  }

  /** Taking the first element of `l` into `kc` when it is new leaves `kc` and the fresh rest unchanged together. */
  lemma FreshStep<T>(kc: seq<T>, l: seq<T>)
    requires |l| > 0
    ensures var kc' := if l[0] in kc then kc else kc + [l[0]];
      kc' + Fresh(kc', l[1..]) == kc + Fresh(kc, l)
  {
    if l[0] !in kc {
      assert (kc + [l[0]]) + Fresh(kc + [l[0]], l[1..]) == kc + ([l[0]] + Fresh(kc + [l[0]], l[1..]));
    }
  }

  /** `x` is a fresh element of `l` exactly when it occurs in `l` and not in `ks`; none is taken twice. */
  lemma {:induction false} FreshMembers<T>(ks: seq<T>, l: seq<T>)
    ensures forall x :: x in Fresh(ks, l) <==> x in l && x !in ks
    ensures NoDup(Fresh(ks, l))
    decreases |l|
  {
    if |l| > 0 {
      assert forall x :: x in l <==> x == l[0] || x in l[1..];
      if l[0] in ks {
        FreshMembers(ks, l[1..]);
      } else {
        var f := Fresh(ks + [l[0]], l[1..]);
        FreshMembers(ks + [l[0]], l[1..]);
        assert l[0] !in f;
        forall i, j | 0 <= i < |[l[0]] + f| && 0 <= j < |[l[0]] + f| && i != j
          ensures ([l[0]] + f)[i] != ([l[0]] + f)[j]
        {
          if i > 0 && j > 0 {
            assert ([l[0]] + f)[i] == f[i - 1] && ([l[0]] + f)[j] == f[j - 1];
          } else if i == 0 {
            assert ([l[0]] + f)[j] == f[j - 1] && f[j - 1] in f;
          } else {
            assert ([l[0]] + f)[i] == f[i - 1] && f[i - 1] in f;
          }
        }
      }
    }
  }

  /** `r` can be obtained from `s` by deleting elements. */
  predicate IsSubsequence<T(==)>(r: seq<T>, s: seq<T>)
    decreases |s|
  {
    if |r| == 0 then true
    else if |s| == 0 then false
    else if r[0] == s[0] then IsSubsequence(r[1..], s[1..])
    else IsSubsequence(r, s[1..])
  }

  lemma {:induction false} SubsequenceSelf<T>(s: seq<T>)
    ensures IsSubsequence(s, s)
    decreases |s|
  {
    if |s| > 0 {
      SubsequenceSelf(s[1..]);
    }
  }

  /** Dropping the first element of a subsequence keeps it a subsequence. */
  lemma {:induction false} SubsequenceTail<T>(r: seq<T>, s: seq<T>)
    requires |r| > 0 && IsSubsequence(r, s)
    ensures IsSubsequence(r[1..], s)
    decreases |s|, 1
  {
    if r[0] == s[0] {
      SubsequenceSkip(r[1..], s[1..], s[0]);
    } else {
      SubsequenceTail(r, s[1..]);
      SubsequenceSkip(r[1..], s[1..], s[0]);
    }
  }

  /** A subsequence of `s` is a subsequence of `[x] + s`. */
  lemma {:induction false} SubsequenceSkip<T>(r: seq<T>, s: seq<T>, x: T)
    requires IsSubsequence(r, s)
    ensures IsSubsequence(r, [x] + s)
    decreases |s|, 2
  {
    var xs := [x] + s;
    assert xs[1..] == s;
    if |r| > 0 && r[0] == x {
      SubsequenceTail(r, s);
    }
  }

  /** Elements of a subsequence come from the sequence. */
  lemma {:induction false} SubsequenceElems<T>(r: seq<T>, s: seq<T>)
    requires IsSubsequence(r, s)
    ensures Elems(r) <= Elems(s)
    decreases |s|
  {
    if |r| > 0 {
      if r[0] == s[0] {
        SubsequenceElems(r[1..], s[1..]);
      } else {
        SubsequenceElems(r, s[1..]);
      }
      forall y | y in Elems(r) ensures y in Elems(s) {
        var i :| 0 <= i < |r| && r[i] == y;
        if i > 0 || r[0] != s[0] {
          assert y in Elems(s[1..]);
          var j :| 0 <= j < |s| - 1 && s[1..][j] == y;
          assert s[j + 1] == y;
        }
      }
    }
  }

  lemma {:induction false} SubsequenceTrans<T>(r: seq<T>, s: seq<T>, u: seq<T>)
    requires IsSubsequence(r, s) && IsSubsequence(s, u)
    ensures IsSubsequence(r, u)
    decreases |u|
  {
    if |r| > 0 {
      if s[0] == u[0] {
        if r[0] == s[0] {
          SubsequenceTrans(r[1..], s[1..], u[1..]);
        } else {
          SubsequenceTrans(r, s[1..], u[1..]);
        }
      } else {
        SubsequenceTrans(r, s, u[1..]);
        SubsequenceSkip(r, u[1..], u[0]);
        assert [u[0]] + u[1..] == u;
      }
    }
  }
}
