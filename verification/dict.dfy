/**
 * Python's insertion-ordered `dict`: a sequence of (key, value) entries with
 * distinct keys. The order is observable in the modelled code (iteration in
 * `infer_headers_origin`, the key order of `dict_from_har`, `dict_delete`,
 * `json_dfs`), so a plain `map` is only the lookup view `ToMap`.
 */
module PyDict {
  import opened Seqs

  ghost predicate DistinctKeys<K, V>(s: seq<(K, V)>) {
    forall i, j :: 0 <= i < j < |s| ==> s[i].0 != s[j].0
  }

  type Dict<K(==), V> = s: seq<(K, V)> | DistinctKeys(s) witness []

  /** The keys in iteration order. */
  function Keys<K, V>(d: seq<(K, V)>): seq<K> {
    seq(|d|, i requires 0 <= i < |d| => d[i].0)
  }

  /** The lookup view `d[k]`. */
  function ToMap<K, V>(d: Dict<K, V>): map<K, V> {
    map i | 0 <= i < |d| :: d[i].0 := d[i].1
  }

  lemma InMap<K, V>(d: Dict<K, V>, i: int)
    requires 0 <= i < |d|
    ensures d[i].0 in ToMap(d) && ToMap(d)[d[i].0] == d[i].1
  {
  }

  /** A key is in the lookup view exactly when it is in the key sequence. */
  lemma KeysInMap<K, V>(d: Dict<K, V>)
    ensures forall k :: k in ToMap(d) <==> k in Keys(d)
  {
    forall k | k in Keys(d) ensures k in ToMap(d) {
      var i :| 0 <= i < |d| && Keys(d)[i] == k;
      InMap(d, i);
    }
    forall k | k in ToMap(d) ensures k in Keys(d) {
      var i :| 0 <= i < |d| && d[i].0 == k;
      assert Keys(d)[i] == k;
    }
  }

  lemma KeysNoDup<K, V>(d: Dict<K, V>)
    ensures NoDup(Keys(d))
  {
  }

  /** The position of key `k` in `d`, or -1. */
  function Find<K, V>(d: Dict<K, V>, k: K): (r: int)
    ensures -1 <= r < |d|
    ensures r >= 0 ==> d[r].0 == k
    ensures r < 0 <==> k !in ToMap(d)
  {
    if |d| == 0 then -1
    else if d[|d| - 1].0 == k then |d| - 1
    else Find(d[..|d| - 1], k)
  }

  /** Appending an entry with a new key. */
  lemma AppendNew<K, V>(d: Dict<K, V>, k: K, v: V)
    requires k !in ToMap(d)
    ensures DistinctKeys(d + [(k, v)])
    ensures ToMap(d + [(k, v)]) == ToMap(d)[k := v]
  {
    forall j | 0 <= j < |d| ensures d[j].0 != k {
      InMap(d, j);
    }
    var r: Dict<K, V> := d + [(k, v)];
    InMap(r, |d|);
    forall x | x in ToMap(r) ensures x in ToMap(d)[k := v] {
      var j :| 0 <= j < |r| && r[j].0 == x;
      if j < |d| { InMap(d, j); }
    }
    forall x | x in ToMap(d) ensures x in ToMap(r) {
      var j :| 0 <= j < |d| && d[j].0 == x;
      InMap(r, j);
    }
  }

  /** Overwriting the value of the entry at `i`. */
  lemma ReplaceAt<K, V>(d: Dict<K, V>, i: nat, v: V)
    requires i < |d|
    ensures DistinctKeys(d[i := (d[i].0, v)])
    ensures ToMap(d[i := (d[i].0, v)]) == ToMap(d)[d[i].0 := v]
  {
    var r: Dict<K, V> := d[i := (d[i].0, v)];
    InMap(r, i);
    forall x | x in ToMap(r) ensures x in ToMap(d)[d[i].0 := v] && ToMap(r)[x] == ToMap(d)[d[i].0 := v][x] {
      var j :| 0 <= j < |r| && r[j].0 == x;
      if j != i { InMap(d, j); InMap(r, j); }
    }
    forall x | x in ToMap(d) ensures x in ToMap(r) {
      var j :| 0 <= j < |d| && d[j].0 == x;
      InMap(r, j);
    }
  }

  /** `d[k] = v`: overwrites in place when `k` is present, appends otherwise. */
  function Set<K, V>(d: Dict<K, V>, k: K, v: V): (r: Dict<K, V>)
    ensures ToMap(r) == ToMap(d)[k := v]
    ensures Keys(r) == if k in ToMap(d) then Keys(d) else Keys(d) + [k]
  {
    var i := Find(d, k);
    if i < 0 then
      AppendNew(d, k, v);
      d + [(k, v)]
    else
      ReplaceAt(d, i, v);
      d[i := (k, v)]
  }

  /** The lookup view of an entry followed by a dict without its key. */
  lemma ConsMap<K, V>(d: Dict<K, V>)
    requires |d| > 0
    ensures forall k :: k in ToMap(d) <==> k == d[0].0 || k in ToMap(d[1..])
    ensures d[0].0 !in ToMap(d[1..])
    ensures ToMap(d)[d[0].0] == d[0].1
    ensures forall k :: k in ToMap(d[1..]) ==> ToMap(d)[k] == ToMap(d[1..])[k]
  {
    var t: Dict<K, V> := d[1..];
    InMap(d, 0);
    forall k | k in ToMap(d) ensures k == d[0].0 || k in ToMap(t) {
      var j :| 0 <= j < |d| && d[j].0 == k;
      if j > 0 { InMap(t, j - 1); }
    }
    forall j | 0 <= j < |t| ensures t[j].0 != d[0].0 && t[j].0 in ToMap(d) && ToMap(d)[t[j].0] == t[j].1 {
      TailEntry(d, j);
    }
  }

  /** Entry `j` of `d[1..]` is entry `j + 1` of `d`. */
  lemma TailEntry<K, V>(d: Dict<K, V>, j: nat)
    requires j + 1 < |d|
    ensures d[1..][j] == d[j + 1] && d[j + 1].0 != d[0].0
    ensures d[j + 1].0 in ToMap(d) && ToMap(d)[d[j + 1].0] == d[j + 1].1
  {
    InMap(d, j + 1);
  }

  /** `{k: v for k, v in d.items() if keep(k, v)}`: the entries kept, in order. */
  function Filter<K(!new), V>(d: Dict<K, V>, keep: (K, V) -> bool): (r: Dict<K, V>)
    ensures forall k :: k in ToMap(r) <==> k in ToMap(d) && keep(k, ToMap(d)[k])
    ensures forall k :: k in ToMap(r) ==> ToMap(r)[k] == ToMap(d)[k]
    ensures IsSubsequence(r, d)
    decreases |d|
  {
    if |d| == 0 then []
    else
      var t: Dict<K, V> := d[1..];
      var f := Filter(t, keep);
      ConsMap(d);
      assert d == [d[0]] + t;
      if keep(d[0].0, d[0].1) then
        FilterCons(d[0], f);
        [d[0]] + f
      else
        SubsequenceSkip(f, t, d[0]);
        f
  }

  /** Putting an entry with a new key in front of a dict. */
  lemma FilterCons<K, V>(e: (K, V), f: Dict<K, V>)
    requires e.0 !in ToMap(f)
    ensures DistinctKeys([e] + f)
    ensures forall k :: k in ToMap([e] + f) <==> k == e.0 || k in ToMap(f)
    ensures ToMap([e] + f)[e.0] == e.1
    ensures forall k :: k in ToMap(f) ==> ToMap([e] + f)[k] == ToMap(f)[k]
  {
    forall j | 0 <= j < |f| ensures f[j].0 != e.0 {
      InMap(f, j);
    }
    var r: Dict<K, V> := [e] + f;
    assert r[1..] == f;
    ConsMap(r);
  }

  /** A filter that keeps every entry returns the dict unchanged. */
  lemma {:induction false} FilterAll<K(!new), V>(d: Dict<K, V>, keep: (K, V) -> bool)
    requires forall i :: 0 <= i < |d| ==> keep(d[i].0, d[i].1)
    ensures Filter(d, keep) == d
    decreases |d|
  {
    if |d| > 0 {
      var t: Dict<K, V> := d[1..];
      assert forall i :: 0 <= i < |t| ==> t[i] == d[i + 1];
      FilterAll(t, keep);
      assert d == [d[0]] + t;
    }
  }

  /** `d.pop(k, None)` on a copy: everything but `k`, in order. */
  function Remove<K(!new), V>(d: Dict<K, V>, k: K): (r: Dict<K, V>)
    ensures ToMap(r) == ToMap(d) - {k}
    ensures IsSubsequence(r, d)
  {
    Filter(d, (k': K, _: V) => k' != k)
  }

  /** Dicts with no key in common. */
  predicate Disjoint<K, V>(a: Dict<K, V>, b: Dict<K, V>) {
    forall i, j :: 0 <= i < |a| && 0 <= j < |b| ==> a[i].0 != b[j].0
  }

  /** The lookup view of a dict with one more entry at the end. */
  lemma SnocMap<K, V>(b: Dict<K, V>)
    requires |b| > 0
    ensures ToMap(b) == ToMap(b[..|b| - 1])[b[|b| - 1].0 := b[|b| - 1].1]
  {
    var t: Dict<K, V> := b[..|b| - 1];
    assert b == t + [b[|b| - 1]];
    InMap(b, |b| - 1);
    AppendNew(t, b[|b| - 1].0, b[|b| - 1].1);
  }

  lemma UnionUpdate<K, V>(x: map<K, V>, y: map<K, V>, k: K, v: V)
    ensures (x + y)[k := v] == x + y[k := v]
  {
  }

  /** `{**a, **b}`: `b`'s entries set one by one onto `a`. */
  function Merge<K, V>(a: Dict<K, V>, b: Dict<K, V>): (r: Dict<K, V>)
    ensures ToMap(r) == ToMap(a) + ToMap(b)
    ensures Disjoint(a, b) ==> r == a + b
    decreases |b|
  {
    if |b| == 0 then
      assert ToMap(b) == map[];
      assert a + b == a;
      a
    else
      var t: Dict<K, V> := b[..|b| - 1];
      var e := b[|b| - 1];
      var m := Merge(a, t);
      SnocMap(b);
      UnionUpdate(ToMap(a), ToMap(t), e.0, e.1);
      MergeStepDisjoint(a, b, m);
      Set(m, e.0, e.1)
  }

  /** With disjoint keys the last entry of `b` is new to `a + b[..|b| - 1]`. */
  lemma MergeStepDisjoint<K, V>(a: Dict<K, V>, b: Dict<K, V>, m: Dict<K, V>)
    requires |b| > 0
    requires Disjoint(a, b[..|b| - 1]) ==> m == a + b[..|b| - 1]
    ensures Disjoint(a, b) ==> Set(m, b[|b| - 1].0, b[|b| - 1].1) == a + b
  {
    if Disjoint(a, b) {
      DisjointPrefix(a, b);
      LastIsNew(a, b, m);
      SetNew(m, b[|b| - 1].0, b[|b| - 1].1);
      SnocAssoc(a, b);
    }
  }

  lemma DisjointPrefix<K, V>(a: Dict<K, V>, b: Dict<K, V>)
    requires |b| > 0 && Disjoint(a, b)
    ensures Disjoint(a, b[..|b| - 1])
  {
  }

  lemma SnocAssoc<T>(a: seq<T>, b: seq<T>)
    requires |b| > 0
    ensures (a + b[..|b| - 1]) + [b[|b| - 1]] == a + b
  {
    assert b == b[..|b| - 1] + [b[|b| - 1]];
  }

  /** With disjoint keys the last key of `b` is not among `a + b[..|b| - 1]`. */
  lemma LastIsNew<K, V>(a: Dict<K, V>, b: Dict<K, V>, m: Dict<K, V>)
    requires |b| > 0 && Disjoint(a, b) && m == a + b[..|b| - 1]
    ensures b[|b| - 1].0 !in ToMap(m)
  {
    forall j | 0 <= j < |m| ensures m[j].0 != b[|b| - 1].0 {
      if j < |a| {
        assert a[j].0 != b[|b| - 1].0;
      } else {
        assert m[j] == b[j - |a|];
      }
    }
  }

  /** Setting a new key appends it. */
  lemma SetNew<K, V>(d: Dict<K, V>, k: K, v: V)
    requires k !in ToMap(d)
    ensures Set(d, k, v) == d + [(k, v)]
  {
    assert Find(d, k) < 0;
  }

  /** The keys of a sub-dict appear in the same order among the keys of the dict. */
  lemma {:induction false} SubsequenceKeys<K, V>(r: seq<(K, V)>, d: seq<(K, V)>)
    requires IsSubsequence(r, d)
    ensures IsSubsequence(Keys(r), Keys(d))
    decreases |d|
  {
    if |r| > 0 {
      assert Keys(d)[1..] == Keys(d[1..]);
      if r[0] == d[0] {
        SubsequenceKeys(r[1..], d[1..]);
        assert Keys(r)[1..] == Keys(r[1..]);
      } else {
        SubsequenceKeys(r, d[1..]);
        if Keys(r)[0] == Keys(d)[0] {
          SubsequenceTail(Keys(r), Keys(d[1..]));
          assert Keys(r)[1..] == Keys(r[1..]);
        }
      }
    }
  }
}
