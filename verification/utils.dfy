/**
 * The dict helpers of har2requests/utils.py: intersection, the change set
 * between two header dicts, key deletion, and the depth-first walk over
 * nested JSON objects.
 */
module Utils {
  import opened Wrappers
  import opened Seqs
  import opened PyDict

  // ---------------------------------------------------------------------------
  // dict_intersection
  // ---------------------------------------------------------------------------

  /** dict_intersection: the entries of `a` that `b` holds with the same value, in `a`'s order. */
  function Intersection<K(!new), V(==)>(a: Dict<K, V>, b: Dict<K, V>): (r: Dict<K, V>)
    ensures forall k :: k in ToMap(r) <==> k in ToMap(a) && k in ToMap(b) && ToMap(b)[k] == ToMap(a)[k]
    ensures forall k :: k in ToMap(r) ==> ToMap(r)[k] == ToMap(a)[k]
    ensures IsSubsequence(r, a)
  {
    Filter(a, (k: K, v: V) => k in ToMap(b) && ToMap(b)[k] == v)
  }

  lemma IntersectionSelf<K(!new), V>(a: Dict<K, V>)
    ensures Intersection(a, a) == a
  {
    var keep := (k: K, v: V) => k in ToMap(a) && ToMap(a)[k] == v;
    forall i | 0 <= i < |a| ensures keep(a[i].0, a[i].1) {
      InMap(a, i);
    }
    FilterAll(a, keep);
  }

  // ---------------------------------------------------------------------------
  // dict_change
  // ---------------------------------------------------------------------------

  /** The first comprehension of dict_change: entries of `b` that `a` lacks or holds with another value. */
  function ChangedPart<K(!new), V(==)>(a: Dict<K, Option<V>>, b: Dict<K, Option<V>>): (r: Dict<K, Option<V>>)
    ensures forall k :: k in ToMap(r) <==> k in ToMap(b) && (k !in ToMap(a) || ToMap(a)[k] != ToMap(b)[k])
    ensures forall k :: k in ToMap(r) ==> ToMap(r)[k] == ToMap(b)[k]
    ensures IsSubsequence(r, b)
  {
    Filter(b, (k: K, v: Option<V>) => k !in ToMap(a) || ToMap(a)[k] != v)
  }

  /** Every value replaced by `None`, keys and order kept. */
  function Tombstones<K(!new), V>(d: Dict<K, Option<V>>): (r: Dict<K, Option<V>>)
    ensures Keys(r) == Keys(d)
    ensures forall k :: k in ToMap(r) <==> k in ToMap(d)
    ensures forall k :: k in ToMap(r) ==> ToMap(r)[k] == None
  {
    var r: Dict<K, Option<V>> := seq(|d|, i requires 0 <= i < |d| => (d[i].0, None));
    KeysInMap(r);
    KeysInMap(d);
    r
  }

  /** The second comprehension of dict_change: keys with a non-None value in `a` that `b` lacks, mapped to `None`. */
  function RemovedPart<K(!new), V(==)>(a: Dict<K, Option<V>>, b: Dict<K, Option<V>>): (r: Dict<K, Option<V>>)
    ensures forall k :: k in ToMap(r) <==> k in ToMap(a) && ToMap(a)[k].Some? && k !in ToMap(b)
    ensures forall k :: k in ToMap(r) ==> ToMap(r)[k] == None
    ensures IsSubsequence(Keys(r), Keys(a))
  {
    var f := Filter(a, (k: K, v: Option<V>) => v.Some? && k !in ToMap(b));
    SubsequenceKeys(f, a);
    Tombstones(f)
  }

  /**
   * dict_change: keys of `b` that are new or changed relative to `a`, with `b`'s
   * value, and keys of `a` with a non-None value that `b` lacks, with `None`.
   */
  function Change<K(!new), V(==)>(a: Dict<K, Option<V>>, b: Dict<K, Option<V>>): (r: Dict<K, Option<V>>)
    ensures forall k :: k in ToMap(r) <==>
      || (k in ToMap(b) && (k !in ToMap(a) || ToMap(a)[k] != ToMap(b)[k]))
      || (k in ToMap(a) && ToMap(a)[k].Some? && k !in ToMap(b))
    ensures forall k :: k in ToMap(r) ==> ToMap(r)[k] == if k in ToMap(b) then ToMap(b)[k] else None
  {
    Merge(ChangedPart(a, b), RemovedPart(a, b))
  }

  /** The two parts have no key in common, so the `**` merge never overrides and is a concatenation. */
  lemma ChangePartsDisjoint<K(!new), V>(a: Dict<K, Option<V>>, b: Dict<K, Option<V>>)
    ensures Disjoint(ChangedPart(a, b), RemovedPart(a, b))
    ensures Change(a, b) == ChangedPart(a, b) + RemovedPart(a, b)
  {
    var c, d := ChangedPart(a, b), RemovedPart(a, b);
    forall i, j | 0 <= i < |c| && 0 <= j < |d| ensures c[i].0 != d[j].0 {
      InMap(c, i);
      InMap(d, j);
    }
  }

  /** Nothing changes between a dict and itself. */
  lemma ChangeSelf<K(!new), V>(a: Dict<K, Option<V>>)
    ensures Change(a, a) == []
  {
    var r := Change(a, a);
    if |r| > 0 {
      InMap(r, 0);
    }
  }

  /**
   * Applying the change to `a` (as `{**a, **dict_change(a, b)}`) agrees with `b`
   * on every key of `b`, and gives `None` on every key of `a` that `b` lacks.
   */
  lemma ChangeApply<K(!new), V>(a: Dict<K, Option<V>>, b: Dict<K, Option<V>>)
    ensures forall k :: k in ToMap(b) ==> (ToMap(a) + ToMap(Change(a, b)))[k] == ToMap(b)[k]
    ensures forall k :: k in ToMap(a) && k !in ToMap(b) ==> (ToMap(a) + ToMap(Change(a, b)))[k] == None
  {
  }

  // ---------------------------------------------------------------------------
  // dict_delete
  // ---------------------------------------------------------------------------

  /** dict_delete: the keys of `a` that `b` lacks, in `a`'s order. */
  function Delete<K(!new), V, W>(a: Dict<K, V>, b: Dict<K, W>): (r: seq<K>)
    ensures forall k :: k in r <==> k in ToMap(a) && k !in ToMap(b)
    ensures NoDup(r)
    ensures IsSubsequence(r, Keys(a))
  {
    var f := Filter(a, (k: K, _: V) => k !in ToMap(b));
    KeysInMap(f);
    KeysNoDup(f);
    SubsequenceKeys(f, a);
    Keys(f)
  }

  // ---------------------------------------------------------------------------
  // json_dfs
  // ---------------------------------------------------------------------------

  /** A decoded JSON value; only objects are descended into by json_dfs. */
  datatype Json =
    | Object(fields: Dict<string, Json>)
    | Array(items: seq<Json>)
    | Str(text: string)
    | Number(value: int)
    | Boolean(truth: bool)
    | Null

  /** `(k,) + kk` for every pair yielded below key `k`. */
  function UnderKey(k: string, pairs: seq<(seq<string>, Json)>): (r: seq<(seq<string>, Json)>)
    ensures |r| == |pairs|
    ensures forall i :: 0 <= i < |r| ==> r[i] == ([k] + pairs[i].0, pairs[i].1)
  {
    seq(|pairs|, i requires 0 <= i < |pairs| => ([k] + pairs[i].0, pairs[i].1))
  }

  /** The generator body of json_dfs from the `i`-th entry of `d` on: (path, leaf) pairs in depth-first key order. */
  function DfsFrom(d: Dict<string, Json>, i: nat): seq<(seq<string>, Json)>
    requires i <= |d|
    decreases d, |d| - i
  {
    if i == |d| then []
    else
      var k, v := d[i].0, d[i].1;
      assert d[i] in d && v < d[i];
      (if v.Object? then UnderKey(k, DfsFrom(v.fields, 0)) else [([k], v)]) + DfsFrom(d, i + 1)
  }

  /** json_dfs: nothing for `None`, otherwise the walk over every entry. */
  function JsonDfs(d: Option<Dict<string, Json>>): (r: seq<(seq<string>, Json)>)
    ensures d.None? ==> r == []
  {
    if d.None? then [] else DfsFrom(d.value, 0)
  }

  /** The value reached from `d` by following the keys of `path`, through nested objects. */
  function Follow(d: Dict<string, Json>, path: seq<string>): Option<Json>
    decreases |path|
  {
    if |path| == 0 || path[0] !in ToMap(d) then None
    else
      var v := ToMap(d)[path[0]];
      if |path| == 1 then Some(v)
      else if v.Object? then Follow(v.fields, path[1..])
      else None
  }

  /** A pair yielded from entry `i` on: it follows from `d` to a non-object leaf through an entry at or after `i`. */
  ghost predicate YieldedFrom(d: Dict<string, Json>, i: nat, e: (seq<string>, Json)) {
    && |e.0| > 0
    && (exists j :: i <= j < |d| && d[j].0 == e.0[0])
    && !e.1.Object?
    && Follow(d, e.0) == Some(e.1)
  }

  /** Every pair yielded from entry `i` on is sound. */
  lemma {:induction false} DfsSound(d: Dict<string, Json>, i: nat)
    requires i <= |d|
    ensures forall e :: e in DfsFrom(d, i) ==> YieldedFrom(d, i, e)
    decreases d, |d| - i
  {
    if i < |d| {
      var k, v := d[i].0, d[i].1;
      assert d[i] in d && v < d[i];
      DfsSound(d, i + 1);
      var head := if v.Object? then UnderKey(k, DfsFrom(v.fields, 0)) else [([k], v)];
      assert DfsFrom(d, i) == head + DfsFrom(d, i + 1);
      if v.Object? {
        DfsSound(v.fields, 0);
        DfsHeadSound(d, i);
      } else {
        InMap(d, i);
        assert YieldedFrom(d, i, ([k], v));
      }
      forall e | e in DfsFrom(d, i + 1) ensures YieldedFrom(d, i, e) {
        assert YieldedFrom(d, i + 1, e);
      }
    }
  }

  /** The pairs yielded below an object-valued entry are sound, given that the nested walk is. */
  lemma DfsHeadSound(d: Dict<string, Json>, i: nat)
    requires i < |d| && d[i].1.Object?
    requires forall e :: e in DfsFrom(d[i].1.fields, 0) ==> YieldedFrom(d[i].1.fields, 0, e)
    ensures forall e :: e in UnderKey(d[i].0, DfsFrom(d[i].1.fields, 0)) ==> YieldedFrom(d, i, e)
  {
    var k, v := d[i].0, d[i].1;
    var inner := DfsFrom(v.fields, 0);
    var head := UnderKey(k, inner);
    InMap(d, i);
    forall e | e in head ensures YieldedFrom(d, i, e) {
      var n :| 0 <= n < |head| && head[n] == e;
      assert inner[n] in inner;
      assert e.0[1..] == inner[n].0;
      assert e.0[0] == k;
    }
  }

  lemma HeadTail(path: seq<string>)
    requires |path| > 0
    ensures [path[0]] + path[1..] == path
  {
  }

  /** A pair yielded inside the object under `k` is yielded with `k` prefixed to its path. */
  lemma UnderKeyHas(k: string, pairs: seq<(seq<string>, Json)>, e: (seq<string>, Json))
    requires e in pairs
    ensures ([k] + e.0, e.1) in UnderKey(k, pairs)
  {
    var n :| 0 <= n < |pairs| && pairs[n] == e;
    assert UnderKey(k, pairs)[n] == ([k] + e.0, e.1);
  }

  /** Every path that leads from `d` to a non-object value, through an entry at or after `i`, is yielded with it. */
  lemma {:induction false} DfsComplete(d: Dict<string, Json>, i: nat, path: seq<string>, leaf: Json)
    requires i <= |d|
    requires Follow(d, path) == Some(leaf) && !leaf.Object?
    requires exists j :: i <= j < |d| && d[j].0 == path[0]
    ensures (path, leaf) in DfsFrom(d, i)
    decreases d, |d| - i, 1
  {
    if path[0] == d[i].0 {
      DfsCompleteAt(d, i, path, leaf);
    } else {
      var k, v := d[i].0, d[i].1;
      assert d[i] in d && v < d[i];
      var head := if v.Object? then UnderKey(k, DfsFrom(v.fields, 0)) else [([k], v)];
      assert DfsFrom(d, i) == head + DfsFrom(d, i + 1);
      DfsComplete(d, i + 1, path, leaf);
    }
  }

  /** The case of `DfsComplete` where the path goes through entry `i` itself. */
  lemma {:induction false} DfsCompleteAt(d: Dict<string, Json>, i: nat, path: seq<string>, leaf: Json)
    requires i < |d| && |path| > 0 && path[0] == d[i].0
    requires Follow(d, path) == Some(leaf) && !leaf.Object?
    ensures (path, leaf) in DfsFrom(d, i)
    decreases d, |d| - i, 0
  {
    var k, v := d[i].0, d[i].1;
    assert d[i] in d && v < d[i];
    var head := if v.Object? then UnderKey(k, DfsFrom(v.fields, 0)) else [([k], v)];
    assert DfsFrom(d, i) == head + DfsFrom(d, i + 1);
    InMap(d, i);
    if |path| == 1 {
      assert path == [k];
    } else {
      var j := Find(v.fields, path[1]);
      DfsComplete(v.fields, 0, path[1..], leaf);
      UnderKeyHas(k, DfsFrom(v.fields, 0), (path[1..], leaf));
      HeadTail(path);
    }
  }

  /** The paths of a list of yielded pairs, in order. */
  function Paths(pairs: seq<(seq<string>, Json)>): (r: seq<seq<string>>)
    ensures |r| == |pairs|
    ensures forall n :: 0 <= n < |r| ==> r[n] == pairs[n].0
  {
    seq(|pairs|, n requires 0 <= n < |pairs| => pairs[n].0)
  }

  /** Prefixing one key keeps distinct paths distinct. */
  lemma UnderKeyDistinct(k: string, pairs: seq<(seq<string>, Json)>)
    requires NoDup(Paths(pairs))
    ensures NoDup(Paths(UnderKey(k, pairs)))
  {
    var r := Paths(UnderKey(k, pairs));
    forall a, b | 0 <= a < |r| && 0 <= b < |r| && a != b ensures r[a] != r[b] {
      assert r[a][1..] == pairs[a].0;
      assert r[b][1..] == pairs[b].0;
    }
  }

  /** The paths yielded after entry `i` start with a later entry's key, never with `d[i].0`. */
  lemma TailPathsAvoid(d: Dict<string, Json>, i: nat)
    requires i < |d|
    ensures forall y :: y in Paths(DfsFrom(d, i + 1)) ==> |y| > 0 && y[0] != d[i].0
  {
    var tail := DfsFrom(d, i + 1);
    DfsSound(d, i + 1);
    forall y | y in Paths(tail) ensures |y| > 0 && y[0] != d[i].0 {
      var n :| 0 <= n < |tail| && Paths(tail)[n] == y;
      assert tail[n] in tail && YieldedFrom(d, i + 1, tail[n]);
      var j :| i + 1 <= j < |d| && d[j].0 == y[0];
    }
  }

  /** Lists of distinct paths that start with different keys join into distinct paths. */
  lemma PathsJoin(k: string, head: seq<(seq<string>, Json)>, tail: seq<(seq<string>, Json)>)
    requires NoDup(Paths(head)) && NoDup(Paths(tail))
    requires forall n :: 0 <= n < |head| ==> |head[n].0| > 0 && head[n].0[0] == k
    requires forall y :: y in Paths(tail) ==> |y| > 0 && y[0] != k
    ensures NoDup(Paths(head + tail))
  {
    var r, t := Paths(head + tail), Paths(tail);
    forall a, b | 0 <= a < |r| && 0 <= b < |r| && a != b ensures r[a] != r[b] {
      if a >= |head| {
        assert r[a] == t[a - |head|] && t[a - |head|] in t;
      }
      if b >= |head| {
        assert r[b] == t[b - |head|] && t[b - |head|] in t;
      }
      if a < |head| && b < |head| {
        assert r[a] == Paths(head)[a] && r[b] == Paths(head)[b];
      }
    }
  }

  /** No path is yielded twice from entry `i` on: each entry's key starts its own paths, and keys are distinct. */
  lemma {:induction false} DfsDistinct(d: Dict<string, Json>, i: nat)
    requires i <= |d|
    ensures NoDup(Paths(DfsFrom(d, i)))
    decreases d, |d| - i
  {
    if i < |d| {
      var k, v := d[i].0, d[i].1;
      assert d[i] in d && v < d[i];
      var head := if v.Object? then UnderKey(k, DfsFrom(v.fields, 0)) else [([k], v)];
      assert DfsFrom(d, i) == head + DfsFrom(d, i + 1);
      if v.Object? {
        DfsDistinct(v.fields, 0);
        UnderKeyDistinct(k, DfsFrom(v.fields, 0));
      }
      DfsDistinct(d, i + 1);
      TailPathsAvoid(d, i);
      PathsJoin(k, head, DfsFrom(d, i + 1));
    }
  }

  /** The entry positions along `path`: where each key sits in the object it is looked up in. */
  function IndexPath(d: Dict<string, Json>, path: seq<string>): seq<nat>
    decreases |path|
  {
    if |path| == 0 || path[0] !in ToMap(d) then []
    else
      var j: nat := Find(d, path[0]);
      [j] + if |path| > 1 && d[j].1.Object? then IndexPath(d[j].1.fields, path[1..]) else []
  }

  /** `u` comes strictly before `v` in the lexicographic order of position lists. */
  predicate IndexBefore(u: seq<nat>, v: seq<nat>)
    decreases |u|
  {
    |u| > 0 && |v| > 0 && (u[0] < v[0] || (u[0] == v[0] && IndexBefore(u[1..], v[1..])))
  }

  /** The pairs `r` come in the order of their position lists in `d`. */
  predicate InIndexOrder(d: Dict<string, Json>, r: seq<(seq<string>, Json)>) {
    forall a, b :: 0 <= a < b < |r| ==> IndexBefore(IndexPath(d, r[a].0), IndexPath(d, r[b].0))
  }

  /** The key of entry `j` is found at position `j`. */
  lemma FindAt(d: Dict<string, Json>, j: nat)
    requires j < |d|
    ensures Find(d, d[j].0) == j
  {
    InMap(d, j);
  }

  /** A path through object entry `i` starts at position `i` and continues inside that object. */
  lemma HeadIndexPath(d: Dict<string, Json>, i: nat, p: seq<string>)
    requires i < |d| && d[i].1.Object? && |p| > 0
    ensures IndexPath(d, [d[i].0] + p) == [i] + IndexPath(d[i].1.fields, p)
  {
    FindAt(d, i);
    InMap(d, i);
    assert ([d[i].0] + p)[1..] == p;
  }

  /** Every pair yielded from entry `i` on has a path starting at some position `>= i`. */
  lemma TailIndexStart(d: Dict<string, Json>, i: nat, e: (seq<string>, Json))
    requires i <= |d| && e in DfsFrom(d, i)
    ensures |IndexPath(d, e.0)| > 0 && IndexPath(d, e.0)[0] >= i
  {
    DfsSound(d, i);
    assert YieldedFrom(d, i, e);
    var j :| i <= j < |d| && d[j].0 == e.0[0];
    FindAt(d, j);
    InMap(d, j);
  }

  /** The pairs below object entry `i` keep their inner order, with `i` in front of every position list. */
  lemma HeadOrdered(d: Dict<string, Json>, i: nat)
    requires i < |d| && d[i].1.Object?
    requires InIndexOrder(d[i].1.fields, DfsFrom(d[i].1.fields, 0))
    ensures var head := UnderKey(d[i].0, DfsFrom(d[i].1.fields, 0));
      && (forall a :: 0 <= a < |head| ==> |IndexPath(d, head[a].0)| > 0 && IndexPath(d, head[a].0)[0] == i)
      && InIndexOrder(d, head)
  {
    var f := d[i].1.fields;
    var inner := DfsFrom(f, 0);
    var head := UnderKey(d[i].0, inner);
    DfsSound(f, 0);
    forall a | 0 <= a < |head| ensures IndexPath(d, head[a].0) == [i] + IndexPath(f, inner[a].0) {
      assert inner[a] in inner && YieldedFrom(f, 0, inner[a]);
      HeadIndexPath(d, i, inner[a].0);
    }
    forall a, b | 0 <= a < b < |head| ensures IndexBefore(IndexPath(d, head[a].0), IndexPath(d, head[b].0)) {
      var u, w := IndexPath(f, inner[a].0), IndexPath(f, inner[b].0);
      assert IndexBefore(u, w);
      assert IndexPath(d, head[a].0) == [i] + u && IndexPath(d, head[b].0) == [i] + w;
      assert ([i] + u)[1..] == u && ([i] + w)[1..] == w;
    }
  }

  /** Two ordered runs join into an ordered run when every position list of the first starts below those of the second. */
  lemma OrderJoin(d: Dict<string, Json>, i: nat, head: seq<(seq<string>, Json)>, tail: seq<(seq<string>, Json)>)
    requires InIndexOrder(d, head) && InIndexOrder(d, tail)
    requires forall a :: 0 <= a < |head| ==> |IndexPath(d, head[a].0)| > 0 && IndexPath(d, head[a].0)[0] == i
    requires forall e :: e in tail ==> |IndexPath(d, e.0)| > 0 && IndexPath(d, e.0)[0] > i
    ensures InIndexOrder(d, head + tail)
  {
    var r := head + tail;
    forall a, b | 0 <= a < b < |r| ensures IndexBefore(IndexPath(d, r[a].0), IndexPath(d, r[b].0)) {
      if b < |head| {
        assert r[a] == head[a] && r[b] == head[b];
      } else if a >= |head| {
        assert r[a] == tail[a - |head|] && r[b] == tail[b - |head|];
      } else {
        assert r[a] == head[a] && r[b] == tail[b - |head|] && tail[b - |head|] in tail;
      }
    }
  }

  /** Every pair yielded after entry `i` has a position list starting past `i`. */
  lemma TailIndexStarts(d: Dict<string, Json>, i: nat)
    requires i < |d|
    ensures forall e :: e in DfsFrom(d, i + 1) ==> |IndexPath(d, e.0)| > 0 && IndexPath(d, e.0)[0] > i
  {
    forall e | e in DfsFrom(d, i + 1) ensures |IndexPath(d, e.0)| > 0 && IndexPath(d, e.0)[0] > i {
      TailIndexStart(d, i + 1, e);
    }
  }

  /**
   * The pairs yielded from entry `i` on come in depth-first key order: the
   * position list of an earlier pair is lexicographically before that of a
   * later one.
   */
  lemma {:induction false} DfsOrdered(d: Dict<string, Json>, i: nat)
    requires i <= |d|
    ensures InIndexOrder(d, DfsFrom(d, i))
    decreases d, |d| - i
  {
    if i < |d| {
      var k, v := d[i].0, d[i].1;
      assert d[i] in d && v < d[i];
      var head := if v.Object? then UnderKey(k, DfsFrom(v.fields, 0)) else [([k], v)];
      assert DfsFrom(d, i) == head + DfsFrom(d, i + 1);
      DfsOrdered(d, i + 1);
      TailIndexStarts(d, i);
      if v.Object? {
        DfsOrdered(v.fields, 0);
        HeadOrdered(d, i);
      } else {
        FindAt(d, i);
        InMap(d, i);
        assert IndexPath(d, head[0].0) == [i];
      }
      OrderJoin(d, i, head, DfsFrom(d, i + 1));
    }
  }

  /** json_dfs yields its pairs in depth-first key order, so `main` sees the first qualifying leaf in that order. */
  lemma JsonDfsOrder(d: Dict<string, Json>)
    ensures InIndexOrder(d, JsonDfs(Some(d)))
  {
    assert JsonDfs(Some(d)) == DfsFrom(d, 0);
    DfsOrdered(d, 0);
  }

  /**
   * json_dfs yields exactly the (path, leaf) pairs of the object: sound and
   * complete, and with one pair per leaf, so no path is yielded twice.
   */
  lemma JsonDfsExact(d: Dict<string, Json>, path: seq<string>, leaf: Json)
    ensures (path, leaf) in JsonDfs(Some(d)) <==> |path| > 0 && !leaf.Object? && Follow(d, path) == Some(leaf)
    ensures NoDup(Paths(JsonDfs(Some(d))))
  {
    DfsDistinct(d, 0);
    DfsSound(d, 0);
    if (path, leaf) in JsonDfs(Some(d)) {
      assert YieldedFrom(d, 0, (path, leaf));
    }
    if |path| > 0 && !leaf.Object? && Follow(d, path) == Some(leaf) {
      var j := Find(d, path[0]);
      DfsComplete(d, 0, path, leaf);
    }
  }
}
