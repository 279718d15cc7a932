/**
 * infer_session_headers: the two-pass frequency heuristic that guesses which
 * headers a client session carries from one request to the next.
 *
 * The first pass walks the requests backwards with a counter of header keys
 * and of (key, value) pairs, and records at request `i` the keys whose value
 * there is repeated and holds the majority among the requests from `i` on.
 * The second pass walks forwards: a recorded key enters the session with the
 * request's value, and a session key the request lacks is tombstoned (`None`)
 * once it is too rare in what is left. The Python `Counter` holds both kinds
 * of keys; here they are two maps, which cannot collide there either (a
 * string key is never equal to a tuple key).
 */
module Session {
  import opened Wrappers
  import opened Seqs
  import opened PyDict
  import opened Request

  /** `counter[k]`: a missing key counts 0. */
  function Get<K>(m: map<K, int>, k: K): int {
    if k in m then m[k] else 0
  }

  /** Number of requests among `lo..hi-1` that carry header `k`. */
  function Occurrences(reqs: seq<Request>, lo: nat, hi: nat, k: string): nat
    requires hi <= |reqs|
    decreases hi - lo
  {
    if lo >= hi then 0
    else (if k in ToMap(reqs[lo].headers) then 1 else 0) + Occurrences(reqs, lo + 1, hi, k)
  }

  /** Number of requests among `lo..hi-1` whose header `k` is `v`. */
  function PairOccurrences(reqs: seq<Request>, lo: nat, hi: nat, k: string, v: string): nat
    requires hi <= |reqs|
    decreases hi - lo
  {
    if lo >= hi then 0
    else
      (if k in ToMap(reqs[lo].headers) && ToMap(reqs[lo].headers)[k] == v then 1 else 0)
      + PairOccurrences(reqs, lo + 1, hi, k, v)
  }

  /** A (key, value) pair is never more frequent than its key, so the first pass never divides by zero. */
  lemma {:induction false} PairWithinKey(reqs: seq<Request>, lo: nat, hi: nat, k: string, v: string)
    requires hi <= |reqs|
    ensures PairOccurrences(reqs, lo, hi, k, v) <= Occurrences(reqs, lo, hi, k)
    decreases hi - lo
  {
    if lo < hi {
      PairWithinKey(reqs, lo + 1, hi, k, v);
    }
  }

  /** Counting over `lo..hi-1` is counting over `lo..mid-1` and then `mid..hi-1`. */
  lemma {:induction false} OccurrencesSplit(reqs: seq<Request>, lo: nat, mid: nat, hi: nat, k: string)
    requires lo <= mid <= hi <= |reqs|
    ensures Occurrences(reqs, lo, hi, k) == Occurrences(reqs, lo, mid, k) + Occurrences(reqs, mid, hi, k)
    decreases mid - lo
  {
    if lo < mid {
      OccurrencesSplit(reqs, lo + 1, mid, hi, k);
    }
  }

  /**
   * The test of the first pass at request `i` for its header `k: v`, with the
   * counts taken over requests `i..`: `count[k, v] > 1` and
   * `count[k, v] / count[k] > 0.5`, the ratio cross-multiplied.
   */
  predicate Promotes(reqs: seq<Request>, i: nat, k: string, v: string)
    requires i <= |reqs|
  {
    var pair, key := PairOccurrences(reqs, i, |reqs|, k, v), Occurrences(reqs, i, |reqs|, k);
    pair > 1 && 2 * pair > key
  }

  /** The promoted keys among the first `e` headers of request `i`, in header order. */
  function PromotedKeys(reqs: seq<Request>, i: nat, e: nat): seq<string>
    requires i < |reqs| && e <= |reqs[i].headers|
  {
    if e == 0 then []
    else
      var h := reqs[i].headers[e - 1];
      PromotedKeys(reqs, i, e - 1) + (if Promotes(reqs, i, h.0, h.1) then [h.0] else [])
  }

  lemma {:induction false} PromotedKeysPresent(reqs: seq<Request>, i: nat, e: nat)
    requires i < |reqs| && e <= |reqs[i].headers|
    ensures forall k :: k in PromotedKeys(reqs, i, e) ==> k in ToMap(reqs[i].headers)
  {
    if e > 0 {
      PromotedKeysPresent(reqs, i, e - 1);
      InMap(reqs[i].headers, e - 1);
    }
  }

  /** `record[i]` of the first pass: only keys request `i` carries. */
  function Record(reqs: seq<Request>, i: nat): (r: seq<string>)
    requires i < |reqs|
    ensures forall k :: k in r ==> k in ToMap(reqs[i].headers)
  {
    PromotedKeysPresent(reqs, i, |reqs[i].headers|);
    PromotedKeys(reqs, i, |reqs[i].headers|)
  }

  lemma {:induction false} PromotedKeysMembers(reqs: seq<Request>, i: nat, e: nat)
    requires i < |reqs| && e <= |reqs[i].headers|
    ensures forall k :: k in PromotedKeys(reqs, i, e) <==>
      exists p :: 0 <= p < e && reqs[i].headers[p].0 == k && Promotes(reqs, i, k, reqs[i].headers[p].1)
  {
    if e > 0 {
      PromotedKeysMembers(reqs, i, e - 1);
    }
  }

  /**
   * `k` is in `record[i]` exactly when request `i` has header `k` whose value
   * passes the majority test over requests `i..`.
   */
  lemma RecordMembers(reqs: seq<Request>, i: nat, k: string)
    requires i < |reqs|
    ensures k in Record(reqs, i) <==>
      k in ToMap(reqs[i].headers) && Promotes(reqs, i, k, ToMap(reqs[i].headers)[k])
  {
    var h := reqs[i].headers;
    PromotedKeysMembers(reqs, i, |h|);
    if k in ToMap(h) {
      var p := Find(h, k);
      InMap(h, p);
    }
    if k in Record(reqs, i) {
      var p :| 0 <= p < |h| && h[p].0 == k && Promotes(reqs, i, k, h[p].1);
      InMap(h, p);
    }
  }

  /** The last request at or before `i` that records `k`, or -1. */
  function LastPromotion(reqs: seq<Request>, i: int, k: string): (r: int)
    requires -1 <= i < |reqs|
    ensures -1 <= r <= i
    ensures r >= 0 ==> k in Record(reqs, r) && k in ToMap(reqs[r].headers)
    ensures forall j :: r < j <= i ==> k !in Record(reqs, j)
    decreases i + 1
  {
    if i < 0 then -1
    else if k in Record(reqs, i) then
      RecordMembers(reqs, i, k);
      i
    else LastPromotion(reqs, i - 1, k)
  }

  /** The first request at or after `j` that records `k`, or `|reqs|`. */
  function FirstPromotionFrom(reqs: seq<Request>, j: nat, k: string): (r: nat)
    requires j <= |reqs|
    ensures j <= r <= |reqs|
    ensures r < |reqs| ==> k in Record(reqs, r)
    ensures forall j' :: j <= j' < r ==> k !in Record(reqs, j')
    decreases |reqs| - j
  {
    if j == |reqs| then j
    else if k in Record(reqs, j) then j
    else FirstPromotionFrom(reqs, j + 1, k)
  }

  function FirstPromotion(reqs: seq<Request>, k: string): nat
    requires |reqs| > 0
  {
    FirstPromotionFrom(reqs, 0, k)
  }

  /**
   * `count[k]` when the second pass looks at request `j`, for a key already
   * in the session: the second pass decrements it at each request from
   * `k`'s first promotion on that carries `k`, so it counts the carriers
   * before that promotion plus those from `j` on.
   */
  function SessionCount(reqs: seq<Request>, j: nat, k: string): nat
    requires 0 < |reqs| && j <= |reqs|
  {
    Occurrences(reqs, 0, FirstPromotion(reqs, k), k) + Occurrences(reqs, j, |reqs|, k)
  }

  /** Some request after `k`'s latest promotion, up to `i`, lacked `k` while `2 * count[k] < n - j`. */
  ghost predicate Tombstoned(reqs: seq<Request>, i: nat, k: string)
    requires i < |reqs|
  {
    exists j :: LastPromotion(reqs, i, k) < j <= i && k !in ToMap(reqs[j].headers)
      && 2 * SessionCount(reqs, j, k) < |reqs| - j
  }

  /**
   * `d` is the session snapshot after request `i`: the keys recorded at
   * some request up to `i`; each holds `None` once tombstoned after its
   * latest promotion, and the value it had there otherwise.
   */
  ghost predicate Snapshot(reqs: seq<Request>, i: nat, d: Dict<string, Option<string>>)
    requires i < |reqs|
  {
    && (forall k :: k in ToMap(d) <==> LastPromotion(reqs, i, k) >= 0)
    && forall k :: k in ToMap(d) ==>
         ToMap(d)[k] == if Tombstoned(reqs, i, k) then None
                        else Some(ToMap(reqs[LastPromotion(reqs, i, k)].headers)[k])
  }

  /** The entry `(k, v)` is among the first `e` entries of `d`. */
  lemma EntryIn(d: Dict<string, string>, k: string, v: string)
    ensures (k, v) in d <==> k in ToMap(d) && ToMap(d)[k] == v
  {
    if (k, v) in d {
      var p :| 0 <= p < |d| && d[p] == (k, v);
      InMap(d, p);
    }
    if k in ToMap(d) {
      var p := Find(d, k);
      InMap(d, p);
    }
  }

  /** Counting header `e` of request `i` into the key counter. */
  lemma BumpKey(reqs: seq<Request>, i: nat, e: nat, keys: map<string, int>, k: string, keys': map<string, int>)
    requires i < |reqs| && e < |reqs[i].headers| && k == reqs[i].headers[e].0
    requires forall k :: Get(keys, k) == Occurrences(reqs, i + 1, |reqs|, k) + (if k in Keys(reqs[i].headers)[..e] then 1 else 0)
    requires keys' == keys[k := Get(keys, k) + 1]
    ensures Get(keys', k) == Occurrences(reqs, i, |reqs|, k)
    ensures forall k' :: Get(keys', k') == Occurrences(reqs, i + 1, |reqs|, k') + (if k' in Keys(reqs[i].headers)[..e + 1] then 1 else 0)
  {
    var h := reqs[i].headers;
    InMap(h, e);
    assert k !in Keys(h)[..e];
    assert Keys(h)[..e + 1] == Keys(h)[..e] + [k];
  }

  /** Counting header `e` of request `i` into the pair counter. */
  lemma BumpPair(reqs: seq<Request>, i: nat, e: nat, pairs: map<(string, string), int>, kv: (string, string),
                 pairs': map<(string, string), int>)
    requires i < |reqs| && e < |reqs[i].headers| && kv == reqs[i].headers[e]
    requires forall k, v :: Get(pairs, (k, v)) == PairOccurrences(reqs, i + 1, |reqs|, k, v) + (if (k, v) in reqs[i].headers[..e] then 1 else 0)
    requires pairs' == pairs[kv := Get(pairs, kv) + 1]
    ensures Get(pairs', kv) == PairOccurrences(reqs, i, |reqs|, kv.0, kv.1)
    ensures forall k, v :: Get(pairs', (k, v)) == PairOccurrences(reqs, i + 1, |reqs|, k, v) + (if (k, v) in reqs[i].headers[..e + 1] then 1 else 0)
  {
    var h := reqs[i].headers;
    InMap(h, e);
    assert h[e] !in h[..e] by {
      forall p | 0 <= p < e ensures h[p] != h[e] {
        assert h[p].0 != h[e].0;
      }
    }
    assert h[..e + 1] == h[..e] + [h[e]];
  }

  /** The counters after the first `e` headers of request `i`, on top of requests `i + 1..`. */
  ghost predicate CountedUpTo(reqs: seq<Request>, i: nat, e: nat, keys: map<string, int>, pairs: map<(string, string), int>)
    requires i < |reqs| && e <= |reqs[i].headers|
  {
    && (forall k :: Get(keys, k) == Occurrences(reqs, i + 1, |reqs|, k) + (if k in Keys(reqs[i].headers)[..e] then 1 else 0))
    && (forall k, v :: Get(pairs, (k, v)) == PairOccurrences(reqs, i + 1, |reqs|, k, v) + (if (k, v) in reqs[i].headers[..e] then 1 else 0))
  }

  /** Counting header `e` of request `i` into both counters. */
  lemma Bump(reqs: seq<Request>, i: nat, e: nat, keys: map<string, int>, pairs: map<(string, string), int>,
             keys': map<string, int>, pairs': map<(string, string), int>)
    requires i < |reqs| && e < |reqs[i].headers|
    requires CountedUpTo(reqs, i, e, keys, pairs)
    requires keys' == keys[reqs[i].headers[e].0 := Get(keys, reqs[i].headers[e].0) + 1]
    requires pairs' == pairs[reqs[i].headers[e] := Get(pairs, reqs[i].headers[e]) + 1]
    ensures CountedUpTo(reqs, i, e + 1, keys', pairs')
    ensures Get(keys', reqs[i].headers[e].0) == Occurrences(reqs, i, |reqs|, reqs[i].headers[e].0)
    ensures Get(pairs', reqs[i].headers[e]) == PairOccurrences(reqs, i, |reqs|, reqs[i].headers[e].0, reqs[i].headers[e].1)
  {
    BumpKey(reqs, i, e, keys, reqs[i].headers[e].0, keys');
    BumpPair(reqs, i, e, pairs, reqs[i].headers[e], pairs');
  }

  /** The counters once every header of request `i` is counted. */
  lemma CountedRequest(reqs: seq<Request>, i: nat, keys: map<string, int>, pairs: map<(string, string), int>)
    requires i < |reqs|
    requires CountedUpTo(reqs, i, |reqs[i].headers|, keys, pairs)
    ensures forall k :: Get(keys, k) == Occurrences(reqs, i, |reqs|, k)
    ensures forall k, v :: Get(pairs, (k, v)) == PairOccurrences(reqs, i, |reqs|, k, v)
  {
    var h := reqs[i].headers;
    assert Keys(h)[..|h|] == Keys(h) && h[..|h|] == h;
    KeysInMap(h);
    forall k, v ensures (k, v) in h <==> k in ToMap(h) && ToMap(h)[k] == v {
      EntryIn(h, k, v);
    }
  }

  /** One step of the inner loop of the first pass: header `e` of request `i`. */
  method CountHeader(reqs: seq<Request>, i: nat, e: nat, row: seq<string>, keys: map<string, int>, pairs: map<(string, string), int>)
    returns (row': seq<string>, keys': map<string, int>, pairs': map<(string, string), int>)
    requires i < |reqs| && e < |reqs[i].headers|
    requires row == PromotedKeys(reqs, i, e)
    requires CountedUpTo(reqs, i, e, keys, pairs)
    ensures row' == PromotedKeys(reqs, i, e + 1)
    ensures CountedUpTo(reqs, i, e + 1, keys', pairs')
  {
    var (k, v) := reqs[i].headers[e];
    keys' := keys[k := Get(keys, k) + 1];
    pairs' := pairs[(k, v) := Get(pairs, (k, v)) + 1];
    Bump(reqs, i, e, keys, pairs, keys', pairs');
    row' := row;
    if pairs'[(k, v)] > 1 && 2 * pairs'[(k, v)] > keys'[k] {
      row' := row + [k];
    }
  }

  /**
   * The inner loop of the first pass over request `i`: bumps both counters
   * for each of its headers and appends the keys that pass the test.
   */
  method CountRequest(reqs: seq<Request>, i: nat, keys: map<string, int>, pairs: map<(string, string), int>)
    returns (row: seq<string>, keys': map<string, int>, pairs': map<(string, string), int>)
    requires i < |reqs|
    requires forall k :: Get(keys, k) == Occurrences(reqs, i + 1, |reqs|, k)
    requires forall k, v :: Get(pairs, (k, v)) == PairOccurrences(reqs, i + 1, |reqs|, k, v)
    ensures row == Record(reqs, i)
    ensures forall k :: Get(keys', k) == Occurrences(reqs, i, |reqs|, k)
    ensures forall k, v :: Get(pairs', (k, v)) == PairOccurrences(reqs, i, |reqs|, k, v)
  {
    var h := reqs[i].headers;
    row, keys', pairs' := [], keys, pairs;
    var e := 0;
    while e < |h|
      invariant 0 <= e <= |h|
      invariant row == PromotedKeys(reqs, i, e)
      invariant CountedUpTo(reqs, i, e, keys', pairs')
    {
      row, keys', pairs' := CountHeader(reqs, i, e, row, keys', pairs');
      e := e + 1;
    }
    CountedRequest(reqs, i, keys', pairs');
  }

  /** The first pass: `record` for every request, and the key counts it leaves behind. */
  method CountPass(reqs: seq<Request>) returns (record: seq<seq<string>>, keys: map<string, int>)
    ensures |record| == |reqs|
    ensures forall i :: 0 <= i < |reqs| ==> record[i] == Record(reqs, i)
    ensures forall k :: Get(keys, k) == Occurrences(reqs, 0, |reqs|, k)
  {
    record := seq(|reqs|, _ => []);
    keys := map[];
    var pairs: map<(string, string), int> := map[];
    var i := |reqs|;
    while i > 0
      invariant 0 <= i <= |reqs| && |record| == |reqs|
      invariant forall j :: i <= j < |reqs| ==> record[j] == Record(reqs, j)
      invariant forall k :: Get(keys, k) == Occurrences(reqs, i, |reqs|, k)
      invariant forall k, v :: Get(pairs, (k, v)) == PairOccurrences(reqs, i, |reqs|, k, v)
    {
      i := i - 1;
      var row;
      row, keys, pairs := CountRequest(reqs, i, keys, pairs);
      record := record[i := row];
    }
  }

  /** The session after the first `e` keys of `rec` are promoted from `d`. */
  ghost predicate PromotedUpTo(h: Dict<string, string>, rec: seq<string>, d: Dict<string, Option<string>>, e: nat,
                               cur: Dict<string, Option<string>>)
    requires e <= |rec|
  {
    && Keys(cur) + Fresh(Keys(cur), rec[e..]) == Keys(d) + Fresh(Keys(d), rec)
    && (forall k :: k in ToMap(cur) <==> k in ToMap(d) || k in rec[..e])
    && (forall k :: k in ToMap(cur) ==>
          ToMap(cur)[k] == if k !in rec[..e] then ToMap(d)[k] else if k in ToMap(h) then Some(ToMap(h)[k]) else None)
  }

  /** One assignment `headers[k] = r.headers[k]` of the promotion loop. */
  lemma PromoteStep(h: Dict<string, string>, rec: seq<string>, d: Dict<string, Option<string>>, e: nat,
                    cur: Dict<string, Option<string>>)
    requires e < |rec| && rec[e] in ToMap(h) && PromotedUpTo(h, rec, d, e, cur)
    ensures PromotedUpTo(h, rec, d, e + 1, Set(cur, rec[e], Some(ToMap(h)[rec[e]])))
  {
    assert rec[..e + 1] == rec[..e] + [rec[e]];
    PromoteKeys(cur, rec, e, Some(ToMap(h)[rec[e]]));
  }

  /** The key order part of one promotion step: `k` is appended when new, and the rest is still to come. */
  lemma PromoteKeys(cur: Dict<string, Option<string>>, rec: seq<string>, e: nat, v: Option<string>)
    requires e < |rec|
    ensures var next := Set(cur, rec[e], v);
      Keys(next) + Fresh(Keys(next), rec[e + 1..]) == Keys(cur) + Fresh(Keys(cur), rec[e..])
  {
    KeysInMap(cur);
    assert rec[e..][0] == rec[e] && rec[e..][1..] == rec[e + 1..];
    FreshStep(Keys(cur), rec[e..]);
  }

  /** `for k in rec: headers[k] = r.headers[k]`: the recorded keys enter the session with the request's values. */
  method Promote(h: Dict<string, string>, rec: seq<string>, d: Dict<string, Option<string>>)
    returns (d': Dict<string, Option<string>>)
    requires forall e :: 0 <= e < |rec| ==> rec[e] in ToMap(h)
    ensures Keys(d) <= Keys(d')
    ensures Keys(d') == Keys(d) + Fresh(Keys(d), rec)
    ensures forall k :: k in ToMap(d') <==> k in ToMap(d) || k in rec
    ensures forall k :: k in ToMap(d') ==> ToMap(d')[k] == if k in rec then Some(ToMap(h)[k]) else ToMap(d)[k]
  {
    d' := d;
    var e := 0;
    assert rec[e..] == rec && rec[..e] == [];
    while e < |rec|
      invariant 0 <= e <= |rec|
      invariant PromotedUpTo(h, rec, d, e, d')
    {
      PromoteStep(h, rec, d, e, d');
      d' := Set(d', rec[e], Some(ToMap(h)[rec[e]]));
      e := e + 1;
    }
    assert rec[e..] == [] && rec[..e] == rec;
    assert Fresh(Keys(d'), rec[e..]) == [];
    assert Keys(d') == Keys(d) + Fresh(Keys(d), rec);
    assert Keys(d')[..|Keys(d)|] == Keys(d);
  }

  /**
   * The session after the first `e` keys of `d` are visited by the decay
   * loop of one request (`h` its headers, `remaining` the `n - i` of the
   * source), starting from the counter `count`.
   */
  ghost predicate DecayedValues(h: Dict<string, string>, remaining: nat, d: Dict<string, Option<string>>, count: map<string, int>,
                                e: nat, cur: Dict<string, Option<string>>)
  {
    && |cur| == |d|
    && (forall p :: 0 <= p < |d| ==> cur[p].0 == d[p].0)
    && (forall p :: 0 <= p < |d| ==>
          cur[p].1 == if p < e && d[p].0 !in ToMap(h) && 2 * Get(count, d[p].0) < remaining then None else d[p].1)
  }

  /** The counter after the first `e` keys of `d` are visited by the decay loop. */
  ghost predicate DecayedCounts(h: Dict<string, string>, d: Dict<string, Option<string>>, count: map<string, int>,
                                e: nat, cnt: map<string, int>)
    requires e <= |d|
  {
    forall k :: Get(cnt, k) == if k in Keys(d)[..e] && k in ToMap(h) then Get(count, k) - 1 else Get(count, k)
  }

  lemma DecayValuesStep(h: Dict<string, string>, remaining: nat, d: Dict<string, Option<string>>, count: map<string, int>,
                        e: nat, cur: Dict<string, Option<string>>, cur': Dict<string, Option<string>>)
    requires e < |d| && DecayedValues(h, remaining, d, count, e, cur)
    requires cur' == if d[e].0 !in ToMap(h) && 2 * Get(count, d[e].0) < remaining then cur[e := (d[e].0, None)] else cur
    ensures DecayedValues(h, remaining, d, count, e + 1, cur')
  {
  }

  lemma DecayCountsStep(h: Dict<string, string>, d: Dict<string, Option<string>>, count: map<string, int>,
                        e: nat, cnt: map<string, int>, cnt': map<string, int>)
    requires e < |d| && DecayedCounts(h, d, count, e, cnt)
    requires cnt' == if d[e].0 in ToMap(h) then cnt[d[e].0 := Get(cnt, d[e].0) - 1] else cnt
    ensures Get(cnt, d[e].0) == Get(count, d[e].0)
    ensures DecayedCounts(h, d, count, e + 1, cnt')
  {
    KeysNoDup(d);
    assert d[e].0 == Keys(d)[e];
    assert d[e].0 !in Keys(d)[..e];
    assert Keys(d)[..e + 1] == Keys(d)[..e] + [d[e].0];
  }

  /** Overwriting the value of the entry at `e` by key. */
  lemma SetAt<V>(d: Dict<string, V>, e: nat, v: V)
    requires e < |d|
    ensures Set(d, d[e].0, v) == d[e := (d[e].0, v)]
  {
    var i := Find(d, d[e].0);
    assert i == e;
  }

  /** One step of the decay loop: session key `e`. */
  method DecayKey(h: Dict<string, string>, remaining: nat, d: Dict<string, Option<string>>, count: map<string, int>,
                  e: nat, cur: Dict<string, Option<string>>, cnt: map<string, int>)
    returns (cur': Dict<string, Option<string>>, cnt': map<string, int>)
    requires e < |d| && DecayedValues(h, remaining, d, count, e, cur) && DecayedCounts(h, d, count, e, cnt)
    ensures DecayedValues(h, remaining, d, count, e + 1, cur') && DecayedCounts(h, d, count, e + 1, cnt')
  {
    var k := cur[e].0;
    assert k == d[e].0;
    cur', cnt' := cur, cnt;
    if k in ToMap(h) {
      cnt' := cnt[k := Get(cnt, k) - 1];
    } else if 2 * Get(cnt, k) < remaining {
      SetAt(cur, e, None);
      cur' := Set(cur, k, None);
    }
    DecayCountsStep(h, d, count, e, cnt, cnt');
    DecayValuesStep(h, remaining, d, count, e, cur, cur');
  }

  /** The decay loop's result read as a dict: same keys, values per key. */
  lemma DecayedAll(h: Dict<string, string>, remaining: nat, d: Dict<string, Option<string>>, count: map<string, int>,
                   cur: Dict<string, Option<string>>, cnt: map<string, int>)
    requires DecayedValues(h, remaining, d, count, |d|, cur) && DecayedCounts(h, d, count, |d|, cnt)
    ensures Keys(cur) == Keys(d)
    ensures forall k :: k in ToMap(cur) <==> k in ToMap(d)
    ensures forall k :: k in ToMap(cur) ==>
      ToMap(cur)[k] == if k !in ToMap(h) && 2 * Get(count, k) < remaining then None else ToMap(d)[k]
    ensures forall k :: Get(cnt, k) == if k in ToMap(d) && k in ToMap(h) then Get(count, k) - 1 else Get(count, k)
  {
    DecayedKeys(h, remaining, d, count, cur);
    DecayedLookup(h, remaining, d, count, cur);
    assert Keys(d)[..|d|] == Keys(d);
    KeysInMap(d);
  }

  /** The decay loop keeps the keys and their order. */
  lemma DecayedKeys(h: Dict<string, string>, remaining: nat, d: Dict<string, Option<string>>, count: map<string, int>,
                    cur: Dict<string, Option<string>>)
    requires DecayedValues(h, remaining, d, count, |d|, cur)
    ensures Keys(cur) == Keys(d)
    ensures forall k :: k in ToMap(cur) <==> k in ToMap(d)
  {
    assert Keys(cur) == Keys(d);
    KeysInMap(d);
    KeysInMap(cur);
  }

  /** After the decay loop, a key's value is `None` exactly when it decayed, and unchanged otherwise. */
  lemma DecayedLookup(h: Dict<string, string>, remaining: nat, d: Dict<string, Option<string>>, count: map<string, int>,
                      cur: Dict<string, Option<string>>)
    requires DecayedValues(h, remaining, d, count, |d|, cur)
    ensures forall k :: k in ToMap(cur) ==>
      k in ToMap(d) && ToMap(cur)[k] == if k !in ToMap(h) && 2 * Get(count, k) < remaining then None else ToMap(d)[k]
  {
    forall k | k in ToMap(cur) ensures
      k in ToMap(d) && ToMap(cur)[k] == if k !in ToMap(h) && 2 * Get(count, k) < remaining then None else ToMap(d)[k]
    {
      var p := Find(cur, k);
      InMap(cur, p);
      InMap(d, p);
    }
  }

  /**
   * `for k in headers: if k in r.headers: count[k] -= 1 elif count[k] / (n - i) < 0.5: headers[k] = None`,
   * the ratio cross-multiplied (`remaining` is `n - i`, never 0).
   */
  method Decay(h: Dict<string, string>, remaining: nat, d: Dict<string, Option<string>>, count: map<string, int>)
    returns (d': Dict<string, Option<string>>, count': map<string, int>)
    requires remaining > 0
    ensures Keys(d') == Keys(d)
    ensures forall k :: k in ToMap(d') <==> k in ToMap(d)
    ensures forall k :: k in ToMap(d') ==>
      ToMap(d')[k] == if k !in ToMap(h) && 2 * Get(count, k) < remaining then None else ToMap(d)[k]
    ensures forall k :: Get(count', k) == if k in ToMap(d) && k in ToMap(h) then Get(count, k) - 1 else Get(count, k)
  {
    d', count' := d, count;
    var e := 0;
    while e < |d|
      invariant 0 <= e <= |d|
      invariant DecayedValues(h, remaining, d, count, e, d') && DecayedCounts(h, d, count, e, count')
    {
      d', count' := DecayKey(h, remaining, d, count, e, d', count');
      e := e + 1;
    }
    DecayedAll(h, remaining, d, count, d', count');
  }

  /** `count[k]` as the second pass finds it when it reaches request `i`. */
  function CountBefore(reqs: seq<Request>, i: nat, k: string): int
    requires 0 < |reqs| && i <= |reqs|
  {
    if FirstPromotion(reqs, k) < i then SessionCount(reqs, i, k) else Occurrences(reqs, 0, |reqs|, k)
  }

  /** The session as the second pass finds it at request `i`: empty at first, the previous snapshot after. */
  ghost predicate SessionBefore(reqs: seq<Request>, i: nat, d: Dict<string, Option<string>>)
    requires i < |reqs|
  {
    if i == 0 then d == [] else Snapshot(reqs, i - 1, d)
  }

  /** A key has been recorded by request `i` exactly when its first promotion is at or before `i`. */
  lemma PromotedBy(reqs: seq<Request>, i: nat, k: string)
    requires i < |reqs|
    ensures LastPromotion(reqs, i, k) >= 0 <==> FirstPromotion(reqs, k) <= i
    ensures LastPromotion(reqs, i, k) >= 0 ==> FirstPromotion(reqs, k) <= LastPromotion(reqs, i, k)
  {
    var f := FirstPromotion(reqs, k);
    if f <= i {
      assert k in Record(reqs, f);
    }
  }

  /** No request after the latest promotion can have tombstoned a key promoted at `i`. */
  lemma NotTombstonedAtPromotion(reqs: seq<Request>, i: nat, k: string)
    requires i < |reqs| && k in Record(reqs, i)
    ensures !Tombstoned(reqs, i, k)
  {
  }

  /** A key already in the session and not recorded again is tombstoned by `i` iff by `i - 1` or at `i`. */
  lemma TombstonedStep(reqs: seq<Request>, i: nat, k: string)
    requires 0 < i < |reqs| && k !in Record(reqs, i) && LastPromotion(reqs, i - 1, k) >= 0
    ensures Tombstoned(reqs, i, k) <==>
      (k !in ToMap(reqs[i].headers) && 2 * SessionCount(reqs, i, k) < |reqs| - i) || Tombstoned(reqs, i - 1, k)
  {
    var lp := LastPromotion(reqs, i, k);
    assert lp == LastPromotion(reqs, i - 1, k);
    if Tombstoned(reqs, i, k) {
      var j :| lp < j <= i && k !in ToMap(reqs[j].headers) && 2 * SessionCount(reqs, j, k) < |reqs| - j;
      if j < i {
        assert Tombstoned(reqs, i - 1, k);
      }
    }
  }

  /** How the second pass changes `count[k]` at request `i`. */
  lemma CountStep(reqs: seq<Request>, i: nat, k: string)
    requires i < |reqs|
    ensures CountBefore(reqs, i + 1, k) ==
      if FirstPromotion(reqs, k) <= i && k in ToMap(reqs[i].headers) then CountBefore(reqs, i, k) - 1
      else CountBefore(reqs, i, k)
  {
    var f := FirstPromotion(reqs, k);
    if f == i {
      OccurrencesSplit(reqs, 0, i, |reqs|, k);
      RecordMembers(reqs, i, k);
    }
  }

  /** The value one key ends up with after request `i` of the second pass. */
  lemma ValueStep(reqs: seq<Request>, i: nat, k: string, wasIn: bool, before: Option<string>, c0: int, after: Option<string>)
    requires i < |reqs|
    requires wasIn <==> i > 0 && LastPromotion(reqs, i - 1, k) >= 0
    requires wasIn ==> before == if Tombstoned(reqs, i - 1, k) then None
                                 else Some(ToMap(reqs[LastPromotion(reqs, i - 1, k)].headers)[k])
    requires c0 == CountBefore(reqs, i, k)
    requires wasIn || k in Record(reqs, i)
    requires k in Record(reqs, i) ==> k in ToMap(reqs[i].headers)
    requires after == if k !in ToMap(reqs[i].headers) && 2 * c0 < |reqs| - i then None
                      else if k in Record(reqs, i) then Some(ToMap(reqs[i].headers)[k]) else before
    ensures after == if Tombstoned(reqs, i, k) then None else Some(ToMap(reqs[LastPromotion(reqs, i, k)].headers)[k])
  {
    if k in Record(reqs, i) {
      NotTombstonedAtPromotion(reqs, i, k);
    } else {
      PromotedBy(reqs, i - 1, k);
      TombstonedStep(reqs, i, k);
    }
  }

  /** One request of the second pass, promotion then decay, takes the session to the snapshot after it. */
  lemma SessionStep(reqs: seq<Request>, i: nat, d0: Dict<string, Option<string>>, count0: map<string, int>,
                    d1: Dict<string, Option<string>>, d2: Dict<string, Option<string>>, count2: map<string, int>)
    requires i < |reqs|
    requires forall k :: k in ToMap(d1) <==> k in ToMap(d0) || k in Record(reqs, i)
    requires forall k :: k in ToMap(d1) ==>
      ToMap(d1)[k] == if k in Record(reqs, i) then Some(ToMap(reqs[i].headers)[k]) else ToMap(d0)[k]
    requires forall k :: k in ToMap(d2) <==> k in ToMap(d1)
    requires forall k :: k in ToMap(d2) ==>
      ToMap(d2)[k] == if k !in ToMap(reqs[i].headers) && 2 * Get(count0, k) < |reqs| - i then None else ToMap(d1)[k]
    requires forall k :: Get(count2, k) == if k in ToMap(d1) && k in ToMap(reqs[i].headers) then Get(count0, k) - 1 else Get(count0, k)
    requires SessionBefore(reqs, i, d0)
    requires forall k :: Get(count0, k) == CountBefore(reqs, i, k)
    ensures Snapshot(reqs, i, d2)
    ensures forall k :: Get(count2, k) == CountBefore(reqs, i + 1, k)
  {
    if i == 0 {
      assert ToMap(d0) == map[];
    }
    forall k ensures k in ToMap(d1) <==> LastPromotion(reqs, i, k) >= 0 {
    }
    forall k ensures Get(count2, k) == CountBefore(reqs, i + 1, k) {
      CountStep(reqs, i, k);
      PromotedBy(reqs, i, k);
    }
    forall k | k in ToMap(d2) ensures
      ToMap(d2)[k] == if Tombstoned(reqs, i, k) then None else Some(ToMap(reqs[LastPromotion(reqs, i, k)].headers)[k])
    {
      RecordMembers(reqs, i, k);
      ValueStep(reqs, i, k, k in ToMap(d0), if k in ToMap(d0) then ToMap(d0)[k] else None, Get(count0, k), ToMap(d2)[k]);
    }
  }

  /** One iteration of the second pass: request `i` with its `record[i]`. */
  method SessionRequest(reqs: seq<Request>, i: nat, rec: seq<string>, headers: Dict<string, Option<string>>,
                        count: map<string, int>)
    returns (headers': Dict<string, Option<string>>, count': map<string, int>)
    requires i < |reqs| && rec == Record(reqs, i) && SessionBefore(reqs, i, headers)
    requires forall k :: Get(count, k) == CountBefore(reqs, i, k)
    ensures Snapshot(reqs, i, headers') && Keys(headers) <= Keys(headers')
    ensures forall k :: Get(count', k) == CountBefore(reqs, i + 1, k)
  {
    var promoted := Promote(reqs[i].headers, rec, headers);
    headers', count' := Decay(reqs[i].headers, |reqs| - i, promoted, count);
    SessionStep(reqs, i, headers, count, promoted, headers', count');
  }

  /** `ans` holds the snapshots of the first `|ans|` requests, each extending the previous one's keys. */
  ghost predicate SnapshotsSoFar(reqs: seq<Request>, ans: seq<Dict<string, Option<string>>>) {
    && |ans| <= |reqs|
    && (forall j :: 0 <= j < |ans| ==> Snapshot(reqs, j, ans[j]))
    && (forall j :: 0 < j < |ans| ==> Keys(ans[j - 1]) <= Keys(ans[j]))
  }

  /** Appending the next request's snapshot. */
  lemma SnapshotsSnoc(reqs: seq<Request>, ans: seq<Dict<string, Option<string>>>, d: Dict<string, Option<string>>)
    requires SnapshotsSoFar(reqs, ans) && |ans| < |reqs| && Snapshot(reqs, |ans|, d)
    requires |ans| > 0 ==> Keys(ans[|ans| - 1]) <= Keys(d)
    ensures SnapshotsSoFar(reqs, ans + [d])
  {
    var ans' := ans + [d];
    assert ans'[|ans|] == d;
    assert forall j :: 0 <= j < |ans| ==> ans'[j] == ans[j];
  }

  /**
   * infer_session_headers: one snapshot per request, each the session after
   * that request; a snapshot's keys extend the previous one's, in order.
   */
  method SessionHeaders(reqs: seq<Request>) returns (ans: seq<Dict<string, Option<string>>>)
    ensures |ans| == |reqs|
    ensures forall i :: 0 <= i < |reqs| ==> Snapshot(reqs, i, ans[i])
    ensures forall i :: 0 < i < |reqs| ==> Keys(ans[i - 1]) <= Keys(ans[i])
  {
    var record, count := CountPass(reqs);
    var headers: Dict<string, Option<string>> := [];
    ans := [];
    var i := 0;
    while i < |reqs|
      invariant 0 <= i <= |reqs| && |ans| == i
      invariant SnapshotsSoFar(reqs, ans)
      invariant i > 0 ==> ans[i - 1] == headers
      invariant i == 0 ==> headers == []
      invariant i < |reqs| ==> forall k :: Get(count, k) == CountBefore(reqs, i, k)
      invariant i < |reqs| ==> SessionBefore(reqs, i, headers)
    {
      var headers', count' := SessionRequest(reqs, i, record[i], headers, count);
      SnapshotsSnoc(reqs, ans, headers');
      ans := ans + [headers'];
      headers, count := headers', count';
      i := i + 1;
    }
  }

  /** A key recorded at request `i` holds that request's value in snapshot `i`. */
  lemma SnapshotPromoted(reqs: seq<Request>, i: nat, d: Dict<string, Option<string>>, k: string)
    requires i < |reqs| && Snapshot(reqs, i, d) && k in Record(reqs, i)
    ensures k in ToMap(d) && ToMap(d)[k] == Some(ToMap(reqs[i].headers)[k])
  {
    NotTombstonedAtPromotion(reqs, i, k);
  }

  /** The key sets of consecutive snapshots never shrink. */
  lemma SnapshotKeysGrow(reqs: seq<Request>, i: nat, d: Dict<string, Option<string>>, d': Dict<string, Option<string>>)
    requires i + 1 < |reqs| && Snapshot(reqs, i, d) && Snapshot(reqs, i + 1, d')
    ensures forall k :: k in ToMap(d) ==> k in ToMap(d')
  {
  }

  /**
   * A key becomes `None` at request `i` (rather than being `None` already)
   * only if request `i` lacks it and `2 * count[k] < n - i` there.
   */
  lemma TombstoneCause(reqs: seq<Request>, i: nat, d: Dict<string, Option<string>>, k: string)
    requires i < |reqs| && Snapshot(reqs, i, d)
    requires k in ToMap(d) && ToMap(d)[k] == None
    requires i > 0 ==> !Tombstoned(reqs, i - 1, k)
    ensures k !in ToMap(reqs[i].headers) && 2 * SessionCount(reqs, i, k) < |reqs| - i
  {
    var lp := LastPromotion(reqs, i, k);
    var j :| lp < j <= i && k !in ToMap(reqs[j].headers) && 2 * SessionCount(reqs, j, k) < |reqs| - j;
    assert k !in Record(reqs, i);
    if i > 0 {
      TombstonedStep(reqs, i, k);
    }
  }
}
