/**
 * infer_headers_origin: for every header value sent by a request, look for it
 * in the texts of the latest eligible responses before it, and bind a fresh
 * variable at each response that matches.
 *
 * The state of the source's loop is a FIFO of the last `ResponseLookup`
 * eligible responses, the set of values already searched, the map from a
 * value to its latest variable, and the set of variable names in use.
 */
module HeaderOrigin {
  import opened Seqs
  import opened PyDict
  import opened Request
  import opened StringAlg
  import opened Matching

  /** The decimal digit `d`. */
  function DigitChar(d: nat): char
    requires d < 10
  {
    "0123456789"[d]
  }

  /** `str(n)`: decimal, without leading zeros. */
  function NatToString(n: nat): (s: string)
    ensures |s| >= 1
    ensures n >= 10 ==> |s| >= 2
    decreases n
  {
    if n < 10 then [DigitChar(n)] else NatToString(n / 10) + [DigitChar(n % 10)]
  }

  /** Distinct numbers print differently. */
  lemma {:induction false} NatToStringInjective(a: nat, b: nat)
    requires NatToString(a) == NatToString(b)
    ensures a == b
    decreases a
  {
    var s := NatToString(a);
    if a >= 10 && b >= 10 {
      assert s[..|s| - 1] == NatToString(a / 10) && s[..|s| - 1] == NatToString(b / 10);
      NatToStringInjective(a / 10, b / 10);
      assert DigitChar(a % 10) == s[|s| - 1] == DigitChar(b % 10);
    }
  }

  /** `f"{base}_{i}"`. */
  function Candidate(base: string, i: nat): string {
    base + "_" + NatToString(i)
  }

  lemma CandidateInjective(base: string, i: nat, j: nat)
    requires Candidate(base, i) == Candidate(base, j)
    ensures i == j
  {
    var n := |base| + 1;
    assert Candidate(base, i)[n..] == NatToString(i);
    assert Candidate(base, j)[n..] == NatToString(j);
    NatToStringInjective(i, j);
  }

  /** The names in `names` of the form `f"{base}_{j}"` with `j >= i`: what the search loop may still skip. */
  ghost function Later(names: set<string>, base: string, i: nat): set<string> {
    set x | x in names && exists j: nat :: j >= i && x == Candidate(base, j)
  }

  lemma LaterShrinks(names: set<string>, base: string, i: nat)
    requires Candidate(base, i) in names
    ensures |Later(names, base, i + 1)| < |Later(names, base, i)|
  {
    var now, next := Later(names, base, i), Later(names, base, i + 1);
    forall x | x in next ensures x in now && x != Candidate(base, i) {
      var j: nat :| j >= i + 1 && x == Candidate(base, j);
      if x == Candidate(base, i) {
        CandidateInjective(base, i, j);
      }
    }
    assert Candidate(base, i) in now by {
      assert Candidate(base, i) == Candidate(base, i);
    }
    SubsetSmaller(next, now, Candidate(base, i));
  }

  lemma {:induction false} SubsetSmaller<T>(a: set<T>, b: set<T>, x: T)
    requires a <= b && x in b && x !in a
    ensures |a| < |b|
    decreases |a|
  {
    if a != {} {
      var y :| y in a;
      SubsetSmaller(a - {y}, b - {y}, x);
    }
  }

  /**
   * new_variable_name: `f"{base}_{i}"` for the least `i >= 1` not yet in
   * use, which it also marks as used.
   */
  method NewVariableName(base: string, names: set<string>) returns (name: string, names': set<string>)
    ensures exists i: nat :: i >= 1 && name == Candidate(base, i) && forall j: nat :: 1 <= j < i ==> Candidate(base, j) in names
    ensures name !in names && names' == names + {name}
  {
    var i: nat := 1;
    while Candidate(base, i) in names
      invariant i >= 1 && forall j: nat :: 1 <= j < i ==> Candidate(base, j) in names
      decreases |Later(names, base, i)|
    {
      LaterShrinks(names, base, i);
      i := i + 1;
    }
    name := Candidate(base, i);
    names' := names + {name};
  }

  /** A response is kept for searching when `SIZE_THRESHOLD <= len(text) <= MAX_SIZE`. */
  predicate Eligible(reqs: seq<Request>, r: nat)
    requires r < |reqs|
  {
    SizeThreshold <= |reqs[r].responseText| <= MaxSize
  }

  /** The eligible requests before `q`, in order. */
  function Eligibles(reqs: seq<Request>, q: nat): (l: seq<nat>)
    requires q <= |reqs|
    ensures forall p :: 0 <= p < |l| ==> l[p] < q && Eligible(reqs, l[p])
    ensures forall p, p' :: 0 <= p < p' < |l| ==> l[p] < l[p']
  {
    if q == 0 then [] else Eligibles(reqs, q - 1) + if Eligible(reqs, q - 1) then [q - 1] else []
  }

  /** The last `ResponseLookup` of a list. */
  function LastFew(l: seq<nat>): seq<nat> {
    if |l| <= ResponseLookup then l else l[|l| - ResponseLookup..]
  }

  /** `responses_db` when request `q` is processed: the latest eligible requests before it, at most five. */
  function Window(reqs: seq<Request>, q: nat): (w: seq<nat>)
    requires q <= |reqs|
    ensures |w| <= ResponseLookup
    ensures forall p :: 0 <= p < |w| ==> w[p] < q && Eligible(reqs, w[p])
    ensures forall p, p' :: 0 <= p < p' < |w| ==> w[p] < w[p']
  {
    LastFew(Eligibles(reqs, q))
  }

  /** `deque.append` on a deque with `maxlen=ResponseLookup`. */
  function Push<T>(db: seq<T>, x: T): (r: seq<T>)
    ensures |r| == if |db| + 1 > ResponseLookup then ResponseLookup else |db| + 1
  {
    if |db| + 1 > ResponseLookup then (db + [x])[|db| + 1 - ResponseLookup..] else db + [x]
  }

  /** The window moves on by one request: an eligible response is pushed, evicting the oldest past five. */
  lemma WindowStep(reqs: seq<Request>, q: nat)
    requires q < |reqs|
    ensures Window(reqs, q + 1) == if Eligible(reqs, q) then Push(Window(reqs, q), q) else Window(reqs, q)
  {
    var l := Eligibles(reqs, q);
    if Eligible(reqs, q) {
      assert Eligibles(reqs, q + 1) == l + [q];
      LastFewSnoc(l, q);
    }
  }

  /** Keeping the last few of a longer list is pushing onto the last few of the shorter one. */
  lemma LastFewSnoc(l: seq<nat>, x: nat)
    ensures LastFew(l + [x]) == Push(LastFew(l), x)
  {
    if |l| >= ResponseLookup {
      var w := l[|l| - ResponseLookup..];
      assert (w + [x])[1..] == l[|l| + 1 - ResponseLookup..] + [x];
      assert (l + [x])[|l| + 1 - ResponseLookup..] == l[|l| + 1 - ResponseLookup..] + [x];
    }
  }

  /** Header `e` of request `q` exists. */
  predicate IsHeader(reqs: seq<Request>, q: nat, e: nat) {
    q < |reqs| && e < |reqs[q].headers|
  }

  /** Header position `(q', e')` is visited before `(q, e)`: requests in order, headers in dict order. */
  predicate Before(q': nat, e': nat, q: nat, e: nat) {
    q' < q || (q' == q && e' < e)
  }

  /** `v in tried_headers` at position `(q, e)`: some earlier header outside `base` has value `v`. */
  ghost predicate TriedBefore(reqs: seq<Request>, base: set<string>, q: nat, e: nat, v: string) {
    exists q': nat, e': nat :: IsHeader(reqs, q', e') && Before(q', e', q, e)
      && reqs[q'].headers[e'].0 !in base && reqs[q'].headers[e'].1 == v
  }

  /** The value of header `(q, e)` is searched: its key is not a base header and its value was not tried. */
  ghost predicate Searched(reqs: seq<Request>, base: set<string>, q: nat, e: nat)
    requires IsHeader(reqs, q, e)
  {
    reqs[q].headers[e].0 !in base && !TriedBefore(reqs, base, q, e, reqs[q].headers[e].1)
  }

  /** What a positive `match(v, t)` guarantees: the size guards hold, and for NUL-free strings the match itself. */
  ghost predicate Accepted(v: string, t: string) {
    |v| >= SizeThreshold && 2 * |t| >= |v| && (NulFree(v) && NulFree(t) ==> Match(v, t))
  }

  /** A match the model can decide: both strings NUL-free and `match` true. */
  ghost predicate Wanted(v: string, t: string) {
    NulFree(v) && NulFree(t) && Match(v, t)
  }

  /**
   * Binding `b` (name, value) at response `r` comes from the search of
   * header `(q, e)`: `r` was in the window then, the value matched its text,
   * and the name is `f"{key}_{j}"`.
   */
  ghost predicate Binds(reqs: seq<Request>, base: set<string>, r: nat, b: (string, string), q: nat, e: nat, j: nat) {
    && IsHeader(reqs, q, e) && Searched(reqs, base, q, e)
    && r < q && r in Window(reqs, q)
    && b.1 == reqs[q].headers[e].1
    && Accepted(b.1, reqs[r].responseText)
    && j >= 1 && b.0 == Candidate(reqs[q].headers[e].0, j)
  }

  /** Binding `b` at response `r` was made by the search of some header. */
  ghost predicate Explained(reqs: seq<Request>, base: set<string>, r: nat, b: (string, string)) {
    exists q: nat, e: nat, j: nat :: Binds(reqs, base, r, b, q, e, j)
  }

  /** The loop state of the source that outlives one header. */
  datatype Scan = Scan(
    bindings: seq<seq<(string, string)>>,
    headerToVariable: map<string, string>,
    names: set<string>,
    db: seq<(nat, string)>,
    tried: set<string>)

  /**
   * Bookkeeping for the proof only: for each binding, the header search
   * `(q, e)` and name index `j` that made it; for each name, the binding
   * holding it; for each search and window response that matched, the
   * binding it made there.
   */
  datatype Trace = Trace(
    origin: seq<seq<(nat, nat, nat)>>,
    owner: map<string, (nat, nat)>,
    found: map<(nat, nat, nat), nat>)

  ghost predicate Shaped(reqs: seq<Request>, s: Scan, t: Trace) {
    && |s.bindings| == |reqs| && |t.origin| == |reqs|
    && forall r :: 0 <= r < |reqs| ==> |t.origin[r]| == |s.bindings[r]|
  }

  /** Every binding so far was made by a search before `(q, e)`. */
  ghost predicate Sound(reqs: seq<Request>, base: set<string>, q: nat, e: nat, s: Scan, t: Trace)
    requires Shaped(reqs, s, t)
  {
    forall r, p :: 0 <= r < |reqs| && 0 <= p < |s.bindings[r]| ==>
      var o := t.origin[r][p];
      Before(o.0, o.1, q, e) && Binds(reqs, base, r, s.bindings[r][p], o.0, o.1, o.2)
  }

  /** Each name is held by exactly one binding, and every held name is in use. */
  ghost predicate Owned(s: Scan, t: Trace) {
    && (forall r, p :: 0 <= r < |s.bindings| && 0 <= p < |s.bindings[r]| ==>
          s.bindings[r][p].0 in t.owner && t.owner[s.bindings[r][p].0] == (r, p))
    && t.owner.Keys <= s.names
  }

  /** No response binds the same value twice. */
  ghost predicate Unique(s: Scan) {
    forall r, p, p' :: 0 <= r < |s.bindings| && 0 <= p < p' < |s.bindings[r]| ==> s.bindings[r][p].1 != s.bindings[r][p'].1
  }

  /** Binding `found[(q, e, r)]` of response `r` holds value `v`. */
  ghost predicate Found(s: Scan, t: Trace, q: nat, e: nat, r: nat, v: string) {
    (q, e, r) in t.found && r < |s.bindings| && t.found[(q, e, r)] < |s.bindings[r]|
      && s.bindings[r][t.found[(q, e, r)]].1 == v
  }

  /** Every search before `(q, e)` bound its value at every window response it matched. */
  ghost predicate Complete(reqs: seq<Request>, base: set<string>, q: nat, e: nat, s: Scan, t: Trace) {
    forall q': nat, e': nat, r: nat ::
      (&& IsHeader(reqs, q', e') && Before(q', e', q, e) && Searched(reqs, base, q', e')
       && r in Window(reqs, q') && r < |reqs| && Wanted(reqs[q'].headers[e'].1, reqs[r].responseText))
      ==> Found(s, t, q', e', r, reqs[q'].headers[e'].1)
  }

  /** `responses_db` holds the window of request `q` with its texts. */
  ghost predicate DbIs(reqs: seq<Request>, q: nat, db: seq<(nat, string)>)
    requires q <= |reqs|
  {
    && |db| == |Window(reqs, q)|
    && forall p :: 0 <= p < |db| ==> db[p].0 == Window(reqs, q)[p] && db[p].1 == reqs[db[p].0].responseText
  }

  /** The loop state at header position `(q, e)`. */
  ghost predicate ScanInv(reqs: seq<Request>, base: set<string>, q: nat, e: nat, s: Scan, t: Trace)
    requires q <= |reqs|
  {
    && Shaped(reqs, s, t) && Sound(reqs, base, q, e, s, t) && Owned(s, t) && Unique(s)
    && Complete(reqs, base, q, e, s, t)
    && DbIs(reqs, q, s.db)
    && (forall v :: v in s.tried <==> TriedBefore(reqs, base, q, e, v))
    && s.headerToVariable.Keys <= s.tried
  }

  /** The search of header `(q, e)` has bound its value at every matching response among the first `p` of the window. */
  ghost predicate FoundHere(reqs: seq<Request>, q: nat, e: nat, p: nat, s: Scan, t: Trace)
    requires IsHeader(reqs, q, e) && p <= |Window(reqs, q)|
  {
    var w, v := Window(reqs, q), reqs[q].headers[e].1;
    forall p' :: 0 <= p' < p && Wanted(v, reqs[w[p']].responseText) ==> Found(s, t, q, e, w[p'], v)
  }

  /** Only the first `p` responses of the window can hold a binding of the value of header `(q, e)`. */
  ghost predicate OnlyIn(reqs: seq<Request>, q: nat, e: nat, p: nat, s: Scan)
    requires IsHeader(reqs, q, e) && p <= |Window(reqs, q)|
  {
    var w, v := Window(reqs, q), reqs[q].headers[e].1;
    forall r, p' :: 0 <= r < |s.bindings| && 0 <= p' < |s.bindings[r]| && s.bindings[r][p'].1 == v ==> r in w[..p]
  }

  /** `variables_to_bind[id].append((name, v))`. */
  function AddBinding(b: seq<seq<(string, string)>>, id: nat, name: string, v: string): seq<seq<(string, string)>>
    requires id < |b|
  {
    b[id := b[id] + [(name, v)]]
  }

  lemma SoundBind(reqs: seq<Request>, base: set<string>, q: nat, e: nat, s: Scan, t: Trace,
                  id: nat, name: string, j: nat, s': Scan, t': Trace)
    requires IsHeader(reqs, q, e) && Shaped(reqs, s, t) && Sound(reqs, base, q, e + 1, s, t) && id < |reqs|
    requires Binds(reqs, base, id, (name, reqs[q].headers[e].1), q, e, j)
    requires s'.bindings == AddBinding(s.bindings, id, name, reqs[q].headers[e].1)
    requires t'.origin == t.origin[id := t.origin[id] + [(q, e, j)]]
    ensures Shaped(reqs, s', t') && Sound(reqs, base, q, e + 1, s', t')
  {
    forall r, p | 0 <= r < |reqs| && 0 <= p < |s'.bindings[r]|
      ensures var o := t'.origin[r][p];
        Before(o.0, o.1, q, e + 1) && Binds(reqs, base, r, s'.bindings[r][p], o.0, o.1, o.2)
    {
      if r == id && p == |s.bindings[id]| {
      } else {
        assert s'.bindings[r][p] == s.bindings[r][p] && t'.origin[r][p] == t.origin[r][p];
      }
    }
  }

  lemma OwnedBind(s: Scan, t: Trace, id: nat, name: string, v: string, s': Scan, t': Trace)
    requires Owned(s, t) && id < |s.bindings| && name !in s.names
    requires s'.bindings == AddBinding(s.bindings, id, name, v) && s'.names == s.names + {name}
    requires t'.owner == t.owner[name := (id, |s.bindings[id]|)]
    ensures Owned(s', t')
  {
    forall r, p | 0 <= r < |s'.bindings| && 0 <= p < |s'.bindings[r]|
      ensures s'.bindings[r][p].0 in t'.owner && t'.owner[s'.bindings[r][p].0] == (r, p)
    {
      if r == id && p == |s.bindings[id]| {
      } else {
        assert s'.bindings[r][p] == s.bindings[r][p];
      }
    }
  }

  lemma UniqueBind(reqs: seq<Request>, q: nat, e: nat, p: nat, s: Scan, name: string, s': Scan)
    requires IsHeader(reqs, q, e) && p < |Window(reqs, q)| && Window(reqs, q)[p] < |s.bindings|
    requires Unique(s) && OnlyIn(reqs, q, e, p, s)
    requires s'.bindings == AddBinding(s.bindings, Window(reqs, q)[p], name, reqs[q].headers[e].1)
    ensures Unique(s') && OnlyIn(reqs, q, e, p + 1, s')
  {
    var w, v, id := Window(reqs, q), reqs[q].headers[e].1, Window(reqs, q)[p];
    assert id !in w[..p];
    assert w[..p + 1] == w[..p] + [id];
    forall p1 | 0 <= p1 < |s.bindings[id]| ensures s.bindings[id][p1].1 != v {
    }
    forall r, p1, p2 | 0 <= r < |s'.bindings| && 0 <= p1 < p2 < |s'.bindings[r]|
      ensures s'.bindings[r][p1].1 != s'.bindings[r][p2].1
    {
      if r == id && p2 == |s.bindings[id]| {
        assert s'.bindings[r][p1] == s.bindings[id][p1];
      } else {
        assert s'.bindings[r][p1] == s.bindings[r][p1] && s'.bindings[r][p2] == s.bindings[r][p2];
      }
    }
    forall r, p1 | 0 <= r < |s'.bindings| && 0 <= p1 < |s'.bindings[r]| && s'.bindings[r][p1].1 == v
      ensures r in w[..p + 1]
    {
      if r == id && p1 == |s.bindings[id]| {
      } else {
        assert s'.bindings[r][p1] == s.bindings[r][p1];
      }
    }
  }

  lemma CompleteBind(reqs: seq<Request>, base: set<string>, q: nat, e: nat, p: nat, s: Scan, t: Trace,
                     name: string, s': Scan, t': Trace)
    requires IsHeader(reqs, q, e) && p < |Window(reqs, q)| && Window(reqs, q)[p] < |s.bindings|
    requires Complete(reqs, base, q, e, s, t) && FoundHere(reqs, q, e, p, s, t)
    requires s'.bindings == AddBinding(s.bindings, Window(reqs, q)[p], name, reqs[q].headers[e].1)
    requires t'.found == t.found[(q, e, Window(reqs, q)[p]) := |s.bindings[Window(reqs, q)[p]]|]
    ensures Complete(reqs, base, q, e, s', t') && FoundHere(reqs, q, e, p + 1, s', t')
  {
    var w, v, id := Window(reqs, q), reqs[q].headers[e].1, Window(reqs, q)[p];
    forall q': nat, e': nat, r: nat |
      && IsHeader(reqs, q', e') && Before(q', e', q, e) && Searched(reqs, base, q', e')
      && r in Window(reqs, q') && r < |reqs| && Wanted(reqs[q'].headers[e'].1, reqs[r].responseText)
      ensures Found(s', t', q', e', r, reqs[q'].headers[e'].1)
    {
      assert Found(s, t, q', e', r, reqs[q'].headers[e'].1);
      assert (q', e', r) != (q, e, id);
      assert s'.bindings[r][t.found[(q', e', r)]] == s.bindings[r][t.found[(q', e', r)]];
    }
    forall p' | 0 <= p' < p + 1 && Wanted(v, reqs[w[p']].responseText) ensures Found(s', t', q, e, w[p'], v) {
      if p' < p {
        assert w[p'] != id;
        assert Found(s, t, q, e, w[p'], v);
      }
    }
  }

  /** A response that does not match leaves the search's facts true one entry further. */
  lemma SkipStep(reqs: seq<Request>, q: nat, e: nat, p: nat, s: Scan, t: Trace)
    requires IsHeader(reqs, q, e) && p < |Window(reqs, q)|
    requires FoundHere(reqs, q, e, p, s, t) && OnlyIn(reqs, q, e, p, s)
    requires !Wanted(reqs[q].headers[e].1, reqs[Window(reqs, q)[p]].responseText)
    ensures FoundHere(reqs, q, e, p + 1, s, t) && OnlyIn(reqs, q, e, p + 1, s)
  {
    var w := Window(reqs, q);
    assert w[..p + 1] == w[..p] + [w[p]];
  }

  /** A searched value is bound nowhere yet: every earlier binding's value was tried. */
  lemma NoValueYet(reqs: seq<Request>, base: set<string>, q: nat, e: nat, s: Scan, t: Trace)
    requires IsHeader(reqs, q, e) && Searched(reqs, base, q, e)
    requires Shaped(reqs, s, t) && Sound(reqs, base, q, e, s, t)
    ensures FoundHere(reqs, q, e, 0, s, t) && OnlyIn(reqs, q, e, 0, s)
  {
    var v := reqs[q].headers[e].1;
    forall r, p | 0 <= r < |s.bindings| && 0 <= p < |s.bindings[r]| ensures s.bindings[r][p].1 != v {
      var o := t.origin[r][p];
      assert Binds(reqs, base, r, s.bindings[r][p], o.0, o.1, o.2);
      assert TriedBefore(reqs, base, q, e, s.bindings[r][p].1) by {
        assert IsHeader(reqs, o.0, o.1) && Before(o.0, o.1, q, e);
      }
    }
  }

  /** Soundness at `(q, e)` holds at the next position too. */
  lemma SoundNext(reqs: seq<Request>, base: set<string>, q: nat, e: nat, s: Scan, t: Trace)
    requires Shaped(reqs, s, t) && Sound(reqs, base, q, e, s, t)
    ensures Sound(reqs, base, q, e + 1, s, t)
  {
  }

  /** Once header `(q, e)` is done (skipped, or searched through the whole window), completeness moves past it. */
  lemma CompleteNext(reqs: seq<Request>, base: set<string>, q: nat, e: nat, s: Scan, t: Trace)
    requires IsHeader(reqs, q, e) && Complete(reqs, base, q, e, s, t)
    requires Searched(reqs, base, q, e) ==> FoundHere(reqs, q, e, |Window(reqs, q)|, s, t)
    ensures Complete(reqs, base, q, e + 1, s, t)
  {
    forall q': nat, e': nat, r: nat |
      && IsHeader(reqs, q', e') && Before(q', e', q, e + 1) && Searched(reqs, base, q', e')
      && r in Window(reqs, q') && r < |reqs| && Wanted(reqs[q'].headers[e'].1, reqs[r].responseText)
      ensures Found(s, t, q', e', r, reqs[q'].headers[e'].1)
    {
      if q' == q && e' == e {
        var w := Window(reqs, q);
        var p' :| 0 <= p' < |w| && w[p'] == r;
      }
    }
  }

  /** The facts that hold after the search of header `(q, e)` has looked at the first `p` responses of the window. */
  ghost predicate Searching(reqs: seq<Request>, base: set<string>, q: nat, e: nat, p: nat, s: Scan, t: Trace)
    requires IsHeader(reqs, q, e) && p <= |Window(reqs, q)|
  {
    && Shaped(reqs, s, t) && Sound(reqs, base, q, e + 1, s, t) && Owned(s, t) && Unique(s)
    && Complete(reqs, base, q, e, s, t) && FoundHere(reqs, q, e, p, s, t) && OnlyIn(reqs, q, e, p, s)
  }

  /** One response of the window: `if match(value, text)`, bind a new variable there. */
  method SearchAt(reqs: seq<Request>, base: set<string>, q: nat, e: nat, p: nat, s: Scan, ghost t: Trace)
    returns (s': Scan, ghost t': Trace)
    requires IsHeader(reqs, q, e) && Searched(reqs, base, q, e) && DbIs(reqs, q, s.db) && p < |s.db|
    requires Searching(reqs, base, q, e, p, s, t)
    ensures Searching(reqs, base, q, e, p + 1, s', t')
    ensures s'.db == s.db && s'.tried == s.tried
    ensures s'.headerToVariable.Keys <= s.headerToVariable.Keys + {reqs[q].headers[e].1}
  {
    var (key, v) := reqs[q].headers[e];
    var (id, text) := s.db[p];
    var m := MatchCompute(v, text);
    if m {
      var name, names' := NewVariableName(key, s.names);
      ghost var j: nat :| j >= 1 && name == Candidate(key, j);
      s' := s.(bindings := AddBinding(s.bindings, id, name, v), names := names',
               headerToVariable := s.headerToVariable[v := name]);
      t' := Trace(t.origin[id := t.origin[id] + [(q, e, j)]], t.owner[name := (id, |s.bindings[id]|)],
                  t.found[(q, e, id) := |s.bindings[id]|]);
      assert Binds(reqs, base, id, (name, v), q, e, j);
      SoundBind(reqs, base, q, e, s, t, id, name, j, s', t');
      OwnedBind(s, t, id, name, v, s', t');
      UniqueBind(reqs, q, e, p, s, name, s');
      CompleteBind(reqs, base, q, e, p, s, t, name, s', t');
    } else {
      s', t' := s, t;
      SkipStep(reqs, q, e, p, s, t);
    }
  }

  /** `for response_id, text in responses_db`: the search of one header value through the whole window. */
  method SearchValue(reqs: seq<Request>, base: set<string>, q: nat, e: nat, s: Scan, ghost t: Trace)
    returns (s': Scan, ghost t': Trace)
    requires IsHeader(reqs, q, e) && Searched(reqs, base, q, e) && DbIs(reqs, q, s.db)
    requires Shaped(reqs, s, t) && Sound(reqs, base, q, e, s, t) && Owned(s, t) && Unique(s)
    requires Complete(reqs, base, q, e, s, t)
    ensures Shaped(reqs, s', t') && Sound(reqs, base, q, e + 1, s', t') && Owned(s', t') && Unique(s')
    ensures Complete(reqs, base, q, e + 1, s', t')
    ensures s'.db == s.db && s'.tried == s.tried
    ensures s'.headerToVariable.Keys <= s.headerToVariable.Keys + {reqs[q].headers[e].1}
  {
    NoValueYet(reqs, base, q, e, s, t);
    SoundNext(reqs, base, q, e, s, t);
    s', t' := s, t;
    var p := 0;
    while p < |s.db|
      invariant p <= |s.db| && s'.db == s.db && s'.tried == s.tried
      invariant s'.headerToVariable.Keys <= s.headerToVariable.Keys + {reqs[q].headers[e].1}
      invariant Searching(reqs, base, q, e, p, s', t')
    {
      s', t' := SearchAt(reqs, base, q, e, p, s', t');
      p := p + 1;
    }
    CompleteNext(reqs, base, q, e, s', t');
  }

  /** `tried_headers.add(value)` runs for every header whose key is not a base header. */
  lemma TriedStep(reqs: seq<Request>, base: set<string>, q: nat, e: nat, v: string)
    requires IsHeader(reqs, q, e)
    ensures TriedBefore(reqs, base, q, e + 1, v) <==>
      TriedBefore(reqs, base, q, e, v) || (reqs[q].headers[e].0 !in base && reqs[q].headers[e].1 == v)
  {
    if TriedBefore(reqs, base, q, e + 1, v) && !(reqs[q].headers[e].0 !in base && reqs[q].headers[e].1 == v) {
      var q': nat, e': nat :| IsHeader(reqs, q', e') && Before(q', e', q, e + 1)
        && reqs[q'].headers[e'].0 !in base && reqs[q'].headers[e'].1 == v;
      assert Before(q', e', q, e);
    }
    if reqs[q].headers[e].0 !in base && reqs[q].headers[e].1 == v {
      assert Before(q, e, q, e + 1);
    }
  }

  /**
   * One header `(header_key, value)` of request `q`: skipped for a base
   * header, a value with a variable, or a value already tried; otherwise
   * marked as tried and searched.
   */
  method VisitHeader(reqs: seq<Request>, base: set<string>, q: nat, e: nat, s: Scan, ghost t: Trace)
    returns (s': Scan, ghost t': Trace)
    requires IsHeader(reqs, q, e) && ScanInv(reqs, base, q, e, s, t)
    ensures ScanInv(reqs, base, q, e + 1, s', t')
  {
    var (key, v) := reqs[q].headers[e];
    forall v' ensures TriedBefore(reqs, base, q, e + 1, v') <==> TriedBefore(reqs, base, q, e, v') || (key !in base && v' == v) {
      TriedStep(reqs, base, q, e, v');
    }
    if key in base || v in s.headerToVariable || v in s.tried {
      s', t' := s, t;
      SoundNext(reqs, base, q, e, s, t);
      CompleteNext(reqs, base, q, e, s, t);
    } else {
      s', t' := SearchValue(reqs, base, q, e, s.(tried := s.tried + {v}), t);
    }
  }

  /**
   * `deque.append` with `maxlen=ResponseLookup` puts `x` last and keeps the
   * newest `|r| - 1` entries of `db` before it, in order; the oldest entry is
   * evicted once the deque is full.
   */
  lemma PushContents<T>(db: seq<T>, x: T)
    ensures var r := Push(db, x);
      && r[|r| - 1] == x
      && (forall p :: 0 <= p < |r| - 1 ==> r[p] == db[|db| + 1 - |r| + p])
      && (|db| == ResponseLookup ==> r == db[1..] + [x])
  {
  }

  /** The deque's contents after `responses_db.append((request_id, text))`, entry by entry. */
  lemma PushAt<T>(db: seq<T>, x: T, p: nat)
    requires p < |Push(db, x)|
    ensures Push(db, x)[p] == (db + [x])[p + |db| + 1 - |Push(db, x)|]
  {
  }

  /** Appending request `q` to `responses_db` when it is eligible keeps the deque equal to the window. */
  lemma DbStep(reqs: seq<Request>, q: nat, db: seq<(nat, string)>)
    requires q < |reqs| && DbIs(reqs, q, db)
    ensures DbIs(reqs, q + 1, if Eligible(reqs, q) then Push(db, (q, reqs[q].responseText)) else db)
  {
    WindowStep(reqs, q);
    if Eligible(reqs, q) {
      var w, x := Window(reqs, q), (q, reqs[q].responseText);
      var d := Push(db, x);
      forall p | 0 <= p < |d| ensures d[p].0 == Window(reqs, q + 1)[p] && d[p].1 == reqs[d[p].0].responseText {
        PushAt(db, x, p);
        PushAt(w, q, p);
      }
    }
  }

  /** The end of request `q`'s headers is the start of request `q + 1`'s. */
  lemma NextRequest(reqs: seq<Request>, base: set<string>, q: nat, s: Scan, t: Trace)
    requires q < |reqs| && ScanInv(reqs, base, q, |reqs[q].headers|, s, t)
    ensures ScanInv(reqs, base, q + 1, 0,
      s.(db := if Eligible(reqs, q) then Push(s.db, (q, reqs[q].responseText)) else s.db), t)
  {
    SoundNextRequest(reqs, base, q, s, t);
    CompleteNextRequest(reqs, base, q, s, t);
    forall v ensures TriedBefore(reqs, base, q + 1, 0, v) <==> TriedBefore(reqs, base, q, |reqs[q].headers|, v) {
      TriedNextRequest(reqs, base, q, v);
    }
    DbStep(reqs, q, s.db);
  }

  lemma SoundNextRequest(reqs: seq<Request>, base: set<string>, q: nat, s: Scan, t: Trace)
    requires q < |reqs| && Shaped(reqs, s, t) && Sound(reqs, base, q, |reqs[q].headers|, s, t)
    ensures Sound(reqs, base, q + 1, 0, s, t)
  {
    forall r, p | 0 <= r < |reqs| && 0 <= p < |s.bindings[r]|
      ensures var o := t.origin[r][p]; Before(o.0, o.1, q + 1, 0)
    {
      var o := t.origin[r][p];
      assert Before(o.0, o.1, q, |reqs[q].headers|);
    }
  }

  lemma CompleteNextRequest(reqs: seq<Request>, base: set<string>, q: nat, s: Scan, t: Trace)
    requires q < |reqs| && Complete(reqs, base, q, |reqs[q].headers|, s, t)
    ensures Complete(reqs, base, q + 1, 0, s, t)
  {
    forall q': nat, e': nat, r: nat |
      && IsHeader(reqs, q', e') && Before(q', e', q + 1, 0) && Searched(reqs, base, q', e')
      && r in Window(reqs, q') && r < |reqs| && Wanted(reqs[q'].headers[e'].1, reqs[r].responseText)
      ensures Found(s, t, q', e', r, reqs[q'].headers[e'].1)
    {
      assert Before(q', e', q, |reqs[q].headers|);
    }
  }

  lemma TriedNextRequest(reqs: seq<Request>, base: set<string>, q: nat, v: string)
    requires q < |reqs|
    ensures TriedBefore(reqs, base, q + 1, 0, v) <==> TriedBefore(reqs, base, q, |reqs[q].headers|, v)
  {
    if TriedBefore(reqs, base, q + 1, 0, v) {
      var q': nat, e': nat :| IsHeader(reqs, q', e') && Before(q', e', q + 1, 0)
        && reqs[q'].headers[e'].0 !in base && reqs[q'].headers[e'].1 == v;
      assert Before(q', e', q, |reqs[q].headers|);
    }
  }

  /** One request: each of its headers in dict order, then its response joins the window if eligible. */
  method VisitRequest(reqs: seq<Request>, base: set<string>, q: nat, s: Scan, ghost t: Trace)
    returns (s': Scan, ghost t': Trace)
    requires q < |reqs| && ScanInv(reqs, base, q, 0, s, t)
    ensures ScanInv(reqs, base, q + 1, 0, s', t')
  {
    s', t' := s, t;
    var e := 0;
    while e < |reqs[q].headers|
      invariant e <= |reqs[q].headers| && ScanInv(reqs, base, q, e, s', t')
    {
      s', t' := VisitHeader(reqs, base, q, e, s', t');
      e := e + 1;
    }
    NextRequest(reqs, base, q, s', t');
    if SizeThreshold <= |reqs[q].responseText| <= MaxSize {
      s' := s'.(db := Push(s'.db, (q, reqs[q].responseText)));
    }
  }

  /**
   * infer_headers_origin: `out[r]` lists the (name, value) variables that
   * response `r` defines. Every binding comes from the search of a header
   * value in a later request whose window held `r`, and passed `match`;
   * every name is used once; no response binds a value twice; and every
   * searched value is bound at every window response it matches.
   */
  method HeadersOrigin(reqs: seq<Request>, base: set<string>) returns (out: seq<seq<(string, string)>>)
    ensures |out| == |reqs|
    ensures forall r: nat, p :: r < |out| && 0 <= p < |out[r]| ==>
      Explained(reqs, base, r, out[r][p])
    ensures forall r, p, r', p' ::
      (0 <= r < |out| && 0 <= p < |out[r]| && 0 <= r' < |out| && 0 <= p' < |out[r']| && out[r][p].0 == out[r'][p'].0) ==>
      r == r' && p == p'
    ensures forall r, p, p' :: 0 <= r < |out| && 0 <= p < p' < |out[r]| ==> out[r][p].1 != out[r][p'].1
    ensures forall q: nat, e: nat, r: nat ::
      (IsHeader(reqs, q, e) && Searched(reqs, base, q, e) && r in Window(reqs, q) && Wanted(reqs[q].headers[e].1, reqs[r].responseText)) ==>
      exists p :: 0 <= p < |out[r]| && out[r][p].1 == reqs[q].headers[e].1
  {
    var empty: seq<seq<(string, string)>> := seq(|reqs|, _ => []);
    var s := Scan(empty, map[], {}, [], {});
    ghost var t := Trace(seq(|reqs|, _ => []), map[], map[]);
    var q := 0;
    while q < |reqs|
      invariant q <= |reqs| && ScanInv(reqs, base, q, 0, s, t)
    {
      s, t := VisitRequest(reqs, base, q, s, t);
      q := q + 1;
    }
    out := s.bindings;
    BindingsSound(reqs, base, s, t);
    NamesOwned(s, t);
    BindingsComplete(reqs, base, s, t);
  }

  lemma BindingsSound(reqs: seq<Request>, base: set<string>, s: Scan, t: Trace)
    requires Shaped(reqs, s, t) && Sound(reqs, base, |reqs|, 0, s, t)
    ensures forall r: nat, p :: r < |s.bindings| && 0 <= p < |s.bindings[r]| ==>
      Explained(reqs, base, r, s.bindings[r][p])
  {
    forall r: nat, p | r < |s.bindings| && 0 <= p < |s.bindings[r]|
      ensures Explained(reqs, base, r, s.bindings[r][p])
    {
      BindingSound(reqs, base, s, t, r, p);
    }
  }

  lemma BindingSound(reqs: seq<Request>, base: set<string>, s: Scan, t: Trace, r: nat, p: nat)
    requires Shaped(reqs, s, t) && Sound(reqs, base, |reqs|, 0, s, t)
    requires r < |s.bindings| && p < |s.bindings[r]|
    ensures Explained(reqs, base, r, s.bindings[r][p])
  {
    var o := t.origin[r][p];
    assert Binds(reqs, base, r, s.bindings[r][p], o.0, o.1, o.2);
  }

  lemma NamesOwned(s: Scan, t: Trace)
    requires Owned(s, t)
    ensures forall r, p, r', p' ::
      (0 <= r < |s.bindings| && 0 <= p < |s.bindings[r]| && 0 <= r' < |s.bindings| && 0 <= p' < |s.bindings[r']|
       && s.bindings[r][p].0 == s.bindings[r'][p'].0) ==>
      r == r' && p == p'
  {
  }

  lemma BindingsComplete(reqs: seq<Request>, base: set<string>, s: Scan, t: Trace)
    requires Complete(reqs, base, |reqs|, 0, s, t)
    ensures forall q: nat, e: nat, r: nat ::
      (IsHeader(reqs, q, e) && Searched(reqs, base, q, e) && r in Window(reqs, q) && Wanted(reqs[q].headers[e].1, reqs[r].responseText)) ==>
      r < |s.bindings| && exists p :: 0 <= p < |s.bindings[r]| && s.bindings[r][p].1 == reqs[q].headers[e].1
  {
    forall q: nat, e: nat, r: nat |
      IsHeader(reqs, q, e) && Searched(reqs, base, q, e) && r in Window(reqs, q) && Wanted(reqs[q].headers[e].1, reqs[r].responseText)
      ensures r < |s.bindings| && exists p :: 0 <= p < |s.bindings[r]| && s.bindings[r][p].1 == reqs[q].headers[e].1
    {
      assert Before(q, e, |reqs|, 0);
      assert Found(s, t, q, e, r, reqs[q].headers[e].1);
    }
  }

  /** The number of eligible requests among `lo .. hi - 1`. */
  function EligibleCount(reqs: seq<Request>, lo: nat, hi: nat): nat
    requires hi <= |reqs|
    decreases hi
  {
    if hi <= lo then 0 else EligibleCount(reqs, lo, hi - 1) + if Eligible(reqs, hi - 1) then 1 else 0
  }

  /** The entry at `idx` of the eligible list has `|l| - 1 - idx` eligible requests after it. */
  lemma {:induction false} EligiblesIndex(reqs: seq<Request>, q: nat, idx: nat)
    requires q <= |reqs| && idx < |Eligibles(reqs, q)|
    ensures EligibleCount(reqs, Eligibles(reqs, q)[idx] + 1, q) == |Eligibles(reqs, q)| - 1 - idx
    decreases q
  {
    var l, l' := Eligibles(reqs, q), Eligibles(reqs, q - 1);
    if idx < |l'| {
      assert l[idx] == l'[idx];
      EligiblesIndex(reqs, q - 1, idx);
    } else {
      assert l[idx] == q - 1;
    }
  }

  /**
   * The window of request `q` is what the deque holds: request `r` is in it
   * exactly when `r` comes before `q`, its response is eligible, and fewer
   * than `ResponseLookup` eligible responses came after it.
   */
  lemma WindowMembers(reqs: seq<Request>, q: nat, r: nat)
    requires q <= |reqs|
    ensures r in Window(reqs, q) <==> r < q && Eligible(reqs, r) && EligibleCount(reqs, r + 1, q) < ResponseLookup
  {
    var l := Eligibles(reqs, q);
    EligiblesMembers(reqs, q, r);
    if r in l {
      var idx :| 0 <= idx < |l| && l[idx] == r;
      EligiblesIndex(reqs, q, idx);
      LastFewAt(l, idx);
    } else {
      LastFewWithin(l, r);
    }
  }

  /** The eligible list holds exactly the eligible requests before `q`. */
  lemma {:induction false} EligiblesMembers(reqs: seq<Request>, q: nat, r: nat)
    requires q <= |reqs|
    ensures r in Eligibles(reqs, q) <==> r < q && Eligible(reqs, r)
    decreases q
  {
    if q > 0 {
      EligiblesMembers(reqs, q - 1, r);
    }
  }

  /** In a list without repeats, entry `idx` is among the last few exactly when fewer than five entries follow it. */
  lemma LastFewAt(l: seq<nat>, idx: nat)
    requires idx < |l| && forall p, p' :: 0 <= p < p' < |l| ==> l[p] < l[p']
    ensures l[idx] in LastFew(l) <==> |l| - 1 - idx < ResponseLookup
  {
    if |l| > ResponseLookup {
      var w := l[|l| - ResponseLookup..];
      if idx >= |l| - ResponseLookup {
        assert w[idx - (|l| - ResponseLookup)] == l[idx];
      } else {
        forall p | 0 <= p < |w| ensures w[p] != l[idx] {
          assert w[p] == l[p + |l| - ResponseLookup];
        }
      }
    }
  }

  /** The last few of a list are taken from it. */
  lemma LastFewWithin(l: seq<nat>, x: nat)
    requires x !in l
    ensures x !in LastFew(l)
  {
    if |l| > ResponseLookup {
      var w := l[|l| - ResponseLookup..];
      assert forall p :: 0 <= p < |w| ==> w[p] == l[p + |l| - ResponseLookup];
    }
  }

  /** `tried_headers` makes each value searched at most once: two searched headers with one value are one header. */
  lemma SearchedOnce(reqs: seq<Request>, base: set<string>, q: nat, e: nat, q': nat, e': nat)
    requires IsHeader(reqs, q, e) && IsHeader(reqs, q', e')
    requires Searched(reqs, base, q, e) && Searched(reqs, base, q', e')
    requires reqs[q].headers[e].1 == reqs[q'].headers[e'].1
    ensures q == q' && e == e'
  {
    var v := reqs[q].headers[e].1;
    assert Before(q', e', q, e) ==> TriedBefore(reqs, base, q, e, v);
    assert Before(q, e, q', e') ==> TriedBefore(reqs, base, q', e', v);
  }
}
