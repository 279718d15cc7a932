/**
 * The header handling of har2requests/request.py: building a dict from HAR
 * name/value records, dropping the body headers, and the header diff with
 * variable substitution that `Request.dump` prints.
 */
module Request {
  import opened Wrappers
  import opened Seqs
  import opened PyDict
  import opened Utils

  /** One record of a HAR `headers` or `cookies` array. */
  datatype NameValue = NameValue(name: string, value: string)

  /** The fields of a request that header inference and `dump`'s header diff read. */
  datatype Request = Request(httpMethod: string, url: string, headers: Dict<string, string>, responseText: string)

  /** A header value as `dump` prints it: the literal value, or the name of a variable bound to it. */
  datatype HeaderValue = Literal(value: Option<string>) | Variable(name: string)

  function Names(j: seq<NameValue>): (r: seq<string>)
    ensures |r| == |j| && forall i :: 0 <= i < |j| ==> r[i] == j[i].name
  {
    seq(|j|, i requires 0 <= i < |j| => j[i].name)
  }

  /** `d` is the dict built from the records `j`: first-occurrence key order, every name a key, the last value wins. */
  ghost predicate BuiltFrom(d: Dict<string, string>, j: seq<NameValue>) {
    && Keys(d) == Dedupe(Names(j))
    && (forall k :: k in ToMap(d) <==> exists i :: 0 <= i < |j| && j[i].name == k)
    && (forall i :: 0 <= i < |j| && (forall i' :: i < i' < |j| ==> j[i'].name != j[i].name) ==>
          j[i].name in ToMap(d) && ToMap(d)[j[i].name] == j[i].value)
  }

  /** One more record: `d[x["name"]] = x["value"]`. */
  lemma BuiltFromSnoc(d: Dict<string, string>, t: seq<NameValue>, x: NameValue)
    requires BuiltFrom(d, t)
    ensures BuiltFrom(Set(d, x.name, x.value), t + [x])
  {
    SnocKeys(d, t, x);
    SnocMembers(d, t, x);
    SnocLastWins(d, t, x);
  }

  lemma SnocKeys(d: Dict<string, string>, t: seq<NameValue>, x: NameValue)
    requires Keys(d) == Dedupe(Names(t))
    ensures Keys(Set(d, x.name, x.value)) == Dedupe(Names(t + [x]))
  {
    var l := Names(t + [x]);
    assert l[..|l| - 1] == Names(t);
    KeysInMap(d);
  }

  lemma SnocMembers(d: Dict<string, string>, t: seq<NameValue>, x: NameValue)
    requires forall k :: k in ToMap(d) <==> exists i :: 0 <= i < |t| && t[i].name == k
    ensures forall k :: k in ToMap(Set(d, x.name, x.value)) <==> exists i :: 0 <= i < |t + [x]| && (t + [x])[i].name == k
  {
    var j := t + [x];
    var r := Set(d, x.name, x.value);
    forall k | k in ToMap(r) ensures exists i :: 0 <= i < |j| && j[i].name == k {
      if k != x.name {
        var i :| 0 <= i < |t| && t[i].name == k;
        assert j[i] == t[i];
      } else {
        assert j[|t|].name == k;
      }
    }
    forall k | exists i :: 0 <= i < |j| && j[i].name == k ensures k in ToMap(r) {
      var i :| 0 <= i < |j| && j[i].name == k;
      if i < |t| { assert t[i] == j[i]; }
    }
  }

  lemma SnocLastWins(d: Dict<string, string>, t: seq<NameValue>, x: NameValue)
    requires forall i :: 0 <= i < |t| && (forall i' :: i < i' < |t| ==> t[i'].name != t[i].name) ==>
      t[i].name in ToMap(d) && ToMap(d)[t[i].name] == t[i].value
    ensures var j, r := t + [x], Set(d, x.name, x.value);
      forall i :: 0 <= i < |j| && (forall i' :: i < i' < |j| ==> j[i'].name != j[i].name) ==>
        j[i].name in ToMap(r) && ToMap(r)[j[i].name] == j[i].value
  {
    var j := t + [x];
    var r := Set(d, x.name, x.value);
    forall i | 0 <= i < |j| && (forall i' :: i < i' < |j| ==> j[i'].name != j[i].name)
      ensures j[i].name in ToMap(r) && ToMap(r)[j[i].name] == j[i].value
    {
      if i < |t| {
        assert j[|t|].name != j[i].name;
        forall i' | i < i' < |t| ensures t[i'].name != t[i].name {
          assert j[i'] == t[i'];
        }
        assert j[i] == t[i];
      }
    }
  }

  /**
   * dict_from_har: one key per distinct name, in order of first occurrence,
   * holding the value of the LAST record with that name.
   */
  function DictFromHar(j: seq<NameValue>): (r: Dict<string, string>)
    ensures BuiltFrom(r, j)
    decreases |j|
  {
    if |j| == 0 then []
    else
      var t, x := j[..|j| - 1], j[|j| - 1];
      assert j == t + [x];
      BuiltFromSnoc(DictFromHar(t), t, x);
      Set(DictFromHar(t), x.name, x.value)
  }

  /** process_headers: a copy without the exact keys `Content-Type` and `Content-Length`. */
  function ProcessHeaders(h: Dict<string, string>): (r: Dict<string, string>)
    ensures "Content-Type" !in ToMap(r) && "Content-Length" !in ToMap(r)
    ensures forall k :: k != "Content-Type" && k != "Content-Length" ==>
      (k in ToMap(r) <==> k in ToMap(h)) && (k in ToMap(r) ==> ToMap(r)[k] == ToMap(h)[k])
    ensures IsSubsequence(r, h)
  {
    var h1 := Remove(h, "Content-Type");
    var r := Remove(h1, "Content-Length");
    SubsequenceTrans(r, h1, h);
    r
  }

  /** The request's headers as values of the diff, where absence is `None`. */
  function Lift(h: Dict<string, string>): (r: Dict<string, Option<string>>)
    ensures Keys(r) == Keys(h)
    ensures forall k :: k in ToMap(r) <==> k in ToMap(h)
    ensures forall k :: k in ToMap(r) ==> ToMap(r)[k] == Some(ToMap(h)[k])
  {
    var r: Dict<string, Option<string>> := seq(|h|, i requires 0 <= i < |h| => (h[i].0, Some(h[i].1)));
    forall i | 0 <= i < |h| ensures h[i].0 in ToMap(h) && h[i].0 in ToMap(r) && ToMap(r)[h[i].0] == Some(ToMap(h)[h[i].0]) {
      InMap(r, i);
      InMap(h, i);
    }
    KeysInMap(r);
    KeysInMap(h);
    r
  }

  /** How one diff value is printed: a variable when header_to_variable knows the value. */
  function Shown(v: Option<string>, headerToVariable: map<string, string>): HeaderValue {
    if v.Some? && v.value in headerToVariable then Variable(headerToVariable[v.value]) else Literal(v)
  }

  /** The substitution loop over the diff: keys and order kept, each value replaced as `Shown` says. */
  function Substitute(c: Dict<string, Option<string>>, headerToVariable: map<string, string>): (r: Dict<string, HeaderValue>)
    ensures Keys(r) == Keys(c)
    ensures forall k :: k in ToMap(r) <==> k in ToMap(c)
    ensures forall k :: k in ToMap(r) ==> ToMap(r)[k] == Shown(ToMap(c)[k], headerToVariable)
  {
    var r: Dict<string, HeaderValue> := seq(|c|, i requires 0 <= i < |c| => (c[i].0, Shown(c[i].1, headerToVariable)));
    forall i | 0 <= i < |c| ensures c[i].0 in ToMap(c) && c[i].0 in ToMap(r) && ToMap(r)[c[i].0] == Shown(ToMap(c)[c[i].0], headerToVariable) {
      InMap(r, i);
      InMap(c, i);
    }
    KeysInMap(r);
    KeysInMap(c);
    r
  }

  /**
   * The header diff of `dump`: the keys of `dict_change(base_headers,
   * self.headers)`, in its order; a value bound to a variable is shown as
   * the variable, every other value unchanged, and `None` for a base header
   * the request lacks.
   */
  function DumpHeaders(req: Request, baseHeaders: Dict<string, Option<string>>, headerToVariable: map<string, string>)
    : (r: Dict<string, HeaderValue>)
    ensures Keys(r) == Keys(Change(baseHeaders, Lift(req.headers)))
    ensures forall k :: k in ToMap(r) <==>
      || (k in ToMap(req.headers) && (k !in ToMap(baseHeaders) || ToMap(baseHeaders)[k] != Some(ToMap(req.headers)[k])))
      || (k in ToMap(baseHeaders) && ToMap(baseHeaders)[k].Some? && k !in ToMap(req.headers))
    ensures forall k :: k in ToMap(r) ==>
      ToMap(r)[k] == if k in ToMap(req.headers) then Shown(Some(ToMap(req.headers)[k]), headerToVariable) else Literal(None)
  {
    Substitute(Change(baseHeaders, Lift(req.headers)), headerToVariable)
  }

  /** With both defaults (`None`, read as `{}`), the diff is every header of the request, literally, in order. */
  lemma DumpHeadersDefaults(req: Request)
    ensures Keys(DumpHeaders(req, [], map[])) == Keys(req.headers)
    ensures forall k :: k in ToMap(req.headers) ==> ToMap(DumpHeaders(req, [], map[]))[k] == Literal(Some(ToMap(req.headers)[k]))
  {
    var l := Lift(req.headers);
    var empty: Dict<string, Option<string>> := [];
    var keep := (k: string, v: Option<string>) => k !in ToMap(empty) || ToMap(empty)[k] != v;
    assert ToMap(empty) == map[];
    assert forall i :: 0 <= i < |l| ==> keep(l[i].0, l[i].1);
    FilterAll(l, keep);
    assert ChangedPart(empty, l) == l;
    var removed := RemovedPart(empty, l);
    if |removed| > 0 {
      InMap(removed, 0);
    }
    ChangePartsDisjoint(empty, l);
    assert Change(empty, l) == l;
  }
}
