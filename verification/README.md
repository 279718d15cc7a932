# har2requests inference core, in Dafny

This project models the inference core of har2requests. har2requests turns a
recorded HAR log of HTTP exchanges into a Python script. The model covers four
parts:

- **String algorithm** (`stringalg.py`). It covers dense re-ranking (`to_int_keys`), the prefix-doubling rank
  array (`suffix_array`), permutation inversion (`inverse_array`), Kasai's LCP
  array (`kasai`), and the longest common substring of two strings through the
  joined string `a + chr(0) + b`.
- **Matching** (`__init__.py`). `match` and `_match_wrapped` are the
  threshold test "more than half of the header value occurs contiguously in the
  response text".
- **Inference** (`__init__.py`). `infer_session_headers` is the two-pass majority heuristic. It yields one
  snapshot of session headers per request, where `None` marks a header that
  became absent. `infer_headers_origin` is the scan that binds header values to
  fresh variable names at the earlier responses whose text contains them.
- **Helpers** (`utils.py`, `request.py`). They are the dict diff helpers,
  `json_dfs`, `dict_from_har`, `process_headers`, and the header diff printed by
  `Request.dump`.

Python's insertion-ordered `dict` is modelled as `PyDict.Dict`: a sequence of
(key, value) pairs with distinct keys. Its lookup view is `ToMap`. `Counter`
is a `map<K, int>` read through `Session.Get`, which defaults to 0. Every ratio
test `x / y < 0.5` or `x / y > 0.5` is stated exactly as `2 * x < y` or
`2 * x > y`. Strings are `seq<char>`. Where Python raises (`max()` of an empty
sequence), the model returns `Wrappers.Result.Err`.

Behaviours of the code worth knowing, all of which the model keeps:

- The window scan has no `break` (`har2requests/__init__.py:84-88`). It goes
  oldest to newest and binds a new name at every matching response, not just
  the first.
- `tried_headers` holds header values, not (name, value) pairs
  (`har2requests/__init__.py:81-83`).
- A header is skipped when its key is anywhere in `base_headers`, whatever
  the value there (`har2requests/__init__.py:77-78`).
- `longest_common_substring(a, "")` returns 0; only an empty `a` raises,
  through `max()` of an empty sequence (`har2requests/stringalg.py:80-87`).
- A session snapshot is copied after request `i`'s promotions and tombstones
  (`har2requests/__init__.py:116`).
- Pass 2 decrements `count[k]` only when request `i` has header `k`
  (`har2requests/__init__.py:112-113`).

## Model

| member | source | states |
|---|---|---|
| StringAlg.ToIntKeys | har2requests/stringalg.py:8-21 | The output has the input's length. Its values are exactly 0 .. (number of distinct inputs) - 1. `l[i] < l[j]` holds iff `out[i] < out[j]`, so equality is preserved too. |
| StringAlg.SortDistinct | har2requests/stringalg.py:13-19 | The de-duplicated list, after `ls.sort()`, is strictly increasing and holds exactly the input's elements. |
| StringAlg.PositionIndex | har2requests/stringalg.py:20 | `index` maps each sorted element to its position and has no other keys. |
| StringAlg.PairKeyOrder | har2requests/stringalg.py:35-36 | Take `a, a'` in [0, n) and `b, b'` in [-1, n). The key `a*(n+1)+b+1` orders the pairs lexicographically and is injective. A missing partner (-1) sorts first. |
| StringAlg.Max | har2requests/stringalg.py:32 | `max(line)` of a non-empty list is one of its elements and at least every element. |
| StringAlg.DoublingStep | har2requests/stringalg.py:33-38 | Suppose ranks order the length-k prefixes. Then the pair keys order the length-2k prefixes lexicographically. |
| StringAlg.DoublingRound | har2requests/stringalg.py:32-39 | One loop round re-ranks the pair keys into a dense ranking of the length-2k prefixes. This is the loop invariant with `k` doubled. |
| StringAlg.DoublingDone | har2requests/stringalg.py:32 | When the loop exits (`max(line) >= n - 1`), the dense prefix ranking is a permutation of [0, n) that orders the suffixes. |
| StringAlg.DoublingBelowLength | har2requests/stringalg.py:32-39 | While the loop runs, `k < n`. So the loop stops once every suffix is distinguished. |
| StringAlg.InitialRanks | har2requests/stringalg.py:31 | `to_int_keys(s)` ranks the length-1 prefixes. |
| StringAlg.DistinctPrefixRanks | har2requests/stringalg.py:40 | A prefix ranking with no repeated rank orders the whole suffixes: `line[i] < line[j]` iff `s[i:] < s[j:]`. |
| StringAlg.SuffixArray | har2requests/stringalg.py:24-40 | It raises (`Err`) exactly for empty `s`, where `max([])` fails. Otherwise it returns a permutation of [0, n) with `line[i] < line[j]` iff suffix `i` < suffix `j`. |
| StringAlg.InverseArray | har2requests/stringalg.py:43-48 | For a permutation, the result is its inverse (`ans[l[i]] == i`). For any input it states which index ends up in each slot. Slots that no `l[i]` names keep 0. |
| StringAlg.RankPositions | har2requests/stringalg.py:66 | `pos` inverts the rank array, so `pos[r]` is the start of the r-th smallest suffix. |
| StringAlg.KasaiCarry | har2requests/stringalg.py:75-76 | Moving from suffix `i` to `i + 1`, the common prefix with its rank successor shrinks by at most one. So the carried `k - 1` never exceeds the true LCP. |
| StringAlg.ExtendMatch | har2requests/stringalg.py:72-73 | Starting from any lower bound, the extension loop stops at exactly the common-prefix length. |
| StringAlg.KasaiStep | har2requests/stringalg.py:67-76 | One iteration stores the exact LCP at rank `sa[i]` and keeps the carry below the next true LCP. The last rank is reset to 0. |
| StringAlg.Kasai | har2requests/stringalg.py:51-77 | `lcp[r]` is the common-prefix length of the suffixes ranked `r` and `r + 1`, and 0 for the last rank. |
| StringAlg.KasaiOf | har2requests/stringalg.py:61-62 | With `sa` omitted, it raises exactly for empty `s`. Otherwise the result is the LCP array of the suffix ranking. |
| StringAlg.CrossingMax | har2requests/stringalg.py:85-87 | The maximum over rank-adjacent pairs that cross `len(a)`. It reports whether any such pair exists. |
| StringAlg.CrossingMaxIsLongest | har2requests/stringalg.py:80-87 | Take NUL-free, non-empty `a` and NUL-free `b` joined by `chr(0)`. The maximum crossing LCP equals the longest common substring length. |
| StringAlg.CrossingIsCommon | har2requests/stringalg.py:81 | A common prefix of an `a`-side and a `b`-side suffix stops at the separator, so it is a common substring of `a` and `b`. |
| StringAlg.CrossingCovers | har2requests/stringalg.py:86 | Every common prefix of an `a`-side and a `b`-side suffix is bounded by the LCP of some crossing rank-adjacent pair. |
| StringAlg.LongestCommonSubstring | har2requests/stringalg.py:80-87 | It raises exactly when `a` is empty. For NUL-free inputs it returns the longest common substring length. |
| CommonSubstring.LongestCommonLength | har2requests/stringalg.py:80-87 | The reference definition: a common substring length that every common substring length is at most. |
| CommonSubstring.LongestCommonBounded | har2requests/stringalg.py:80-87 | The longest common substring is at most `min(len(a), len(b))`. |
| CommonSubstring.LongestCommonSymmetric | har2requests/stringalg.py:80-87 | The longest common substring length is symmetric in `a` and `b`. |
| CommonSubstring.LongestCommonSelf | har2requests/stringalg.py:80-87 | The longest common substring of `a` with itself has length `len(a)`. |
| CommonSubstring.LongestCommonWithEmpty | har2requests/stringalg.py:85-87 | The length is 0 against an empty `b`. This is the value the code returns for `b == ""`. |
| CommonSubstring.LongestCommonContained | har2requests/stringalg.py:80-87 | When `a` occurs in `b`, the length is `len(a)`. |
| Matching.MatchWrapped | har2requests/__init__.py:32-36 | It raises exactly for an empty header. For NUL-free strings it is true iff `2 * lcs(header, text) > len(header)`. |
| Matching.MatchCompute | har2requests/__init__.py:39-46 | It is false when `len(header) < 16` and false when `2 * len(text) < len(header)`. For NUL-free strings it agrees with `Match`. |
| Matching.EmptyTextRejected | har2requests/__init__.py:44-45 | No header matches an empty text. |
| Matching.MatchContained | har2requests/__init__.py:39-46 | A header of at least 16 characters that occurs in the text matches it. |
| Matching.MatchNeedsOverlap | har2requests/__init__.py:35-36 | A match needs a shared run longer than half the header. It needs the text to be more than half the header's length. |
| HeaderOrigin.NatToStringInjective | har2requests/__init__.py:64 | Distinct numbers print as distinct decimal strings. |
| HeaderOrigin.CandidateInjective | har2requests/__init__.py:64 | `f"{base}_{i}"` determines `i`. |
| HeaderOrigin.NewVariableName | har2requests/__init__.py:61-67 | It returns `f"{base}_{i}"` for the least `i >= 1` not yet in use. The name is new, and it is added to the set. |
| HeaderOrigin.Eligibles | har2requests/__init__.py:89 | Every entry is a request before `q` whose response length is in [16, 100000], and the entries are increasing. |
| HeaderOrigin.EligiblesMembers | har2requests/__init__.py:89 | Completeness of the list: `r` is in it iff `r < q` and request `r`'s response length is in [16, 100000]. |
| HeaderOrigin.Push | har2requests/__init__.py:89-90 | `deque.append` with `maxlen=5` keeps at most 5 entries. |
| HeaderOrigin.PushContents | har2requests/__init__.py:89-90 | After `deque.append(x)` with `maxlen=5`, `x` is last and the newest entries of the old deque precede it in order. On a full deque, the oldest entry is evicted. |
| HeaderOrigin.Window | har2requests/__init__.py:69-90 | The deque when request `q` is visited holds at most 5 ids. They are increasing and before `q`, and each has a response length in [16, 100000]. |
| HeaderOrigin.WindowStep | har2requests/__init__.py:89-90 | After request `q`, the deque is the old one with `q` appended if eligible, dropping the oldest beyond 5. |
| HeaderOrigin.WindowMembers | har2requests/__init__.py:69-90 | `r` is in request `q`'s window iff `r < q`, `r` is eligible, and fewer than 5 eligible responses lie strictly between `r` and `q`. |
| HeaderOrigin.DbStep | har2requests/__init__.py:89-90 | The appended deque pairs each window id with that request's response text. |
| HeaderOrigin.TriedStep | har2requests/__init__.py:77-83 | After header `(q, e)`, a value is in `tried_headers` iff it was already, or it is this header's value and its key is not a base header. |
| HeaderOrigin.SearchedOnce | har2requests/__init__.py:81-83 | Two searched headers with the same value are the same header, so each value is searched at most once. |
| HeaderOrigin.NoValueYet | har2requests/__init__.py:79-83 | When a value is searched, no response holds a binding of it yet. |
| HeaderOrigin.SearchAt | har2requests/__init__.py:85-88 | On a match at one window entry, it binds a fresh name at that response. The previous bindings stay sound, the names stay unique, and the per-response values stay unique. |
| HeaderOrigin.SearchValue | har2requests/__init__.py:84-88 | The window scan binds the value at every matching response, with no early exit. Every earlier guarantee is kept. |
| HeaderOrigin.VisitHeader | har2requests/__init__.py:76-88 | The three skips, in source order (base key, value with a variable, value already tried), then the search. The loop invariant moves one header on. |
| HeaderOrigin.VisitRequest | har2requests/__init__.py:75-90 | The headers of one request are visited in dict order, then the response is appended when eligible. The invariant moves to the next request. |
| HeaderOrigin.HeadersOrigin | har2requests/__init__.py:49-92 | One list per request. Each binding `(name, value)` at `r` comes from a later request's header with a non-base key, whose first occurrence is searched, and `r` was in that request's window. It passed `match` against `r`'s text, and its name is `f"{key}_{j}"`. Names are pairwise distinct, no response binds a value twice, and every searched value is bound at every window response it matches. |
| HeaderOrigin.BindingsSound | har2requests/__init__.py:84-88 | Every binding in the result was made by the search of some header. |
| HeaderOrigin.NextRequest | har2requests/__init__.py:75-90 | The state after request `q`'s last header, with the deque appended, is the state before request `q + 1`'s first header. |
| HeaderOrigin.NamesOwned | har2requests/__init__.py:61-67 | No name is used by two bindings. |
| HeaderOrigin.BindingsComplete | har2requests/__init__.py:84-88 | Each searched value is bound at each window response it matches. |
| Session.PairWithinKey | har2requests/__init__.py:101-102 | `count[k, v]` never exceeds `count[k]`. |
| Session.OccurrencesSplit | har2requests/__init__.py:99-102 | Header counts over adjacent ranges add up. |
| Session.RecordMembers | har2requests/__init__.py:99-104 | `k` is in `record[i]` iff request `i` has `k = v` and, over requests `i .. n-1`, `count(k, v) > 1` and `2 * count(k, v) > count(k)`. |
| Session.CountRequest | har2requests/__init__.py:100-104 | One request of the backward pass builds its `record` row. The counters grow to the counts from this request on. |
| Session.CountPass | har2requests/__init__.py:96-104 | The backward pass yields `record[i]` for every `i`, and ends with `count[k]` the total occurrences of `k`. |
| Session.LastPromotion | har2requests/__init__.py:108-110 | It is the latest promotion of `k` at or before `i`. That request has `k`, and no later request up to `i` promotes it. |
| Session.FirstPromotionFrom | har2requests/__init__.py:108-110 | It is the first promotion of `k` from `j` on, or `n` if there is none. |
| Session.Record | har2requests/__init__.py:103-104 | Every key recorded for request `i` is a header of request `i`, so `r.headers[k]` at line 110 is defined. |
| Session.CountHeader | har2requests/__init__.py:100-104 | One header of the backward pass bumps both counters and appends the key to the row exactly when it is promoted. |
| Session.Promote | har2requests/__init__.py:109-110 | `headers[k] = r.headers[k]` for `k` in `rec`. The keys become the old keys in their places, followed by the keys of `rec` that were absent, each once, in `rec` order (`Fresh`). Promoted keys carry request `i`'s value, and the others are unchanged. |
| Seqs.FreshMembers | har2requests/__init__.py:109-110 | The appended keys are exactly the keys of `rec` missing from the session, with no repeats. |
| Session.Decay | har2requests/__init__.py:111-115 | Keys and order are kept. A key absent from request `i` with `2 * count[k] < n - i` becomes `None`, and the others are unchanged. `count[k]` drops by one exactly for keys that request `i` has. |
| Session.DecayKey | har2requests/__init__.py:111-115 | One key of the decay loop: a tombstone or a decrement, as `Decay` states for all keys. |
| Session.SessionRequest | har2requests/__init__.py:108-116 | One request of the forward pass yields snapshot `i` and keeps the earlier keys. |
| Session.CountStep | har2requests/__init__.py:111-113 | The forward pass's `count[k]` drops at request `i` exactly when `k` is already promoted and request `i` has it. |
| Session.TombstonedStep | har2requests/__init__.py:114-115 | Take a key promoted earlier and not re-promoted at `i`. It is `None` at `i` iff it was `None` before, or request `i` lacks it and its count is below half of the remaining requests. |
| Session.ValueStep | har2requests/__init__.py:108-116 | One key through one forward step: its snapshot value is `None` if tombstoned, else its value at the latest promotion. |
| Session.SessionStep | har2requests/__init__.py:108-116 | One forward step turns the snapshot at `i - 1` and its counters into the snapshot at `i` and its counters. |
| Session.SessionHeaders | har2requests/__init__.py:95-117 | There are exactly `len(requests)` snapshots. In snapshot `i`, `k` is a key iff it was promoted at or before `i`. Its value is `None` iff some step since its last promotion tombstoned it, else its value at that promotion. Key sets never shrink from `i` to `i + 1`. |
| Session.SnapshotPromoted | har2requests/__init__.py:109-116 | A key promoted at `i` maps to request `i`'s value in snapshot `i`. |
| Session.SnapshotKeysGrow | har2requests/__init__.py:107-116 | Every key of snapshot `i` is a key of snapshot `i + 1`. |
| Session.TombstoneCause | har2requests/__init__.py:111-115 | A key that is `None` at `i` but not at `i - 1` is absent from request `i`, and `2 * count[k] < n - i` there. |
| Utils.Intersection | har2requests/utils.py:4-6 | It keeps exactly the keys of `a` that are in `b` with an equal value. Values come from `a`, in `a`'s order. |
| Utils.IntersectionSelf | har2requests/utils.py:4-6 | The intersection of a dict with itself is the dict. |
| Utils.ChangedPart | har2requests/utils.py:12 | The keys of `b` that are missing or different in `a`, with `b`'s values, in `b`'s order (a subsequence of `b`). |
| Utils.RemovedPart | har2requests/utils.py:13 | The keys of `a` with a non-`None` value and no entry in `b`, each mapped to `None`, in `a`'s key order. |
| Utils.Change | har2requests/utils.py:9-14 | Keys are exactly those of the two parts. Their values come from `b`, or are `None` for keys `b` lacks. |
| Utils.ChangePartsDisjoint | har2requests/utils.py:11-14 | The two parts have disjoint keys, so the merge is their concatenation. So the changed keys come first in `b`'s order, then the removed keys in `a`'s order. |
| Utils.ChangeSelf | har2requests/utils.py:9-14 | `dict_change(a, a)` is empty. |
| Utils.ChangeApply | har2requests/utils.py:9-14 | Updating `a` with `dict_change(a, b)` agrees with `b` on `b`'s keys, and gives `None` on `a`'s other keys. |
| Utils.Delete | har2requests/utils.py:17-19 | The keys of `a` not in `b`, each once, in `a`'s order. |
| Utils.JsonDfsExact | har2requests/utils.py:22-30 | `(path, leaf)` is yielded iff the path is non-empty, the leaf is not a dict, and following the path from `d` reaches it. No path is yielded twice, so there is one pair per leaf. |
| Utils.DfsSound | har2requests/utils.py:25-30 | Every yielded pair has a non-empty path starting at one of the keys visited, a non-dict leaf, and a path leading to that leaf. |
| Utils.DfsComplete | har2requests/utils.py:25-30 | Every path to a non-dict leaf is yielded. |
| Utils.JsonDfs | har2requests/utils.py:23-24 | `json_dfs(None)` yields nothing. |
| Utils.JsonDfsOrder | har2requests/utils.py:25-30 | The pairs come in depth-first key order. List the entry positions along each path: an earlier pair's list is lexicographically before a later pair's. |
| Utils.DfsOrdered | har2requests/utils.py:25-30 | From entry `i` on, the yielded pairs come in lexicographic order of their entry positions. |
| PyDict.Merge | har2requests/utils.py:11-14 | `{**a, **b}` has the lookup view of `a` overridden by `b`. For disjoint keys it is `a` followed by `b`. |
| PyDict.Set | har2requests/request.py:78 | `d[k] = v` overwrites in place for a present key and appends a new one. |
| Request.DictFromHar | har2requests/request.py:76-78 | The keys are exactly the record names, deduplicated in first-occurrence order, and the last record with a name gives its value. |
| Request.ProcessHeaders | har2requests/request.py:81-85 | The result never has the exact keys `Content-Type` or `Content-Length`. Every other key is kept with its value, in order. The argument is a value and is not changed. |
| Request.DumpHeaders | har2requests/request.py:92-96 | The keys are exactly those of `dict_change(base_headers, self.headers)`, in its order. A value bound in `header_to_variable` becomes that variable, every other value is unchanged, and `None` stays literal. |
| Request.DumpHeadersDefaults | har2requests/request.py:87-92 | With both defaults, the diff is every header of the request, literally, in order. |

## Left out

- I/O and the command line are not part of this model: `main`, click, `json.load`, the `black` subprocess, printing, `Request.from_json`, `dateutil`, warnings, and the timestamp sort. The requests are assumed already ordered.
- The `tqdm` progress bar and the stderr message of `infer_headers_origin` are plain iteration and a no-op.
- The `lru_cache` on `_match_wrapped` is a memo of a pure function and is modelled as the function itself.
- `Variable.__repr__` and the code printing in `dump` after the header diff are left out.
- Floats are not used. `MATCH_FRACTION_THRESHOLD = 0.5` appears only as the exact integer comparisons above.
- StringAlg.LongestCommonSubstring: the value is stated only when neither `a` nor `b` contains `chr(0)`. The code joins the two strings with `chr(0)` as separator. A NUL inside either string makes that separator ambiguous, and the code can then return more than the longest common substring. For `a = "\0"`, `b = ""`, the joined string is `"\0\0"` and the result is 1, while the true value is 0. Only the error case is stated for such inputs.
- Matching.MatchWrapped: the truth value is stated only for strings without `chr(0)`, for the reason given for `StringAlg.LongestCommonSubstring`. For other strings only the error case (an empty header) is stated.
- Matching.MatchCompute: agrees with the reference `Match` only for strings without `chr(0)`. With a NUL inside, the separator is ambiguous, and only the two size guards are stated.
- HeaderOrigin.HeadersOrigin: states `match` as `Accepted` (the size guards, and the match itself for NUL-free strings). Completeness is stated for NUL-free matches (`Wanted`) only.
- HeaderOrigin.HeadersOrigin: the order of the bindings inside one response's list is not characterized. `header_to_variable` stays internal and is not returned.
- HeaderOrigin.HeadersOrigin: `base_headers` is taken as the set of its keys, since only `header_key in base_headers` is read.
- Utils.JsonDfs: JSON numbers are integers and floats are not modelled. The generator is modelled as the sequence it yields. Its order is stated by `Utils.JsonDfsOrder`. The consumer in `main` that keeps the first qualifying leaf is part of the command line, which is left out.
- Request.DumpHeaders: `base_headers` values are `Option<string>`, so that a `None` in a session snapshot is a value. The `v in header_to_variable` test is false for `None`, as in the code.
- Request.DumpHeadersDefaults: the `None` defaults for `base_headers` and `header_to_variable` are modelled as the empty dict and map they become.
- setup.py is packaging only and is not part of this model.
