/**
 * The header/response matching test of har2requests/__init__.py: a header value
 * is taken to come from a response when more than half of it occurs
 * contiguously in the response text. Every `x / y < 0.5` of the source is
 * stated as `2 * x < y` on integers.
 */
module Matching {
  import opened Wrappers
  import opened CommonSubstring
  import opened StringAlg

  /** How many of the latest eligible responses are searched for a header. */
  const ResponseLookup: nat := 5
  /** Responses longer than this are never searched. */
  const MaxSize: nat := 100000
  /** Headers and responses shorter than this are never matched or searched. */
  const SizeThreshold: nat := 16

  /** `match(header, text)` stated with the reference longest-common-substring length. */
  ghost predicate Match(header: seq<char>, text: seq<char>) {
    && |header| >= SizeThreshold
    && 2 * |text| >= |header|
    && |text| > 0
    && 2 * LongestCommonLength(header, text) > |header|
  }

  /**
   * `_match_wrapped`: the common substring covers more than half of the header.
   * An empty header makes `longest_common_substring` raise first.
   */
  method MatchWrapped(header: seq<char>, text: seq<char>) returns (r: Result<bool>)
    ensures r.Err? <==> |header| == 0
    ensures r.Ok? && NulFree(header) && NulFree(text) ==>
      (r.value <==> 2 * LongestCommonLength(header, text) > |header|)
  {
    var size := LongestCommonSubstring(header, text);
    if size.Err? {
      return Err(size.error);
    }
    return Ok(2 * size.value > |header|);
  }

  /** `match`: the size guards in the source's order, then `_match_wrapped`. */
  method MatchCompute(header: seq<char>, text: seq<char>) returns (m: bool)
    ensures |header| < SizeThreshold ==> !m
    ensures 2 * |text| < |header| ==> !m
    ensures NulFree(header) && NulFree(text) ==> (m <==> Match(header, text))
  {
    if |header| < SizeThreshold {
      return false;
    }
    if 2 * |text| < |header| {
      return false;
    }
    if |text| == 0 {
      return false;
    }
    var w := MatchWrapped(header, text);
    assert w.Ok?;
    return w.value;
  }

  /** The `not text` guard never decides: the length guards already reject an empty text. */
  lemma EmptyTextRejected(header: seq<char>)
    ensures !Match(header, [])
  {
  }

  /** A long enough header matches every response that contains it verbatim. */
  lemma MatchContained(header: seq<char>, text: seq<char>, q: nat)
    requires |header| >= SizeThreshold
    requires q + |header| <= |text| && text[q..q + |header|] == header
    ensures Match(header, text)
  {
    LongestCommonContained(header, text, q);
  }

  /** A match needs a shared substring longer than half the header, and a text at least that long. */
  lemma MatchNeedsOverlap(header: seq<char>, text: seq<char>)
    requires Match(header, text)
    ensures exists p: nat, q: nat, len: nat :: 2 * len > |header| && CommonAt(header, text, p, q, len)
    ensures 2 * |text| > |header|
  {
    var len := LongestCommonLength(header, text);
    var p: nat, q: nat :| CommonAt(header, text, p, q, len);
    LongestCommonBounded(header, text);
  }
}
