/**
 The two `Buffer` operations the extractor relies on, with Node's semantics:
 `indexOf` (first occurrence at or after an offset) and `slice` (offsets are
 truncated into the buffer, negative offsets count from the end, and an end
 at or before the start gives an empty buffer instead of an error).
 */
module NodeBuffer {
  import opened Bytes

  /** `needle` occurs in `hay` starting at offset `p`. */
  predicate OccursAt(hay: seq<byte>, needle: seq<byte>, p: int) {
    0 <= p && p + |needle| <= |hay| && hay[p..p + |needle|] == needle
  }

  /** `hay.indexOf(needle, from)`: the first offset at or after `from` where
      `needle` occurs, or -1 when there is none. */
  function IndexOf(hay: seq<byte>, needle: seq<byte>, from: nat): (r: int)
    decreases |hay| - from
    ensures r == -1 || (from <= r && OccursAt(hay, needle, r))
    ensures r != -1 ==> forall p :: from <= p < r ==> !OccursAt(hay, needle, p)
    ensures r == -1 <==> forall p :: from <= p ==> !OccursAt(hay, needle, p)
  {
    if from + |needle| > |hay| then -1
    else if hay[from..from + |needle|] == needle then from
    else IndexOf(hay, needle, from + 1)
  }

  /** A one-byte needle occurs exactly where that byte is. */
  lemma OccursAtSingle(hay: seq<byte>, b: byte, p: int)
    ensures OccursAt(hay, [b], p) <==> 0 <= p < |hay| && hay[p] == b
  {
    if 0 <= p < |hay| {
      assert hay[p..p + 1] == [hay[p]];
    }
  }

  function Min(a: int, b: int): int { if a <= b then a else b }
  function Max(a: int, b: int): int { if a <= b then b else a }

  /** Node's `adjustOffset` used by `slice`/`subarray`. */
  function AdjustOffset(offset: int, len: nat): (r: nat)
    ensures r <= len
  {
    if offset == 0 then 0
    else if offset < 0 then (if offset + len > 0 then offset + len else 0)
    else if offset < len then offset
    else len
  }

  /** `buf.slice(start, end)`. */
  function Slice(buf: seq<byte>, start: int, end: int): (r: seq<byte>)
    ensures |r| <= |buf|
    ensures 0 <= start <= end <= |buf| ==> r == buf[start..end]
    ensures 0 <= end <= start ==> r == []
  {
    var a := AdjustOffset(start, |buf|);
    var b := AdjustOffset(end, |buf|);
    if b > a then buf[a..b] else []
  }

  /** With non-negative offsets, `slice` truncates both offsets to the buffer
      length and never yields more than `end - start` bytes. */
  lemma SliceNonNegative(buf: seq<byte>, start: int, end: int)
    requires 0 <= start && 0 <= end
    ensures var a := Min(start, |buf|);
            Slice(buf, start, end) == buf[a..Max(a, Min(end, |buf|))]
    ensures |Slice(buf, start, end)| <= Max(0, end - start)
  {
  }

  /** A negative end counts back from the end of the buffer, so that
      `slice(s, -1)` stops one byte before the end. */
  lemma SliceNegativeEnd(buf: seq<byte>, start: int, end: int)
    requires end < 0
    ensures Slice(buf, start, end) == Slice(buf, start, Max(0, |buf| + end))
  {
  }

}
