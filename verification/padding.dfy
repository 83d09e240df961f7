/**
 `s.replace(/(?:00)*$/, '')` on the signature placeholder text. Without the
 `g` flag only the leftmost match is replaced; the leftmost offset from which
 the rest of the string is a whole number of `"00"` pairs is where the longest
 such suffix starts, so the strip removes that suffix.
 */
module Padding {

  predicate AllZeros(s: string) {
    forall k :: 0 <= k < |s| ==> s[k] == '0'
  }

  /** `s` is matched entirely by `(?:00)*`. */
  predicate IsZeroPairs(s: string) {
    |s| % 2 == 0 && AllZeros(s)
  }

  /** Two runs of zero pairs make one. */
  lemma ZeroPairsConcat(a: string, b: string)
    requires IsZeroPairs(a) && IsZeroPairs(b)
    ensures IsZeroPairs(a + b)
  {
    forall k | 0 <= k < |a + b|
      ensures (a + b)[k] == '0'
    {
      if k < |a| {
        assert (a + b)[k] == a[k];
      } else {
        assert (a + b)[k] == b[k - |a|];
      }
    }
  }

  /** `n` pairs of `"00"`: the padding a signer leaves in the placeholder. */
  function ZeroPairs(n: nat): (z: string)
    ensures IsZeroPairs(z) && |z| == 2 * n
  {
    seq(2 * n, _ => '0')
  }

  predicate EndsWithZeroPair(s: string) {
    |s| >= 2 && s[|s| - 2] == '0' && s[|s| - 1] == '0'
  }

  /** The leftmost offset at or after `i` where `(?:00)*$` matches. */
  function PadStart(s: string, i: nat): (p: nat)
    requires i <= |s|
    decreases |s| - i
    ensures i <= p <= |s|
    ensures IsZeroPairs(s[p..])
    ensures forall q :: i <= q < p ==> !IsZeroPairs(s[q..])
  {
    if IsZeroPairs(s[i..]) then i else PadStart(s, i + 1)
  }

  /** The strip keeps a prefix and removes only whole `"00"` pairs. */
  function StripZeroPairs(s: string): (r: string)
    ensures |r| <= |s| && r == s[..|r|]
    ensures IsZeroPairs(s[|r|..])
  {
    s[..PadStart(s, 0)]
  }

  /** The number of `'0'` characters that end `s[..n]`. */
  function ZerosBefore(s: string, n: nat): (k: nat)
    requires n <= |s|
    ensures k <= n
    ensures forall i :: n - k <= i < n ==> s[i] == '0'
    ensures k < n ==> s[n - k - 1] != '0'
  {
    if n > 0 && s[n - 1] == '0' then ZerosBefore(s, n - 1) + 1 else 0
  }

  /** The number of `'0'` characters `s` ends with. */
  function TrailingZeros(s: string): (k: nat)
    ensures k <= |s|
    ensures AllZeros(s[|s| - k..])
    ensures k < |s| ==> s[|s| - k - 1] != '0'
  {
    ZerosBefore(s, |s|)
  }

  /** The leftmost matching offset is characterised by the two properties
      `PadStart` promises. */
  lemma PadStartUnique(s: string, p: nat)
    requires p <= |s| && IsZeroPairs(s[p..])
    requires forall q :: 0 <= q < p ==> !IsZeroPairs(s[q..])
    ensures PadStart(s, 0) == p
  {
  }

  /** A `"00"` in front of a run of zero pairs extends the run. */
  lemma ZeroPairsExtend(s: string, p: nat)
    requires 2 <= p <= |s| && s[p - 2] == '0' && s[p - 1] == '0'
    requires IsZeroPairs(s[p..])
    ensures IsZeroPairs(s[p - 2..])
  {
    assert s[p - 2..] == [s[p - 2], s[p - 1]] + s[p..];
  }

  /** Nothing strippable is left behind: the result never ends in `"00"`. */
  lemma StripLeavesNoZeroPair(s: string)
    ensures !EndsWithZeroPair(StripZeroPairs(s))
  {
    var p := PadStart(s, 0);
    if p >= 2 && s[p - 2] == '0' && s[p - 1] == '0' {
      ZeroPairsExtend(s, p);
    }
  }

  /** Stripping undoes padding: zero pairs appended to a text that does not
      end in `"00"` are removed again, and nothing else is. */
  lemma StripOfPadded(a: string, z: string)
    requires IsZeroPairs(z) && !EndsWithZeroPair(a)
    ensures StripZeroPairs(a + z) == a
  {
    var s := a + z;
    assert s[|a|..] == z;
    forall q | 0 <= q < |a|
      ensures !IsZeroPairs(s[q..])
    {
      if q <= |a| - 2 {
        assert s[q..][|a| - 2 - q] == a[|a| - 2];
        assert s[q..][|a| - 1 - q] == a[|a| - 1];
      } else {
        assert |s[q..]| == |z| + 1;
      }
    }
    PadStartUnique(s, |a|);
    assert s[..|a|] == a;
  }

  /** Stripping twice is stripping once. */
  lemma StripIdempotent(s: string)
    ensures StripZeroPairs(StripZeroPairs(s)) == StripZeroPairs(s)
  {
    var r := StripZeroPairs(s);
    StripLeavesNoZeroPair(s);
    StripOfPadded(r, []);
    assert r + [] == r;
  }

  /** A run of zeros over `[m, n)` is counted by `ZerosBefore`. */
  lemma {:induction false} ZerosBeforeAtLeast(s: string, n: nat, m: nat)
    requires m <= n <= |s|
    requires forall i :: m <= i < n ==> s[i] == '0'
    ensures ZerosBefore(s, n) >= n - m
    decreases n
  {
    if m < n {
      ZerosBeforeAtLeast(s, n - 1, m);
    }
  }

  /** Of the `k` zeros a string ends with, the strip removes `2 * (k / 2)`:
      an even number `d` with `d <= k < d + 2`, so all of them when `k` is
      even and all but one when `k` is odd. */
  lemma StripDropsEvenShareOfTrailingZeros(s: string)
    ensures var d := |s| - |StripZeroPairs(s)|;
            d % 2 == 0 && d <= TrailingZeros(s) < d + 2
  {
    var k := TrailingZeros(s);
    var r := StripZeroPairs(s);
    var p := |r|;
    forall i | p <= i < |s|
      ensures s[i] == '0'
    {
      assert s[p..][i - p] == s[i];
    }
    ZerosBeforeAtLeast(s, |s|, p);
    if k >= |s| - p + 2 {
      assert s[|s| - k..][p - 2 - (|s| - k)] == s[p - 2];
      assert s[|s| - k..][p - 1 - (|s| - k)] == s[p - 1];
      StripLeavesNoZeroPair(s);
    }
  }

}
