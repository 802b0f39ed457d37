/**
 * The BGR -> RGB conversion the loader applies to the pixel buffer: within
 * every whole 3-byte pixel the first and third bytes change places.
 */
module Pixels {
  import opened Stdio

  /** The converted buffer; a trailing partial pixel, if any, is left as it is. */
  function SwapRedBlue(s: seq<byte>): (r: seq<byte>)
    ensures |r| == |s|
  {
    if |s| < 3 then s else [s[2], s[1], s[0]] + SwapRedBlue(s[3..])
  }

  /** Pixel `k` of `cur` is pixel `k` of `orig` with its first and third bytes exchanged. */
  ghost predicate PixelSwapped(cur: seq<byte>, orig: seq<byte>, k: nat)
  {
    3 * k + 2 < |cur| && 3 * k + 2 < |orig| &&
    cur[3 * k] == orig[3 * k + 2] && cur[3 * k + 1] == orig[3 * k + 1] && cur[3 * k + 2] == orig[3 * k]
  }

  /** Pixel `k` of a converted buffer is pixel `k` of the input with red and blue exchanged. */
  lemma {:induction false} SwapRedBluePixel(s: seq<byte>, k: nat)
    requires 3 * k + 2 < |s|
    ensures SwapRedBlue(s)[3 * k] == s[3 * k + 2]
    ensures SwapRedBlue(s)[3 * k + 1] == s[3 * k + 1]
    ensures SwapRedBlue(s)[3 * k + 2] == s[3 * k]
  {
    if k > 0 {
      SwapRedBluePixel(s[3..], k - 1);
    }
  }

  /** Every whole pixel of a converted buffer has red and blue exchanged. */
  lemma SwapRedBlueAllPixels(s: seq<byte>)
    ensures forall k: nat :: 3 * k + 2 < |s| ==> PixelSwapped(SwapRedBlue(s), s, k)
  {
    forall k: nat | 3 * k + 2 < |s|
      ensures PixelSwapped(SwapRedBlue(s), s, k)
    {
      SwapRedBluePixel(s, k);
    }
  }

  /** Converting twice gives back the original buffer. */
  lemma {:induction false} SwapRedBlueInvolution(s: seq<byte>)
    ensures SwapRedBlue(SwapRedBlue(s)) == s
  {
    if |s| >= 3 {
      var r := SwapRedBlue(s);
      assert r[3..] == SwapRedBlue(s[3..]);
      SwapRedBlueInvolution(s[3..]);
      assert s == s[..3] + s[3..];
    }
  }

  /** The conversion only moves bytes around: the result is a permutation of the input. */
  lemma {:induction false} SwapRedBluePermutes(s: seq<byte>)
    ensures multiset(SwapRedBlue(s)) == multiset(s)
  {
    if |s| >= 3 {
      var rest := s[3..];
      SwapRedBluePermutes(rest);
      assert SwapRedBlue(s) == [s[2], s[1], s[0]] + SwapRedBlue(rest);
      assert s == [s[0], s[1], s[2]] + rest;
      calc {
        multiset(SwapRedBlue(s));
        multiset([s[2], s[1], s[0]]) + multiset(SwapRedBlue(rest));
        multiset([s[0], s[1], s[2]]) + multiset(rest);
        multiset(s);
      }
    }
  }

  /**
   * The swap loop: `for (i = 0; i < size; i += 3)` exchanging bytes `i` and
   * `i + 2` through a temporary, in place. The loop stays inside the buffer
   * only when the length is a whole number of pixels.
   */
  method SwapRedBlueInPlace(a: array<byte>)
    requires a.Length % 3 == 0
    modifies a
    ensures a[..] == SwapRedBlue(old(a[..]))
  {
    ghost var was := a[..];
    ghost var done: nat := 0;
    var i := 0;
    while i < a.Length
      invariant i == 3 * done <= a.Length
      invariant forall k :: 0 <= k < done ==> PixelSwapped(a[..], was, k)
      invariant forall j :: i <= j < a.Length ==> a[j] == was[j]
    {
      ghost var before := a[..];
      var temp := a[i];
      a[i] := a[i + 2];
      a[i + 2] := temp;
      forall k | 0 <= k < done
        ensures PixelSwapped(a[..], was, k)
      {
        assert PixelSwapped(before, was, k);
      }
      assert PixelSwapped(a[..], was, done);
      i, done := i + 3, done + 1;
    }
    forall j | 0 <= j < a.Length
      ensures a[..][j] == SwapRedBlue(was)[j]
    {
      var k := j / 3;
      assert PixelSwapped(a[..], was, k);
      SwapRedBluePixel(was, k);
    }
  }
}
