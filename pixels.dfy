/**
 * Byte-level helpers of the camera tutorial: clamping a colour channel into a
 * byte, recognising the blue-first swapchain formats, and the in-place red/blue
 * swap of a packed 4-byte-per-pixel buffer.
 */
module Pixels {

  type byte = x: int | 0 <= x < 256

  /** Vulkan format codes VK_FORMAT_B8G8R8A8_UNORM and VK_FORMAT_B8G8R8A8_SRGB. */
  const VkFormatB8G8R8A8Unorm: int := 44
  const VkFormatB8G8R8A8Srgb: int := 50

  /** Saturating conversion of a channel value to a byte. */
  function ClampToByte(value: int): (r: byte)
    ensures 0 <= value <= 255 ==> r == value
    ensures value < 0 ==> r == 0
    ensures value > 255 ==> r == 255
  {
    if value < 0 then 0 else if value > 255 then 255 else value
  }

  /** The swapchain stores blue in the first byte of each pixel. */
  predicate IsBgraFormat(format: int)
  {
    format == VkFormatB8G8R8A8Unorm || format == VkFormatB8G8R8A8Srgb
  }

  /**
   * The buffer after the red/blue swap, byte by byte (see SwizzleSwapsGroups
   * and SwizzleKeepsTail for what it does to each group).
   */
  function Swizzled(s: seq<byte>): (r: seq<byte>)
    ensures |r| == |s|
  {
    seq(|s|, i requires 0 <= i < |s| => SwizzledAt(s, i))
  }

  /** In every complete 4-byte group, bytes 0 and 2 trade places and bytes 1 and 3 stay. */
  lemma SwizzleSwapsGroups(s: seq<byte>)
    ensures forall k :: 0 <= k && 4 * k + 3 < |s| ==>
      Swizzled(s)[4 * k] == s[4 * k + 2] && Swizzled(s)[4 * k + 1] == s[4 * k + 1] &&
      Swizzled(s)[4 * k + 2] == s[4 * k] && Swizzled(s)[4 * k + 3] == s[4 * k + 3]
  {
    forall k | 0 <= k && 4 * k + 3 < |s|
      ensures Swizzled(s)[4 * k] == s[4 * k + 2] && Swizzled(s)[4 * k + 1] == s[4 * k + 1]
      ensures Swizzled(s)[4 * k + 2] == s[4 * k] && Swizzled(s)[4 * k + 3] == s[4 * k + 3]
    {
      SwizzledAtGroup(s, k);
    }
  }

  /** A trailing partial group is left as it was. */
  lemma SwizzleKeepsTail(s: seq<byte>)
    ensures forall i :: 4 * (|s| / 4) <= i < |s| ==> Swizzled(s)[i] == s[i]
  {
    forall i | 4 * (|s| / 4) <= i < |s| ensures Swizzled(s)[i] == s[i] {
      SwizzledAtTail(s, i);
    }
  }

  /** Byte `i` after the swap. */
  function SwizzledAt(s: seq<byte>, i: nat): byte
    requires i < |s|
  {
    var g := i / 4;
    if 4 * g + 3 < |s| && i == 4 * g then s[i + 2]
    else if 4 * g + 3 < |s| && i == 4 * g + 2 then s[i - 2]
    else s[i]
  }

  lemma SwizzledAtGroup(s: seq<byte>, k: nat)
    requires 4 * k + 3 < |s|
    ensures SwizzledAt(s, 4 * k) == s[4 * k + 2] && SwizzledAt(s, 4 * k + 1) == s[4 * k + 1]
    ensures SwizzledAt(s, 4 * k + 2) == s[4 * k] && SwizzledAt(s, 4 * k + 3) == s[4 * k + 3]
  {
    GroupOf(4 * k, k);
    GroupOf(4 * k + 1, k);
    GroupOf(4 * k + 2, k);
    GroupOf(4 * k + 3, k);
  }

  lemma SwizzledAtTail(s: seq<byte>, i: nat)
    requires 4 * (|s| / 4) <= i < |s|
    ensures SwizzledAt(s, i) == s[i]
  {
    var n := |s| / 4;
    assert |s| < 4 * n + 4;
    GroupOf(i, n);
  }

  lemma GroupOf(i: int, k: int)
    requires 0 <= k && 4 * k <= i < 4 * k + 4
    ensures i / 4 == k
  {
  }

  /** Swapping twice restores the buffer. */
  lemma SwizzleInvolution(s: seq<byte>)
    ensures Swizzled(Swizzled(s)) == s
  {
    var r := Swizzled(s);
    forall i | 0 <= i < |s| ensures Swizzled(r)[i] == s[i] {
      SwizzledTwiceAt(s, r, i);
    }
  }

  lemma SwizzledTwiceAt(s: seq<byte>, r: seq<byte>, i: nat)
    requires r == Swizzled(s) && i < |s|
    ensures SwizzledAt(r, i) == s[i]
  {
    var k := i / 4;
    if 4 * k + 3 < |s| {
      SwizzledAtGroup(s, k);
      SwizzledAtGroup(r, k);
      GroupOf(i, k);
    } else {
      SwizzledAtTail(s, i);
      SwizzledAtTail(r, i);
    }
  }

  /** In-place red/blue swap over every complete 4-byte group. */
  method SwizzleRgbaToBgra(rgba: array<byte>)
    modifies rgba
    ensures rgba[..] == Swizzled(old(rgba[..]))
  {
    ghost var before := rgba[..];
    var i := 0;
    while i + 3 < rgba.Length
      invariant i % 4 == 0 && i <= rgba.Length
      invariant forall k :: 0 <= k < i ==> rgba[k] == SwizzledAt(before, k)
      invariant forall k :: i <= k < rgba.Length ==> rgba[k] == before[k]
    {
      SwizzledAtGroup(before, i / 4);
      rgba[i], rgba[i + 2] := rgba[i + 2], rgba[i];
      i := i + 4;
    }
    forall k | i <= k < rgba.Length ensures rgba[k] == SwizzledAt(before, k) {
      SwizzledAtTail(before, k);
    }
    assert rgba[..] == seq(|before|, k requires 0 <= k < |before| => SwizzledAt(before, k));
  }
}
