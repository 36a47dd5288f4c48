/**
 * The camera part of the tutorial's quad layer: each rendered frame claims the
 * newest camera frame if there is one, converts it once to the swapchain's
 * byte order and caches it; the cached frame is uploaded on every frame until
 * a newer one arrives, and the image is cleared while nothing has been cached.
 */
module Compositor {
  import opened Native
  import opened Pixels
  import opened Capture

  /** What the layer does with the quad swapchain image. */
  datatype Render = Upload(pixels: seq<byte>, width: uint32, height: uint32) | Clear

  class Camera2Tutorial {
    const camera: Camera2Capture
    var cachedFrame: array<byte>
    var cachedWidth: uint32
    var cachedHeight: uint32
    var hasCachedFrame: bool
    var cachedIsBgra: bool
    /** The frame as the camera handed it over, before any byte swap. */
    ghost var claimedFrame: seq<byte>

    /**
     * The cache holds the claimed frame, swapped exactly when it is marked
     * blue-first, in an array of its own, so the camera's image callback
     * never writes into it.
     */
    ghost predicate Valid()
      reads this, cachedFrame, camera
    {
      cachedFrame != camera.latestRgba
      && (hasCachedFrame ==> cachedFrame[..] == if cachedIsBgra then Swizzled(claimedFrame) else claimedFrame)
    }

    constructor ()
      ensures Valid() && fresh(camera) && !camera.running && !camera.hasFrame
      ensures !hasCachedFrame && !cachedIsBgra && cachedWidth == 0 && cachedHeight == 0
    {
      camera := new Camera2Capture();
      cachedFrame := new byte[0];
      cachedWidth, cachedHeight := 0, 0;
      hasCachedFrame, cachedIsBgra := false, false;
      claimedFrame := [];
    }

    /**
     * Claims the newest camera frame, if any, into the cache, swapping red and
     * blue when the swapchain is blue-first. A frame already in the cache is
     * never swapped again.
     */
    method ClaimFrame(swapchainFormat: int)
      requires Valid()
      modifies this`cachedFrame, this`cachedWidth, this`cachedHeight, this`hasCachedFrame
      modifies this`cachedIsBgra, this`claimedFrame, camera`hasFrame
      ensures Valid()
      ensures camera.hasFrame == (old(camera.hasFrame) && !old(camera.running))
      ensures old(camera.running && camera.hasFrame) ==>
        fresh(cachedFrame) && hasCachedFrame && claimedFrame == old(camera.latestRgba[..])
        && cachedWidth == camera.outputWidth && cachedHeight == camera.outputHeight
        && cachedIsBgra == IsBgraFormat(swapchainFormat)
      ensures !old(camera.running && camera.hasFrame) ==>
        cachedFrame == old(cachedFrame) && cachedFrame[..] == old(cachedFrame[..])
        && cachedWidth == old(cachedWidth) && cachedHeight == old(cachedHeight)
        && hasCachedFrame == old(hasCachedFrame) && cachedIsBgra == old(cachedIsBgra)
        && claimedFrame == old(claimedFrame)
    {
      var ok, frame, frameWidth, frameHeight := camera.GetLatestFrame([], 0, 0);
      if !ok {
        return;
      }
      var buffer := ArrayOf(frame);
      if IsBgraFormat(swapchainFormat) {
        SwizzleRgbaToBgra(buffer);
      }
      cachedFrame := buffer;
      cachedWidth, cachedHeight := frameWidth, frameHeight;
      hasCachedFrame := true;
      cachedIsBgra := IsBgraFormat(swapchainFormat);
      claimedFrame := frame;
    }

    /**
     * One quad-layer frame: claims the newest camera frame if there is one,
     * then uploads the cached frame, or clears the image when nothing has
     * been cached yet.
     */
    method RenderLayer(swapchainFormat: int) returns (action: Render)
      requires Valid()
      modifies this`cachedFrame, this`cachedWidth, this`cachedHeight, this`hasCachedFrame
      modifies this`cachedIsBgra, this`claimedFrame, camera`hasFrame
      ensures Valid()
      ensures camera.hasFrame == (old(camera.hasFrame) && !old(camera.running))
      ensures old(camera.running && camera.hasFrame) ==>
        fresh(cachedFrame) && hasCachedFrame && claimedFrame == old(camera.latestRgba[..])
        && cachedWidth == camera.outputWidth && cachedHeight == camera.outputHeight
        && cachedIsBgra == IsBgraFormat(swapchainFormat)
      ensures !old(camera.running && camera.hasFrame) ==>
        cachedFrame == old(cachedFrame) && cachedFrame[..] == old(cachedFrame[..])
        && cachedWidth == old(cachedWidth) && cachedHeight == old(cachedHeight)
        && hasCachedFrame == old(hasCachedFrame) && cachedIsBgra == old(cachedIsBgra)
        && claimedFrame == old(claimedFrame)
      ensures action == if hasCachedFrame then Upload(cachedFrame[..], cachedWidth, cachedHeight) else Clear
    {
      ClaimFrame(swapchainFormat);
      if hasCachedFrame {
        action := Upload(cachedFrame[..], cachedWidth, cachedHeight);
      } else {
        action := Clear;
      }
    }
  }

  /** A fresh array holding `s`, as moving a vector into the cache does. */
  method ArrayOf(s: seq<byte>) returns (a: array<byte>)
    ensures fresh(a) && a[..] == s
  {
    a := new byte[|s|](i requires 0 <= i < |s| => s[i]);
  }

  /**
   * What is uploaded for a blue-first swapchain is the claimed frame with red
   * and blue traded in every pixel, and swapping it back gives the frame the
   * camera produced.
   */
  lemma UploadedBgra(t: Camera2Tutorial, pixels: seq<byte>)
    requires t.Valid() && t.hasCachedFrame && t.cachedIsBgra
    requires pixels == t.cachedFrame[..]
    ensures |pixels| == |t.claimedFrame|
    ensures forall k :: 0 <= k && 4 * k + 3 < |pixels| ==>
      pixels[4 * k] == t.claimedFrame[4 * k + 2] && pixels[4 * k + 2] == t.claimedFrame[4 * k]
      && pixels[4 * k + 1] == t.claimedFrame[4 * k + 1] && pixels[4 * k + 3] == t.claimedFrame[4 * k + 3]
    ensures Swizzled(pixels) == t.claimedFrame
  {
    SwizzleSwapsGroups(t.claimedFrame);
    SwizzleInvolution(t.claimedFrame);
  }
}
