/**
 * Device and stream selection of the camera capture engine: which camera to
 * open (by lens facing) and which YUV_420_888 output size to request (nearest
 * to the desired size in L1 distance).
 */
module Selection {
  import opened Native

  /** ACAMERA_LENS_FACING values. */
  const LensFacingFront: int := 0
  const LensFacingBack: int := 1
  const LensFacingExternal: int := 2

  /** ACAMERA_SCALER_AVAILABLE_STREAM_CONFIGURATIONS_OUTPUT. */
  const StreamConfigurationOutput: int := 0

  /** What reading a camera's characteristics yields. */
  datatype Characteristics =
    | Unreadable                 // the characteristics query failed or returned no metadata
    | NoFacing                   // no ACAMERA_LENS_FACING entry, or an empty one
    | Facing(lensFacing: int)    // the first value of the ACAMERA_LENS_FACING entry

  datatype Camera = Camera(id: string, characteristics: Characteristics)

  predicate Readable(c: Camera)
  {
    !c.characteristics.Unreadable?
  }

  /** External cameras score 2, back-facing ones 1, everything else 0. */
  function LensScore(c: Characteristics): (score: nat)
    ensures score <= 2
    ensures score == 2 <==> c == Facing(LensFacingExternal)
    ensures score == 1 <==> c == Facing(LensFacingBack)
  {
    match c
    case Facing(f) =>
      if f == LensFacingExternal then 2 else if f == LensFacingBack then 1 else 0
    case _ => 0
  }

  function Score(c: Camera): nat
  {
    LensScore(c.characteristics)
  }

  // ----- camera choice -----

  /** The selection loop from camera `i` on, with the best score and id found so far. */
  function ScanCameras(cams: seq<Camera>, i: nat, bestScore: int, bestId: string): string
    requires i <= |cams|
    decreases |cams| - i
  {
    if i == |cams| then bestId
    else if !Readable(cams[i]) then ScanCameras(cams, i + 1, bestScore, bestId)
    else if Score(cams[i]) > bestScore then ScanCameras(cams, i + 1, Score(cams[i]), cams[i].id)
    else ScanCameras(cams, i + 1, bestScore, bestId)
  }

  /** The id the selection returns, including the fall-back to the first camera. */
  function SelectedCameraId(cams: seq<Camera>): string
  {
    var best := ScanCameras(cams, 0, -1, "");
    if best == "" && |cams| > 0 then cams[0].id else best
  }

  /**
   * Camera `k` is readable, has the highest score among readable cameras, and
   * every readable camera before it scores strictly less.
   */
  ghost predicate IsBestCamera(cams: seq<Camera>, k: int)
  {
    BestAmong(cams, |cams|, k)
  }

  /** `IsBestCamera` for the first `n` cameras. */
  ghost predicate BestAmong(cams: seq<Camera>, n: nat, k: int)
  {
    0 <= k < n <= |cams| && Readable(cams[k])
    && (forall j :: 0 <= j < n && Readable(cams[j]) ==> Score(cams[j]) <= Score(cams[k]))
    && (forall j :: 0 <= j < k && Readable(cams[j]) ==> Score(cams[j]) < Score(cams[k]))
  }

  method SelectCameraId(cams: seq<Camera>) returns (bestId: string)
    ensures bestId == SelectedCameraId(cams)
  {
    bestId := "";
    var bestScore: int := -1;
    var i := 0;
    while i < |cams|
      invariant i <= |cams|
      invariant ScanCameras(cams, i, bestScore, bestId) == ScanCameras(cams, 0, -1, "")
    {
      if Readable(cams[i]) {
        var lensScore := Score(cams[i]);
        if lensScore > bestScore {
          bestScore := lensScore;
          bestId := cams[i].id;
        }
      }
      i := i + 1;
    }
    if bestId == "" && |cams| > 0 {
      bestId := cams[0].id;
    }
  }

  /** Once every remaining readable camera scores at most the best, the best id is kept. */
  lemma {:induction false} ScanKeepsBest(cams: seq<Camera>, i: nat, bestScore: int, bestId: string)
    requires i <= |cams|
    requires forall j :: i <= j < |cams| && Readable(cams[j]) ==> Score(cams[j]) <= bestScore
    ensures ScanCameras(cams, i, bestScore, bestId) == bestId
    decreases |cams| - i
  {
    if i < |cams| {
      ScanKeepsBest(cams, i + 1, bestScore, bestId);
    }
  }

  lemma {:induction false} ScanFindsBest(cams: seq<Camera>, k: nat, i: nat, bestScore: int, bestId: string)
    requires IsBestCamera(cams, k) && i <= k
    requires bestScore < Score(cams[k])
    ensures ScanCameras(cams, i, bestScore, bestId) == cams[k].id
    decreases k - i
  {
    if i == k {
      ScanKeepsBest(cams, k + 1, Score(cams[k]), cams[k].id);
    } else if !Readable(cams[i]) {
      ScanFindsBest(cams, k, i + 1, bestScore, bestId);
    } else if Score(cams[i]) > bestScore {
      ScanFindsBest(cams, k, i + 1, Score(cams[i]), cams[i].id);
    } else {
      ScanFindsBest(cams, k, i + 1, bestScore, bestId);
    }
  }

  /** The best of the first `n` cameras, or -1 when none of them is readable. */
  lemma {:induction false} BestCameraExists(cams: seq<Camera>, n: nat) returns (k: int)
    requires n <= |cams|
    ensures k == -1 ==> forall j :: 0 <= j < n ==> !Readable(cams[j])
    ensures k != -1 ==> BestAmong(cams, n, k)
  {
    if n == 0 {
      return -1;
    }
    k := BestCameraExists(cams, n - 1);
    if Readable(cams[n - 1]) && (k == -1 || Score(cams[n - 1]) > Score(cams[k])) {
      k := n - 1;
    }
  }

  /**
   * The chosen camera: the earliest readable one with the highest lens score;
   * the first listed camera when none is readable (or when the best one has an
   * empty id); the empty id only for an empty list or an empty first id.
   */
  lemma SelectedCameraIdChoice(cams: seq<Camera>)
    ensures |cams| == 0 ==> SelectedCameraId(cams) == ""
    ensures (forall j :: 0 <= j < |cams| ==> !Readable(cams[j])) && |cams| > 0 ==>
      SelectedCameraId(cams) == cams[0].id
    ensures forall k :: IsBestCamera(cams, k) ==>
      SelectedCameraId(cams) == if cams[k].id == "" then cams[0].id else cams[k].id
    ensures (exists j :: 0 <= j < |cams| && Readable(cams[j])) ==> exists k :: IsBestCamera(cams, k)
    ensures (forall j :: 0 <= j < |cams| ==> cams[j].id != "") ==>
      (SelectedCameraId(cams) == "" <==> |cams| == 0)
  {
    var k := BestCameraExists(cams, |cams|);
    if k == -1 {
      ScanKeepsBest(cams, 0, -1, "");
    } else {
      assert IsBestCamera(cams, k);
      ScanFindsBest(cams, k, 0, -1, "");
      forall k' | IsBestCamera(cams, k') ensures k' == k {
        assert !(k' < k) && !(k < k');
      }
    }
  }

  // ----- stream size choice -----

  /** Group `k` of the stream configuration entry is a YUV_420_888 output configuration. */
  predicate IsCandidate(cfg: seq<int32>, k: nat)
  {
    4 * k + 3 < |cfg| && cfg[4 * k] == ImageFormatYuv420888 && cfg[4 * k + 3] == StreamConfigurationOutput
  }

  /** L1 distance of group `k`'s size from the desired size. */
  function SizeScore(cfg: seq<int32>, k: nat, desiredW: int, desiredH: int): nat
    requires 4 * k + 3 < |cfg|
  {
    Abs(cfg[4 * k + 1] - desiredW) + Abs(cfg[4 * k + 2] - desiredH)
  }

  /**
   * The stream size loop from group `k` on, with the best score and the
   * recorded camera size so far.
   */
  function ScanSizes(cfg: seq<int32>, desiredW: int, desiredH: int, k: nat, bestScore: int, w: uint32, h: uint32)
    : (uint32, uint32)
    decreases |cfg| - 4 * k
  {
    if 4 * k + 3 >= |cfg| then (w, h)
    else if !IsCandidate(cfg, k) then ScanSizes(cfg, desiredW, desiredH, k + 1, bestScore, w, h)
    else if SizeScore(cfg, k, desiredW, desiredH) < bestScore then
      ScanSizes(cfg, desiredW, desiredH, k + 1, SizeScore(cfg, k, desiredW, desiredH),
                U32(cfg[4 * k + 1]), U32(cfg[4 * k + 2]))
    else ScanSizes(cfg, desiredW, desiredH, k + 1, bestScore, w, h)
  }

  /**
   * Group `k` is a candidate whose score beats INT32_MAX, no candidate scores
   * less, and every earlier candidate scores more.
   */
  ghost predicate IsBestSize(cfg: seq<int32>, desiredW: int, desiredH: int, k: nat)
  {
    IsCandidate(cfg, k) && SizeScore(cfg, k, desiredW, desiredH) < Int32Max
    && (forall j: nat :: IsCandidate(cfg, j) ==> SizeScore(cfg, j, desiredW, desiredH) >= SizeScore(cfg, k, desiredW, desiredH))
    && (forall j: nat :: j < k && IsCandidate(cfg, j) ==>
          SizeScore(cfg, j, desiredW, desiredH) > SizeScore(cfg, k, desiredW, desiredH))
  }

  lemma {:induction false} ScanSizesKeeps(cfg: seq<int32>, desiredW: int, desiredH: int, k: nat, bestScore: int, w: uint32, h: uint32)
    requires forall j: nat :: k <= j && IsCandidate(cfg, j) ==> SizeScore(cfg, j, desiredW, desiredH) >= bestScore
    ensures ScanSizes(cfg, desiredW, desiredH, k, bestScore, w, h) == (w, h)
    decreases |cfg| - 4 * k
  {
    if 4 * k + 3 < |cfg| {
      ScanSizesKeeps(cfg, desiredW, desiredH, k + 1, bestScore, w, h);
    }
  }

  lemma {:induction false} ScanSizesFinds(cfg: seq<int32>, desiredW: int, desiredH: int, b: nat, k: nat,
                                         bestScore: int, w: uint32, h: uint32)
    requires IsBestSize(cfg, desiredW, desiredH, b) && k <= b
    requires SizeScore(cfg, b, desiredW, desiredH) < bestScore
    ensures ScanSizes(cfg, desiredW, desiredH, k, bestScore, w, h) == (U32(cfg[4 * b + 1]), U32(cfg[4 * b + 2]))
    decreases b - k
  {
    if k == b {
      ScanSizesKeeps(cfg, desiredW, desiredH, b + 1, SizeScore(cfg, b, desiredW, desiredH),
                     U32(cfg[4 * b + 1]), U32(cfg[4 * b + 2]));
    } else if !IsCandidate(cfg, k) {
      ScanSizesFinds(cfg, desiredW, desiredH, b, k + 1, bestScore, w, h);
    } else if SizeScore(cfg, k, desiredW, desiredH) < bestScore {
      ScanSizesFinds(cfg, desiredW, desiredH, b, k + 1, SizeScore(cfg, k, desiredW, desiredH),
                     U32(cfg[4 * k + 1]), U32(cfg[4 * k + 2]));
    } else {
      ScanSizesFinds(cfg, desiredW, desiredH, b, k + 1, bestScore, w, h);
    }
  }

  /**
   * The best of the candidate groups before group `n` that score below
   * INT32_MAX, or -1 when there is none.
   */
  lemma {:induction false} BestSizeAmong(cfg: seq<int32>, desiredW: int, desiredH: int, n: nat) returns (b: int)
    ensures b == -1 ==> forall j: nat :: j < n && IsCandidate(cfg, j) ==> SizeScore(cfg, j, desiredW, desiredH) >= Int32Max
    ensures b != -1 ==> 0 <= b < n && IsCandidate(cfg, b) && SizeScore(cfg, b, desiredW, desiredH) < Int32Max
    ensures b != -1 ==> forall j: nat :: j < n && IsCandidate(cfg, j) ==>
      SizeScore(cfg, j, desiredW, desiredH) >= SizeScore(cfg, b, desiredW, desiredH)
    ensures b != -1 ==> forall j: nat :: j < b && IsCandidate(cfg, j) ==>
      SizeScore(cfg, j, desiredW, desiredH) > SizeScore(cfg, b, desiredW, desiredH)
  {
    if n == 0 {
      return -1;
    }
    b := BestSizeAmong(cfg, desiredW, desiredH, n - 1);
    if IsCandidate(cfg, n - 1) && SizeScore(cfg, n - 1, desiredW, desiredH) < Int32Max
       && (b == -1 || SizeScore(cfg, n - 1, desiredW, desiredH) < SizeScore(cfg, b, desiredW, desiredH))
    {
      b := n - 1;
    }
  }

  /** A best group exists as soon as some candidate scores below INT32_MAX. */
  lemma BestSizeExists(cfg: seq<int32>, desiredW: int, desiredH: int)
    ensures (exists j: nat :: IsCandidate(cfg, j) && SizeScore(cfg, j, desiredW, desiredH) < Int32Max) ==>
      exists b: nat :: IsBestSize(cfg, desiredW, desiredH, b)
  {
    var b := BestSizeAmong(cfg, desiredW, desiredH, |cfg|);
    if b != -1 {
      assert IsBestSize(cfg, desiredW, desiredH, b);
    }
  }

  /**
   * The recorded size is that of the earliest YUV_420_888 output group with
   * the least L1 distance; with no such group (scoring under INT32_MAX) the
   * previously recorded size is kept.
   */
  lemma SelectedSize(cfg: seq<int32>, desiredW: int, desiredH: int, w0: uint32, h0: uint32)
    ensures forall b :: IsBestSize(cfg, desiredW, desiredH, b) ==>
      ScanSizes(cfg, desiredW, desiredH, 0, Int32Max, w0, h0) == (U32(cfg[4 * b + 1]), U32(cfg[4 * b + 2]))
    ensures (forall j: nat :: IsCandidate(cfg, j) ==> SizeScore(cfg, j, desiredW, desiredH) >= Int32Max) ==>
      ScanSizes(cfg, desiredW, desiredH, 0, Int32Max, w0, h0) == (w0, h0)
    ensures (exists j: nat :: IsCandidate(cfg, j) && SizeScore(cfg, j, desiredW, desiredH) < Int32Max) ==>
      exists b: nat :: IsBestSize(cfg, desiredW, desiredH, b)
  {
    BestSizeExists(cfg, desiredW, desiredH);
    forall b | IsBestSize(cfg, desiredW, desiredH, b)
      ensures ScanSizes(cfg, desiredW, desiredH, 0, Int32Max, w0, h0) == (U32(cfg[4 * b + 1]), U32(cfg[4 * b + 2]))
    {
      ScanSizesFinds(cfg, desiredW, desiredH, b, 0, Int32Max, w0, h0);
    }
    if forall j: nat :: IsCandidate(cfg, j) ==> SizeScore(cfg, j, desiredW, desiredH) >= Int32Max {
      ScanSizesKeeps(cfg, desiredW, desiredH, 0, Int32Max, w0, h0);
    }
  }
}
