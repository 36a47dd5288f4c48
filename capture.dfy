/**
 * The capture engine object: its start/stop life cycle over the NDK camera
 * objects, the image callback that converts each accepted image into the
 * packed RGBA buffer, and the single-slot, newest-wins hand-off of that buffer
 * to the render loop. The NDK is replaced by a `Platform` value that says which
 * calls fail and what the cameras report; callbacks run one at a time.
 */
module Capture {
  import opened Native
  import opened Pixels
  import opened Text
  import opened Selection
  import opened Frame

  /** The NDK objects the engine keeps a handle to. */
  datatype Handle =
    | Manager | Reader | Window | Device | Request | Target | SessionOutput | Container | Session

  /** Which of the handles are non-null. */
  datatype Handles = Handles(
    manager: bool, reader: bool, window: bool, device: bool, request: bool,
    target: bool, sessionOutput: bool, container: bool, session: bool)

  /** Handle `h` is non-null in `held`. */
  predicate Holds(held: Handles, h: Handle)
  {
    match h
    case Manager => held.manager
    case Reader => held.reader
    case Window => held.window
    case Device => held.device
    case Request => held.request
    case Target => held.target
    case SessionOutput => held.sessionOutput
    case Container => held.container
    case Session => held.session
  }

  /** What Stop leaves held: the reader's window at most. */
  function AfterStop(held: Handles): Handles
  {
    Handles(false, false, held.window, false, false, false, false, false, false)
  }

  /** The fallible NDK calls Start makes, in the order it makes them. */
  datatype Step =
    | CreateManager | GetCameraIdList | CreateReader | GetWindow | SetListener | OpenCamera
    | CreateRequest | CreateTarget | AddTarget | CreateSessionOutput | CreateContainer
    | AddToContainer | CreateSession | SetRepeatingRequest

  /**
   * What the platform answers during Start: the calls that fail, the camera
   * list with each camera's characteristics, and, per camera id, the stream
   * configuration entry (absent when the characteristics or the entry cannot
   * be read).
   */
  datatype Platform = Platform(failing: set<Step>, cameras: seq<Camera>, streamConfigs: map<string, seq<int32>>)

  /** The NDK calls Stop makes. */
  datatype Release =
    | ClearImageListener | StopRepeating | CloseSession | FreeRequest | FreeContainer
    | FreeTarget | FreeSessionOutput | CloseDevice | DeleteReader | DeleteManager

  /** The call that releases a handle (the window belongs to the reader and has none). */
  function ReleaseOf(h: Handle): Release
    requires h != Window
  {
    match h
    case Manager => DeleteManager
    case Reader => DeleteReader
    case Device => CloseDevice
    case Request => FreeRequest
    case Target => FreeTarget
    case SessionOutput => FreeSessionOutput
    case Container => FreeContainer
    case Session => CloseSession
  }

  /** Stop's fixed sequence of stages: stage `k` makes call `StopCall(k)` when it finds handle `StopGuard(k)`. */
  function StopCall(k: nat): Release
  {
    match k
    case 0 => ClearImageListener
    case 1 => StopRepeating
    case 2 => CloseSession
    case 3 => FreeRequest
    case 4 => FreeContainer
    case 5 => FreeTarget
    case 6 => FreeSessionOutput
    case 7 => CloseDevice
    case 8 => DeleteReader
    case _ => DeleteManager
  }

  function StopGuard(k: nat): Handle
  {
    match k
    case 0 => Reader
    case 1 => Session
    case 2 => Session
    case 3 => Request
    case 4 => Container
    case 5 => Target
    case 6 => SessionOutput
    case 7 => Device
    case 8 => Reader
    case _ => Manager
  }

  /** The call stage `k` makes, if any. */
  function StopStage(held: Handles, k: nat): seq<Release>
  {
    if Holds(held, StopGuard(k)) then [StopCall(k)] else []
  }

  /** The calls stages 0 .. k - 1 make when they find the handles `held`. */
  function StopUpTo(held: Handles, k: nat): seq<Release>
  {
    if k == 0 then [] else StopUpTo(held, k - 1) + StopStage(held, k - 1)
  }

  /** The calls Stop makes, in order, when it finds the handles `held`. */
  function StopCalls(held: Handles): seq<Release>
  {
    StopUpTo(held, StageCount)
  }

  /** The number of stages of Stop. */
  const StageCount: nat := 10

  /** The stage of each call. */
  function Rank(r: Release): nat
  {
    match r
    case ClearImageListener => 0
    case StopRepeating => 1
    case CloseSession => 2
    case FreeRequest => 3
    case FreeContainer => 4
    case FreeTarget => 5
    case FreeSessionOutput => 6
    case CloseDevice => 7
    case DeleteReader => 8
    case DeleteManager => 9
  }

  lemma StageRank(k: nat, r: Release)
    requires k < StageCount
    ensures Rank(StopCall(k)) == k
    ensures StopCall(Rank(r)) == r && Rank(r) < StageCount
  {
  }

  /** Stages 0 .. k - 1 make their calls in stage order, each at most once. */
  lemma {:induction false} StopUpToOrdered(held: Handles, k: nat)
    requires k <= StageCount
    ensures forall i :: 0 <= i < |StopUpTo(held, k)| ==> Rank(StopUpTo(held, k)[i]) < k
    ensures forall i, j :: 0 <= i < j < |StopUpTo(held, k)| ==> Rank(StopUpTo(held, k)[i]) < Rank(StopUpTo(held, k)[j])
  {
    if k > 0 {
      StopUpToOrdered(held, k - 1);
      StageRank(k - 1, StopCall(k - 1));
    }
  }

  /** A call is made by stages 0 .. k - 1 exactly when its stage is one of them and finds its handle. */
  lemma {:induction false} StopUpToMembers(held: Handles, k: nat, r: Release)
    requires k <= StageCount
    ensures r in StopUpTo(held, k) <==> Rank(r) < k && Holds(held, StopGuard(Rank(r)))
  {
    if k > 0 {
      StopUpToMembers(held, k - 1, r);
      StageRank(k - 1, r);
    }
  }

  /** Stop releases every handle it finds except the window, and only those. */
  lemma StopReleasesHeld(held: Handles)
    ensures forall h :: h != Window ==> (ReleaseOf(h) in StopCalls(held) <==> Holds(held, h))
    ensures ClearImageListener in StopCalls(held) <==> held.reader
    ensures StopRepeating in StopCalls(held) <==> held.session
  {
    forall h | h != Window
      ensures ReleaseOf(h) in StopCalls(held) <==> Holds(held, h)
    {
      StopUpToMembers(held, StageCount, ReleaseOf(h));
      GuardOfRelease(h);
    }
    StopUpToMembers(held, StageCount, ClearImageListener);
    StopUpToMembers(held, StageCount, StopRepeating);
  }

  /** The call that releases a handle is made by a stage that checks that handle. */
  lemma GuardOfRelease(h: Handle)
    requires h != Window
    ensures StopGuard(Rank(ReleaseOf(h))) == h
  {
  }

  /** Stop makes its calls in stage order, so none of them twice. */
  lemma StopInStageOrder(held: Handles)
    ensures forall i, j :: 0 <= i < j < |StopCalls(held)| ==> Rank(StopCalls(held)[i]) < Rank(StopCalls(held)[j])
    ensures forall i, j :: 0 <= i < j < |StopCalls(held)| ==> StopCalls(held)[i] != StopCalls(held)[j]
  {
    StopUpToOrdered(held, StageCount);
  }

  /**
   * Stop detaches the image listener before anything else, then stops and
   * closes the session before freeing anything the session uses.
   */
  lemma StopQuiescesFirst(held: Handles)
    ensures |StopCalls(held)| >= (if held.reader then 1 else 0) + (if held.session then 2 else 0)
    ensures held.reader ==> StopCalls(held)[0] == ClearImageListener
    ensures held.session ==>
      var k := if held.reader then 1 else 0;
      StopCalls(held)[k] == StopRepeating && StopCalls(held)[k + 1] == CloseSession
  {
    var p := StopUpTo(held, 3);
    assert StopUpTo(held, 1) == StopStage(held, 0);
    assert StopUpTo(held, 2) == StopStage(held, 0) + StopStage(held, 1);
    assert p == StopStage(held, 0) + StopStage(held, 1) + StopStage(held, 2);
    StopUpToPrefix(held, 3, StageCount);
  }

  /** The calls of the first `k` stages come first. */
  lemma {:induction false} StopUpToPrefix(held: Handles, k: nat, n: nat)
    requires k <= n
    ensures |StopUpTo(held, k)| <= |StopUpTo(held, n)|
    ensures StopUpTo(held, n)[..|StopUpTo(held, k)|] == StopUpTo(held, k)
    decreases n - k
  {
    if k < n {
      StopUpToPrefix(held, k, n - 1);
      var a, b := StopUpTo(held, k), StopUpTo(held, n - 1);
      assert StopUpTo(held, n)[..|b|] == b;
    }
  }

  /** After one Stop only the window can remain, and a second Stop makes no call at all. */
  lemma StopIdempotent(held: Handles)
    ensures StopCalls(AfterStop(held)) == []
  {
    var after := AfterStop(held);
    forall j | 0 <= j < StageCount ensures !Holds(after, StopGuard(j)) {
      assert StopGuard(j) != Window;
    }
    StopUpToEmpty(after, StageCount);
  }

  /** Stages that find none of their handles make no call. */
  lemma {:induction false} StopUpToEmpty(held: Handles, k: nat)
    requires forall j :: 0 <= j < k ==> !Holds(held, StopGuard(j))
    ensures StopUpTo(held, k) == []
  {
    if k > 0 {
      StopUpToEmpty(held, k - 1);
    }
  }

  /** `std::vector::resize`: keeps the first `n` bytes and zero-fills any new ones. */
  function Resized(s: seq<byte>, n: nat): (r: seq<byte>)
    ensures |r| == n
    ensures forall i :: 0 <= i < n ==> r[i] == if i < |s| then s[i] else 0
  {
    if n <= |s| then s[..n] else s + seq(n - |s|, _ => 0)
  }

  /** Creating the camera manager and listing the cameras succeed. */
  predicate EarlyStepsSucceed(env: Platform)
  {
    CreateManager !in env.failing && GetCameraIdList !in env.failing
  }

  /** Creating the image reader, getting its window and setting its listener succeed. */
  predicate ReaderStepsSucceed(env: Platform)
  {
    CreateReader !in env.failing && GetWindow !in env.failing && SetListener !in env.failing
  }

  /** Opening the camera and building the capture request with its output target succeed. */
  predicate RequestStepsSucceed(env: Platform)
  {
    OpenCamera !in env.failing && CreateRequest !in env.failing && CreateTarget !in env.failing
    && AddTarget !in env.failing
  }

  /** Building and starting the capture session succeed. */
  predicate SessionStepsSucceed(env: Platform)
  {
    CreateSessionOutput !in env.failing && CreateContainer !in env.failing
    && AddToContainer !in env.failing && CreateSession !in env.failing && SetRepeatingRequest !in env.failing
  }

  /** Every call from creating the image reader to starting the repeating request succeeds. */
  predicate LateStepsSucceed(env: Platform)
  {
    ReaderStepsSucceed(env) && RequestStepsSucceed(env) && SessionStepsSucceed(env)
  }

  /** Start gets as far as choosing the stream size. */
  predicate ReachesSizeSelection(env: Platform)
  {
    EarlyStepsSucceed(env) && SelectedCameraId(env.cameras) != ""
  }

  /** The camera size after Start, given the size before it. */
  function ChosenSize(env: Platform, desiredWidth: uint32, desiredHeight: uint32, w0: uint32, h0: uint32)
    : (uint32, uint32)
  {
    var id := SelectedCameraId(env.cameras);
    if ReachesSizeSelection(env) && id in env.streamConfigs then
      ScanSizes(env.streamConfigs[id], I32(desiredWidth), I32(desiredHeight), 0, Int32Max, w0, h0)
    else (w0, h0)
  }

  /** Start chooses a camera and a non-zero camera size. */
  predicate CameraChosen(env: Platform, desiredWidth: uint32, desiredHeight: uint32, w0: uint32, h0: uint32)
  {
    var size := ChosenSize(env, desiredWidth, desiredHeight, w0, h0);
    ReachesSizeSelection(env) && SelectedCameraId(env.cameras) in env.streamConfigs
    && size.0 != 0 && size.1 != 0
  }

  /**
   * Start succeeds exactly when no NDK call fails, some camera is selected,
   * its stream configurations can be read, and the recorded camera size is
   * non-zero in both dimensions.
   */
  predicate StartSucceeds(env: Platform, desiredWidth: uint32, desiredHeight: uint32, w0: uint32, h0: uint32)
  {
    CameraChosen(env, desiredWidth, desiredHeight, w0, h0) && LateStepsSucceed(env)
  }

  /** Writes pixel `p` at byte `outIndex` of the buffer; a skipped pixel writes nothing. */
  method StorePixel(buffer: array<byte>, outIndex: nat, p: Pixel)
    requires outIndex + 4 <= buffer.Length
    modifies buffer
    ensures forall i :: 0 <= i < buffer.Length ==>
      buffer[i] == if outIndex <= i < outIndex + 4 then PixelByte(p, old(buffer[i]), i - outIndex) else old(buffer[i])
  {
    if p.Rgb? {
      buffer[outIndex] := p.r;
      buffer[outIndex + 1] := p.g;
      buffer[outIndex + 2] := p.b;
      buffer[outIndex + 3] := 255;
    }
  }

  /**
   * One output row of the image callback: converts pixels (0, y) .. (outW - 1, y),
   * which occupy bytes rowStart * 4 .. (rowStart + outW) * 4 of the buffer.
   */
  method ConvertRow(buffer: array<byte>, img: Image, outW: uint32, outH: uint32, y: nat, rowStart: nat,
                    ghost prev: seq<byte>, ghost target: seq<byte>)
    requires Accepted(img, outW, outH) && y < outH && rowStart == y * outW
    requires buffer.Length == |prev| == outW * outH * 4 && target == Converted(prev, img, outW, outH)
    requires (rowStart + outW) * 4 <= buffer.Length
    requires forall i :: 0 <= i < rowStart * 4 ==> buffer[i] == target[i]
    requires forall i :: rowStart * 4 <= i < buffer.Length ==> buffer[i] == prev[i]
    modifies buffer
    ensures forall i :: 0 <= i < (rowStart + outW) * 4 ==> buffer[i] == target[i]
    ensures forall i :: (rowStart + outW) * 4 <= i < buffer.Length ==> buffer[i] == prev[i]
  {
    var x := 0;
    while x < outW
      invariant x <= outW
      invariant forall i :: 0 <= i < (rowStart + x) * 4 ==> buffer[i] == target[i]
      invariant forall i :: (rowStart + x) * 4 <= i < buffer.Length ==> buffer[i] == prev[i]
    {
      var outIndex := (rowStart + x) * 4;
      ConvertedPixel(prev, img, outW, outH, x, y, outIndex);
      var p := PixelAt(img, outW, outH, x, y);
      StorePixel(buffer, outIndex, p);
      x := x + 1;
    }
  }

  /**
   * The first NDK calls of Stop, for the handles found at its start: detach
   * the image listener, then stop and close the session.
   */
  method QuiesceCalls(held: Handles) returns (calls: seq<Release>)
    ensures calls == StopUpTo(held, 3)
  {
    calls := [];
    if held.reader {
      calls := calls + [ClearImageListener];
    }
    assert calls == StopUpTo(held, 1);
    if held.session {
      calls := calls + [StopRepeating, CloseSession];
    }
    assert StopUpTo(held, 3) == StopUpTo(held, 1) + StopStage(held, 1) + StopStage(held, 2);
  }

  /** Stop's next calls, appended to `calls`: free the request and the session's output objects. */
  method FreeSessionCalls(held: Handles, quiesced: seq<Release>) returns (calls: seq<Release>)
    requires quiesced == StopUpTo(held, 3)
    ensures calls == StopUpTo(held, 7)
  {
    calls := quiesced;
    if held.request {
      calls := calls + [FreeRequest];
    }
    assert calls == StopUpTo(held, 4);
    if held.container {
      calls := calls + [FreeContainer];
    }
    assert calls == StopUpTo(held, 5);
    if held.target {
      calls := calls + [FreeTarget];
    }
    assert calls == StopUpTo(held, 6);
    if held.sessionOutput {
      calls := calls + [FreeSessionOutput];
    }
  }

  /** Stop's last calls, appended to `calls`: close the camera, delete the reader and the manager. */
  method CloseCalls(held: Handles, freed: seq<Release>) returns (calls: seq<Release>)
    requires freed == StopUpTo(held, 7)
    ensures calls == StopCalls(held)
  {
    calls := freed;
    if held.device {
      calls := calls + [CloseDevice];
    }
    assert calls == StopUpTo(held, 8);
    if held.reader {
      calls := calls + [DeleteReader];
    }
    assert calls == StopUpTo(held, 9);
    if held.manager {
      calls := calls + [DeleteManager];
    }
  }

  /** No handle other than the reader's window is held. */
  predicate Released(held: Handles)
  {
    !held.manager && !held.reader && !held.device && !held.request && !held.target
    && !held.sessionOutput && !held.container && !held.session
  }

  /** Every handle is held. */
  predicate Acquired(held: Handles)
  {
    held.manager && held.reader && held.window && held.device && held.request && held.target
    && held.sessionOutput && held.container && held.session
  }

  class Camera2Capture {
    /** Which NDK handles are non-null. */
    var handles: Handles
    var cameraId: string
    var cameraWidth: uint32
    var cameraHeight: uint32
    var outputWidth: uint32
    var outputHeight: uint32
    var latestRgba: array<byte>
    var hasFrame: bool
    var running: bool

    /**
     * While running, every handle is held and the buffer has one RGBA pixel
     * per output pixel; while stopped, only the reader's window may remain.
     */
    predicate Valid()
      reads this, latestRgba
    {
      (running ==> Acquired(handles) && latestRgba.Length == outputWidth * outputHeight * 4)
      && (!running ==> Released(handles))
    }

    constructor ()
      ensures Valid() && !running && !hasFrame && !handles.window
      ensures cameraId == "" && cameraWidth == 0 && cameraHeight == 0
      ensures outputWidth == 0 && outputHeight == 0 && latestRgba.Length == 0
    {
      handles := Handles(false, false, false, false, false, false, false, false, false);
      cameraId := "";
      cameraWidth, cameraHeight := 0, 0;
      outputWidth, outputHeight := 0, 0;
      latestRgba := new byte[0];
      hasFrame := false;
      running := false;
    }

    /**
     * Clears the running flag, then releases the handles in a fixed order,
     * clearing each one it releases. The window handle is left as it is; the
     * pending-frame flag and the buffer are kept.
     */
    method Stop() returns (calls: seq<Release>)
      modifies this`running, this`handles
      ensures !running && handles == AfterStop(old(handles))
      ensures calls == StopCalls(old(handles))
    {
      running := false;
      calls := QuiesceCalls(handles);
      calls := FreeSessionCalls(handles, calls);
      calls := CloseCalls(handles, calls);
      handles := AfterStop(handles);
    }

    /**
     * Records the size of the earliest YUV_420_888 output configuration
     * nearest to the desired size; fails when the configurations cannot be
     * read or the recorded size has a zero dimension. The recorded size is
     * not reset first, so a size from an earlier Start survives.
     */
    method SelectCameraSize(id: string, desiredWidth: uint32, desiredHeight: uint32, configs: map<string, seq<int32>>)
      returns (ok: bool)
      modifies this`cameraWidth, this`cameraHeight
      ensures id !in configs ==> !ok && cameraWidth == old(cameraWidth) && cameraHeight == old(cameraHeight)
      ensures id in configs ==>
        (cameraWidth, cameraHeight)
          == ScanSizes(configs[id], I32(desiredWidth), I32(desiredHeight), 0, Int32Max, old(cameraWidth), old(cameraHeight))
        && ok == (cameraWidth != 0 && cameraHeight != 0)
    {
      if id !in configs {
        return false;
      }
      var entry := configs[id];
      var dw: int, dh: int := I32(desiredWidth), I32(desiredHeight);
      var bestScore: int := Int32Max;
      var k := 0;
      while 4 * k + 3 < |entry|
        invariant ScanSizes(entry, dw, dh, k, bestScore, cameraWidth, cameraHeight)
          == ScanSizes(entry, dw, dh, 0, Int32Max, old(cameraWidth), old(cameraHeight))
        decreases |entry| - 4 * k
      {
        var format, width, height, output: int := entry[4 * k], entry[4 * k + 1], entry[4 * k + 2], entry[4 * k + 3];
        if format != ImageFormatYuv420888 || output != StreamConfigurationOutput {
          k := k + 1;
          continue;
        }
        var score := Abs(width - dw) + Abs(height - dh);
        if score < bestScore {
          bestScore := score;
          cameraWidth := U32(width);
          cameraHeight := U32(height);
        }
        k := k + 1;
      }
      ok := cameraWidth != 0 && cameraHeight != 0;
    }

    /** Grows or shrinks the buffer like `std::vector::resize`. */
    method ResizeBuffer(n: nat)
      modifies this`latestRgba
      ensures fresh(latestRgba) && latestRgba[..] == Resized(old(latestRgba[..]), n)
    {
      var previous := latestRgba;
      var buffer := new byte[n];
      var i := 0;
      while i < n
        invariant i <= n
        invariant forall j :: 0 <= j < i ==> buffer[j] == if j < previous.Length then previous[j] else 0
      {
        buffer[i] := if i < previous.Length then previous[i] else 0;
        i := i + 1;
      }
      assert buffer[..] == Resized(previous[..], n);
      latestRgba := buffer;
    }

    /**
     * Creates the camera manager, lists the cameras, selects one and records
     * its stream size; false at the first step that fails.
     */
    method ChooseCamera(desiredWidth: uint32, desiredHeight: uint32, env: Platform) returns (ok: bool)
      modifies this`handles, this`cameraId, this`cameraWidth, this`cameraHeight
      ensures ok == CameraChosen(env, desiredWidth, desiredHeight, old(cameraWidth), old(cameraHeight))
      ensures (cameraWidth, cameraHeight) == ChosenSize(env, desiredWidth, desiredHeight, old(cameraWidth), old(cameraHeight))
      ensures handles == old(handles).(manager := CreateManager !in env.failing)
      ensures cameraId == if EarlyStepsSucceed(env) then SelectedCameraId(env.cameras) else old(cameraId)
    {
      handles := handles.(manager := CreateManager !in env.failing);
      if !handles.manager {
        return false;
      }
      if GetCameraIdList in env.failing {
        return false;
      }
      cameraId := SelectCameraId(env.cameras);
      if cameraId == "" {
        return false;
      }
      ok := SelectCameraSize(cameraId, desiredWidth, desiredHeight, env.streamConfigs);
    }

    /** Creates the image reader, gets its window and sets the image listener; false at the first failure. */
    method OpenReader(env: Platform) returns (ok: bool)
      modifies this`handles
      ensures ok == ReaderStepsSucceed(env)
      ensures ok ==> handles == old(handles).(reader := true, window := true)
    {
      handles := handles.(reader := CreateReader !in env.failing);
      if !handles.reader {
        return false;
      }
      if GetWindow in env.failing {
        return false;
      }
      handles := handles.(window := true);
      if SetListener in env.failing {
        return false;
      }
      ok := true;
    }

    /**
     * Opens the camera, creates the preview capture request and the output
     * target on the reader's window, and adds the target to the request;
     * false at the first failure.
     */
    method OpenRequest(env: Platform) returns (ok: bool)
      modifies this`handles
      ensures ok == RequestStepsSucceed(env)
      ensures ok ==> handles == old(handles).(device := true, request := true, target := true)
    {
      if OpenCamera in env.failing {
        return false;
      }
      handles := handles.(device := true);
      if CreateRequest in env.failing {
        return false;
      }
      handles := handles.(request := true);
      if CreateTarget in env.failing {
        return false;
      }
      handles := handles.(target := true);
      if AddTarget in env.failing {
        return false;
      }
      ok := true;
    }

    /**
     * Creates the session output and its container, creates the capture
     * session and starts the repeating request; false at the first failure.
     */
    method OpenSession(env: Platform) returns (ok: bool)
      modifies this`handles
      ensures ok == SessionStepsSucceed(env)
      ensures ok ==> handles == old(handles).(sessionOutput := true, container := true, session := true)
    {
      if CreateSessionOutput in env.failing {
        return false;
      }
      handles := handles.(sessionOutput := true);
      if CreateContainer in env.failing {
        return false;
      }
      handles := handles.(container := true);
      if AddToContainer in env.failing {
        return false;
      }
      if CreateSession in env.failing {
        return false;
      }
      handles := handles.(session := true);
      if SetRepeatingRequest in env.failing {
        return false;
      }
      ok := true;
    }

    /** Start's failure path: stops everything acquired so far and reports false. */
    method Fail() returns (ok: bool)
      modifies this`running, this`handles
      ensures !ok && !running && handles == AfterStop(old(handles))
    {
      var _ := Stop();
      ok := false;
    }

    /** The acquisition part of Start: true when every NDK object was created. */
    method Acquire(desiredWidth: uint32, desiredHeight: uint32, env: Platform) returns (ok: bool)
      modifies this`handles, this`cameraId, this`cameraWidth, this`cameraHeight
      ensures ok == StartSucceeds(env, desiredWidth, desiredHeight, old(cameraWidth), old(cameraHeight))
      ensures (cameraWidth, cameraHeight) == ChosenSize(env, desiredWidth, desiredHeight, old(cameraWidth), old(cameraHeight))
      ensures ok ==> Acquired(handles)
      ensures cameraId == if EarlyStepsSucceed(env) then SelectedCameraId(env.cameras) else old(cameraId)
    {
      ok := ChooseCamera(desiredWidth, desiredHeight, env);
      if ok {
        ok := OpenReader(env);
      }
      if ok {
        ok := OpenRequest(env);
      }
      if ok {
        ok := OpenSession(env);
      }
    }

    /**
     * A no-op while running. Otherwise records the output size, then acquires
     * the NDK objects one by one; the first failure stops everything acquired
     * so far and reports false. On success the buffer is resized to the output
     * size and capture is running.
     */
    method Start(desiredWidth: uint32, desiredHeight: uint32, env: Platform) returns (ok: bool)
      requires Valid()
      modifies this`running, this`handles, this`cameraId, this`cameraWidth, this`cameraHeight
      modifies this`outputWidth, this`outputHeight, this`latestRgba
      ensures Valid()
      ensures old(running) ==> ok && unchanged(this)
      ensures !old(running) ==>
        outputWidth == desiredWidth && outputHeight == desiredHeight && hasFrame == old(hasFrame)
        && (ok <==> StartSucceeds(env, desiredWidth, desiredHeight, old(cameraWidth), old(cameraHeight)))
        && (cameraWidth, cameraHeight)
             == ChosenSize(env, desiredWidth, desiredHeight, old(cameraWidth), old(cameraHeight))
        && running == ok
        && cameraId == if EarlyStepsSucceed(env) then SelectedCameraId(env.cameras) else old(cameraId)
      ensures !old(running) && ok ==>
        cameraId == SelectedCameraId(env.cameras)
        && fresh(latestRgba) && latestRgba[..] == Resized(old(latestRgba[..]), desiredWidth * desiredHeight * 4)
      ensures !old(running) && !ok ==> Released(handles) && latestRgba == old(latestRgba)
    {
      if running {
        return true;
      }
      outputWidth := desiredWidth;
      outputHeight := desiredHeight;
      ok := Acquire(desiredWidth, desiredHeight, env);
      if !ok {
        ok := Fail();
        return;
      }
      ResizeBuffer(outputWidth * outputHeight * 4);
      running := true;
    }

    /**
     * The image callback. Ignored while stopped, when no image can be
     * acquired, and for an image that fails the format, plane, stride or
     * output-size checks; otherwise every output pixel is converted in row
     * order (skipped pixels keep their bytes) and a frame is pending.
     */
    method OnImageAvailable(frame: Option<Image>)
      requires Valid()
      modifies this`hasFrame, latestRgba
      ensures Valid()
      ensures !old(running) || frame.None? || !Accepted(frame.value, outputWidth, outputHeight) ==>
        hasFrame == old(hasFrame) && latestRgba[..] == old(latestRgba[..])
      ensures old(running) && frame.Some? && Accepted(frame.value, outputWidth, outputHeight) ==>
        hasFrame && latestRgba[..] == Converted(old(latestRgba[..]), frame.value, outputWidth, outputHeight)
    {
      if !running || frame.None? {
        return;
      }
      var img := frame.value;
      if !Accepted(img, outputWidth, outputHeight) {
        return;
      }
      var outW, outH := outputWidth, outputHeight;
      ghost var prev := latestRgba[..];
      ghost var target := Converted(prev, img, outW, outH);
      var y, rowStart := 0, 0;
      while y < outH
        invariant y <= outH && rowStart == y * outW && rowStart <= outW * outH
        invariant forall i :: 0 <= i < rowStart * 4 ==> latestRgba[i] == target[i]
        invariant forall i :: rowStart * 4 <= i < latestRgba.Length ==> latestRgba[i] == prev[i]
      {
        MulMono(y + 1, outH, outW);
        assert (y + 1) * outW == rowStart + outW;
        ConvertRow(latestRgba, img, outW, outH, y, rowStart, prev, target);
        y, rowStart := y + 1, rowStart + outW;
      }
      assert latestRgba[..] == target;
      hasFrame := true;
    }

    /**
     * The consumer side of the hand-off: fails while stopped or with no
     * pending frame, leaving the caller's values as they were; otherwise
     * copies the buffer and the output size out and clears the pending flag,
     * keeping the buffer.
     */
    method GetLatestFrame(rgba: seq<byte>, width: uint32, height: uint32)
      returns (ok: bool, outRgba: seq<byte>, outWidth: uint32, outHeight: uint32)
      modifies this`hasFrame
      ensures ok == (running && old(hasFrame))
      ensures ok ==> outRgba == latestRgba[..] && outWidth == outputWidth && outHeight == outputHeight && !hasFrame
      ensures !ok ==> outRgba == rgba && outWidth == width && outHeight == height && hasFrame == old(hasFrame)
    {
      if !running || !hasFrame {
        return false, rgba, width, height;
      }
      outRgba := latestRgba[..];
      outWidth, outHeight := outputWidth, outputHeight;
      hasFrame := false;
      ok := true;
    }
  }
}
