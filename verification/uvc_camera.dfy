/** The plain data and the small pieces of logic of the UVC camera driver:
    the libuvc status guard, the stream-mode and calibration records, and the
    camera's fixed table of stream slots with its two slot accessors. */
module UvcCamera {
  import opened Integers
  import opened LinearAlgebra

  /** The number of logical stream slots of a camera. */
  const MAX_STREAMS := 3

  datatype Option<T> = None | Some(value: T)

  /** The `std::runtime_error` the status guard throws.  The source's exception
      carries only `message`; `call` and `status` are kept beside it so that
      contracts can name what the message is built from. */
  datatype RuntimeError = RuntimeError(call: string, status: int, message: string)

  datatype Outcome = Pass | Fail(error: RuntimeError)

  /** The guard wrapped around every libuvc call: a negative status is an
      error naming the failed call and carrying libuvc's text for the status
      (`statusText`, what `uvc_strerror` returns). */
  function CheckUvc(call: string, status: int, statusText: string): (r: Outcome)
    ensures r.Fail? <==> status < 0
    ensures r.Fail? ==> r.error.call == call && r.error.status == status
    ensures r.Fail? ==> call <= r.error.message
    ensures r.Fail? ==> |statusText| <= |r.error.message| && r.error.message[|r.error.message| - |statusText|..] == statusText
  {
    if status < 0 then
      Fail(RuntimeError(call, status, call + "(...) returned " + statusText))
    else
      Pass
  }

  // ---------------------------------------------------------------------------
  // Records

  /** The camera model of one stream mode; `rs_intrinsics` is declared in a
      header that is not part of this model, so its parameters are opaque. */
  datatype Intrinsics = Intrinsics(parameters: seq<real>)

  /** A stream mode as the client sees it and as it is advertised over UVC. */
  datatype ResolutionMode = ResolutionMode(
    stream: int,
    width: int, height: int, fps: int, format: int,
    uvcWidth: int, uvcHeight: int, uvcFps: int, uvcFormat: int,
    intrinsics: Intrinsics)

  datatype CalibrationInfo = CalibrationInfo(
    modes: seq<ResolutionMode>,
    streamPoses: seq<Pose>,
    depthScale: real)

  /** The application side of one stream: its mode, the changed flag and the
      three frame buffers, of which only `front` is ever handed out. */
  datatype UserStream = UserStream(
    mode: ResolutionMode,
    updated: bool,
    front: seq<uint8>, middle: seq<uint8>, back: seq<uint8>)

  /** The capture side of one stream; the libuvc handle is opaque. */
  datatype StreamChannel = StreamChannel(handle: nat, mode: ResolutionMode)

  datatype Camera = Camera(
    userStreams: seq<Option<UserStream>>,
    streams: seq<Option<StreamChannel>>,
    cameraName: string,
    calib: CalibrationInfo)

  /** Both slot tables and the pose table hold exactly `MAX_STREAMS` entries. */
  predicate Valid(cam: Camera)
  {
    && |cam.userStreams| == MAX_STREAMS
    && |cam.streams| == MAX_STREAMS
    && |cam.calib.streamPoses| == MAX_STREAMS
  }

  // ---------------------------------------------------------------------------
  // Slot accessors

  /** `IsStreamEnabled(stream)`: whether the slot holds a capture channel. */
  function IsStreamEnabled(cam: Camera, stream: int): (r: bool)
    requires Valid(cam) && 0 <= stream < MAX_STREAMS
    ensures r <==> exists ch :: cam.streams[stream] == Some(ch)
  {
    cam.streams[stream].Some?
  }

  /** `GetImagePixels(stream)`: the front buffer of the slot's user stream,
      or null (`None`) when the slot is empty. */
  function GetImagePixels(cam: Camera, stream: int): (r: Option<seq<uint8>>)
    requires Valid(cam) && 0 <= stream < MAX_STREAMS
    ensures r == None <==> cam.userStreams[stream] == None
    ensures forall u :: cam.userStreams[stream] == Some(u) ==> r == Some(u.front)
  {
    match cam.userStreams[stream]
    case Some(u) => Some(u.front)
    case None => None
  }

  /** The accessors read their own slot and nothing else. */
  lemma AccessorsReadOnlyTheirSlot(c1: Camera, c2: Camera, stream: int)
    requires Valid(c1) && Valid(c2) && 0 <= stream < MAX_STREAMS
    requires c1.userStreams[stream] == c2.userStreams[stream]
    requires c1.streams[stream].Some? == c2.streams[stream].Some?
    ensures GetImagePixels(c1, stream) == GetImagePixels(c2, stream)
    ensures IsStreamEnabled(c1, stream) == IsStreamEnabled(c2, stream)
  {
  }
}
