/** Handing frames from the camera thread to the drawing thread: the video stream fills the back buffer
    without any lock, finished frames wait in the middle, and the drawing thread uploads the front. */
module TripleBuffer {
  import opened Bytes
  import opened Wrappers

  type Frame = seq<Byte>
  type Ptr = array?<Byte>

  // ---- the buffers of a packet stream ----

  datatype Stream = Stream(running: bool, split: bool, usr: Ptr, lib: Ptr, proc: Ptr, raw: Ptr)

  /** stream_init; lib and raw are what malloc returns, if it is called. */
  function StreamInit(s: Stream, rlen: nat, lib: Ptr, raw: Ptr): Stream {
    var s1 := if s.usr != null then s.(lib := null, proc := s.usr) else s.(lib := lib, proc := lib);
    if rlen == 0 then s1.(split := false, raw := s1.proc) else s1.(split := true, raw := raw)
  }

  /** stream_freebufs. */
  function StreamFree(s: Stream): Stream {
    s.(raw := null, proc := null, lib := null)
  }

  /** stream_setbuf, and its result. */
  function StreamSetBuf(s: Stream, buf: Ptr): (Stream, int) {
    if !s.running then (s.(usr := buf), 0)
    else if buf == null && s.lib == null then (s, -1)
    else
      var s1 := s.(usr := buf, proc := if buf == null then s.lib else buf);
      (if s1.split then s1 else s1.(raw := s1.proc), 0)
  }

  /** A running stream delivers into the user's buffer if there is one, else into its own; unless packets
      are collected in a buffer apart they are collected there too. */
  predicate StreamOk(s: Stream) {
    if s.running then
      && s.proc != null && s.proc == (if s.usr != null then s.usr else s.lib)
      && (!s.split ==> s.raw == s.proc)
    else s.proc == null && s.lib == null
  }

  lemma StreamStaysOk(s: Stream, rlen: nat, lib: Ptr, raw: Ptr, buf: Ptr)
    requires StreamOk(s) && lib != null
    ensures !s.running ==>
              var t := StreamInit(s, rlen, lib, raw).(running := true);
              StreamOk(t) && (t.split <==> rlen > 0) && t.raw == if rlen > 0 then raw else t.proc
    ensures var t := StreamFree(s.(running := false)); StreamOk(t) && t.raw == null && t.usr == s.usr
    ensures StreamOk(StreamSetBuf(s, buf).0)
  {
  }

  /** Setting a buffer takes effect at once if the stream runs and at the next start if it does not; it
      fails exactly if the running stream would be left without one. */
  lemma SetBufTakesEffect(s: Stream, buf: Ptr, rlen: nat, lib: Ptr, raw: Ptr)
    requires StreamOk(s)
    ensures var (s', r) := StreamSetBuf(s, buf);
            && (r == -1 <==> s.running && buf == null && s.lib == null) && (r == -1 || r == 0)
            && (r != 0 ==> s' == s) && (r == 0 ==> s'.usr == buf)
            && (buf != null ==> (if s.running then s' else StreamInit(s', rlen, lib, raw)).proc == buf)
            && (buf == null && r == 0 && s.running ==> s'.proc == s.lib)
  {
  }

  /** A stream that was started with the user's buffer has none of its own to go back to; one that was started
      without has. */
  lemma CanGoBackIff(s: Stream, rlen: nat, lib: Ptr, raw: Ptr)
    requires !s.running && lib != null
    ensures var t := StreamInit(s, rlen, lib, raw).(running := true);
            && (StreamSetBuf(t, null).1 == 0 <==> s.usr == null)
            && (s.usr == null ==> StreamSetBuf(t, null).0.proc == lib)
  {
  }

  // ---- the whole ----

  datatype Format = Rgb | YuvRgb | Ir8Bit

  /** frames gives the contents of the five buffers; latestRgb and latestDepth are the last finished
      frames. */
  datatype State = State(back: Ptr, mid: Ptr, front: Ptr, depthMid: Ptr, depthFront: Ptr,
                         gotRgb: nat, gotDepth: nat, requested: Format, current: Format,
                         stream: Stream, frames: map<Ptr, Frame>,
                         latestRgb: Option<Frame>, latestDepth: Option<Frame>)

  datatype Event =
    // the camera thread
    | PutPixel(i: nat, v: Byte)
    | PutPacketByte(i: nat, v: Byte)
    | RgbCallback
    | DepthCallback(frame: Frame)
    | StopVideo
    | StartVideo(rlen: nat, lib: Ptr, raw: Ptr)
    | AdoptFormat
    // the drawing thread
    | KeyPressed(format: Format)
    | Draw

  function Write(frames: map<Ptr, Frame>, p: Ptr, i: nat, v: Byte): map<Ptr, Frame> {
    if p in frames && i < |frames[p]| then
      var frame: Frame := frames[p][i := v];
      frames[p := frame]
    else frames
  }

  /** The waiting loop at the top of DrawGLScene is left. */
  predicate DrawGoesOn(s: State) {
    if s.current == YuvRgb then s.gotDepth > 0 || s.gotRgb > 0
    else (s.gotDepth > 0 && s.gotRgb > 0) || s.requested == s.current
  }

  function Swap(s: State): State {
    var s1 := if s.gotDepth > 0 then s.(depthFront := s.depthMid, depthMid := s.depthFront, gotDepth := 0) else s;
    if s1.gotRgb > 0 then s1.(front := s1.mid, mid := s1.front, gotRgb := 0) else s1
  }

  function Draws(s: State): State {
    if s.requested != s.current then s else Swap(s)
  }

  /** The full back buffer and the middle one change places, in the stream too. */
  function Deliver(s: State): State
    requires s.back in s.frames
  {
    s.(back := s.mid, stream := StreamSetBuf(s.stream, s.mid).0, mid := s.back, gotRgb := s.gotRgb + 1,
       latestRgb := Some(s.frames[s.back]))
  }

  function DeliverDepth(s: State, frame: Frame): State {
    s.(frames := s.frames[s.depthMid := frame], gotDepth := s.gotDepth + 1, latestDepth := Some(frame))
  }

  function Stop(s: State): State {
    s.(stream := StreamFree(s.stream.(running := false)))
  }

  predicate Enabled(s: State, e: Event) {
    match e
    case PutPixel(_, _) => s.stream.running
    case PutPacketByte(_, _) => s.stream.running
    case RgbCallback => s.stream.running
    case DepthCallback(frame) => s.depthMid in s.frames && |frame| == |s.frames[s.depthMid]|
    case StopVideo => s.stream.running
    case StartVideo(_, lib, raw) =>
      !s.stream.running && lib != null && raw != null && lib !in s.frames && raw !in s.frames
    case AdoptFormat => true
    case KeyPressed(_) => true
    case Draw => DrawGoesOn(s)
  }

  /** One atomic step; None if the assertion in rgb_cb fails. */
  function Step(s: State, e: Event): Option<State>
    requires Enabled(s, e)
  {
    match e
    case PutPixel(i, v) => Some(s.(frames := Write(s.frames, s.stream.proc, i, v)))
    case PutPacketByte(i, v) => Some(s.(frames := Write(s.frames, s.stream.raw, i, v)))
    case RgbCallback => if s.back != s.stream.proc || s.back !in s.frames then None else Some(Deliver(s))
    case DepthCallback(frame) => Some(DeliverDepth(s, frame))
    case StopVideo => Some(Stop(s))
    case StartVideo(rlen, lib, raw) =>
      Some(s.(stream := StreamInit(s.stream, rlen, lib, raw).(running := true)))
    case AdoptFormat => Some(s.(current := s.requested))
    case KeyPressed(format) => Some(s.(requested := format))
    case Draw => Some(Draws(s))
  }

  predicate Distinct(s: State) {
    && s.back != s.mid && s.back != s.front && s.mid != s.front && s.depthMid != s.depthFront
    && s.depthMid != s.back && s.depthMid != s.mid && s.depthMid != s.front
    && s.depthFront != s.back && s.depthFront != s.mid && s.depthFront != s.front
    && s.back != null && s.mid != null && s.front != null && s.depthMid != null && s.depthFront != null
  }

  function VideoBuffers(s: State): set<Ptr> {
    {s.back, s.mid, s.front}
  }

  function DepthBuffers(s: State): set<Ptr> {
    {s.depthMid, s.depthFront}
  }

  /** No buffer ever goes over from one stream to the other, or gets lost. */
  predicate SameBuffers(s: State, t: State) {
    VideoBuffers(s) == VideoBuffers(t) && DepthBuffers(s) == DepthBuffers(t)
  }

  predicate Inv(s: State) {
    && Distinct(s)
    && s.frames.Keys == VideoBuffers(s) + DepthBuffers(s)
    && StreamOk(s.stream)
    && s.stream.usr == s.back
    && (s.stream.running && s.stream.split ==> s.stream.raw !in s.frames)
    && (s.latestRgb.None? ==> s.gotRgb == 0)
    && (s.latestRgb.Some? ==> s.frames[if s.gotRgb > 0 then s.mid else s.front] == s.latestRgb.value)
    && (s.latestDepth.None? ==> s.gotDepth == 0)
    && (s.latestDepth.Some? ==>
          s.frames[if s.gotDepth > 0 then s.depthMid else s.depthFront] == s.latestDepth.value)
  }

  /** The assertion in rgb_cb never fails, whatever the drawing thread does and however often the stream is
      stopped and started, and every step permutes the buffers of each kind. */
  lemma StepKeepsInv(s: State, e: Event)
    requires Inv(s) && Enabled(s, e)
    ensures Step(s, e).Some? && Inv(Step(s, e).value)
    ensures SameBuffers(s, Step(s, e).value)
  {
  }

  /** The front buffers are never written, and change places only when the scene is drawn. */
  lemma FrontIsStable(s: State, e: Event)
    requires Inv(s) && Enabled(s, e)
    ensures Step(s, e).Some?
    ensures var s' := Step(s, e).value;
            && s'.frames.Keys == s.frames.Keys
            && s'.frames[s.front] == s.frames[s.front]
            && s'.frames[s.depthFront] == s.frames[s.depthFront]
            && (!e.Draw? ==> s'.front == s.front && s'.depthFront == s.depthFront)
  {
  }

  /** What is drawn is the newest finished frame, even if the stream is already filling the next ones. */
  lemma DrawShowsNewest(s: State)
    requires Inv(s) && Enabled(s, Draw) && s.requested == s.current
    ensures var s' := Step(s, Draw).value;
            && (s.latestRgb.Some? ==> s'.frames[s'.front] == s.latestRgb.value)
            && (s.latestDepth.Some? ==> s'.frames[s'.depthFront] == s.latestDepth.value)
            && s'.gotRgb == 0 && s'.gotDepth == 0
            && s'.back == s.back && s'.latestRgb == s.latestRgb && s'.latestDepth == s.latestDepth
  {
  }

  /** When the drawing thread does not wait: in YUV_RGB as soon as there is something new to draw; in the other
      formats always, but that while a change of format is pending it waits for both kinds of frames. */
  lemma DrawWaitsForFrames(s: State)
    requires Inv(s)
    ensures s.current == YuvRgb ==> (DrawGoesOn(s) <==> Swap(s) != s)
    ensures s.current != YuvRgb && s.requested == s.current ==> DrawGoesOn(s)
    ensures s.current != YuvRgb && s.requested != s.current ==>
              (DrawGoesOn(s) <==> Swap(s).front != s.front && Swap(s).depthFront != s.depthFront)
    ensures s.requested != s.current && DrawGoesOn(s) ==> Step(s, Draw) == Some(s)
  {
  }

  /** A pixel that the running stream delivers is in the back buffer, and the callback hands that over. */
  lemma PixelsAreDelivered(s: State, i: nat, v: Byte)
    requires Inv(s) && s.stream.running && i < |s.frames[s.back]|
    ensures var frame: Frame := s.frames[s.back][i := v];
            var s1 := Step(s, PutPixel(i, v)).value;
            && s1.frames == s.frames[s.back := frame]
            && var s2 := Step(s1, RgbCallback);
            && s2.Some? && s2.value.latestRgb == Some(frame)
            && s2.value.frames[s2.value.mid] == frame && s2.value.gotRgb == s.gotRgb + 1
  {
  }

  // ---- runs ----

  predicate CanRun(s: State, es: seq<Event>)
    decreases |es|
  {
    es == [] || (Enabled(s, es[0]) && (Step(s, es[0]).Some? ==> CanRun(Step(s, es[0]).value, es[1..])))
  }

  function Run(s: State, es: seq<Event>): Option<State>
    requires CanRun(s, es)
    decreases |es|
  {
    if es == [] then Some(s)
    else if Step(s, es[0]).None? then None
    else Run(Step(s, es[0]).value, es[1..])
  }

  predicate NoDraw(es: seq<Event>) {
    forall e <- es :: !e.Draw?
  }

  function RgbFrames(es: seq<Event>): nat {
    if es == [] then 0 else (if es[0].RgbCallback? then 1 else 0) + RgbFrames(es[1..])
  }

  function DepthFrames(es: seq<Event>): nat {
    if es == [] then 0 else (if es[0].DepthCallback? then 1 else 0) + DepthFrames(es[1..])
  }

  /** Between two draws every finished frame is counted. */
  lemma {:induction false} FramesAreCounted(s: State, es: seq<Event>)
    requires Inv(s) && CanRun(s, es) && NoDraw(es)
    ensures Run(s, es).Some?
    ensures Run(s, es).value.gotRgb == s.gotRgb + RgbFrames(es)
    ensures Run(s, es).value.gotDepth == s.gotDepth + DepthFrames(es)
    decreases |es|
  {
    if es != [] {
      StepKeepsInv(s, es[0]);
      assert es[0] in es;
      hide Inv;
      FramesAreCounted(Step(s, es[0]).value, es[1..]);
    }
  }

  /** Main result: in every interleaving no assertion fails, and the three video buffers and the two depth
      buffers stay the same ones, each in one role. */
  lemma {:induction false} RunKeepsInv(s: State, es: seq<Event>)
    requires Inv(s) && CanRun(s, es)
    ensures Run(s, es).Some? && Inv(Run(s, es).value) && SameBuffers(s, Run(s, es).value)
    decreases |es|
  {
    if es != [] {
      hide Inv, Step, Enabled, VideoBuffers, DepthBuffers;
      StepKeepsInv(s, es[0]);
      RunKeepsInv(Step(s, es[0]).value, es[1..]);
    }
  }

  lemma {:induction false} FrontStaysPut(s: State, es: seq<Event>)
    requires Inv(s) && CanRun(s, es) && NoDraw(es)
    ensures Run(s, es).Some?
    ensures var s' := Run(s, es).value;
            && s'.front == s.front && s.front in s.frames && s.front in s'.frames
            && s'.frames[s.front] == s.frames[s.front]
            && s'.depthFront == s.depthFront && s.depthFront in s.frames && s.depthFront in s'.frames
            && s'.frames[s.depthFront] == s.frames[s.depthFront]
    decreases |es|
  {
    if es == [] {
      FrontIsThere(s);
    } else {
      FrontIsThere(s);
      StepKeepsInv(s, es[0]);
      FrontIsStable(s, es[0]);
      assert NoDraw(es[1..]);
      hide Inv, Step, Enabled;
      FrontStaysPut(Step(s, es[0]).value, es[1..]);
    }
  }

  lemma FrontIsThere(s: State)
    requires Inv(s)
    ensures s.front in s.frames && s.depthFront in s.frames
  {
  }

  /** Main result: while a scene is being drawn, whatever the camera thread does meanwhile, the pixels in
      front are those of one finished frame, the newest there was when drawing began. */
  lemma NoTearing(s: State, es: seq<Event>)
    requires Inv(s) && Enabled(s, Draw) && s.requested == s.current
    requires Step(s, Draw).Some? ==> CanRun(Step(s, Draw).value, es)
    requires NoDraw(es)
    ensures Step(s, Draw).Some? && Run(Step(s, Draw).value, es).Some?
    ensures var s' := Run(Step(s, Draw).value, es).value;
            && (s.latestRgb.Some? ==> s'.front in s'.frames && s'.frames[s'.front] == s.latestRgb.value)
            && (s.latestDepth.Some? ==> s'.depthFront in s'.frames && s'.frames[s'.depthFront] == s.latestDepth.value)
  {
    StepKeepsInv(s, Draw);
    DrawShowsNewest(s);
    hide Inv, Step, Enabled, NoDraw;
    FrontStaysPut(Step(s, Draw).value, es);
  }

  lemma BackIsFilled(s: State)
    ensures Inv(s) && s.stream.running ==> s.back == s.stream.proc && s.back in s.frames
  {
  }

  lemma DepthMidIsApart(s: State)
    ensures Inv(s) ==>
              s.depthMid != s.back && s.depthMid != s.mid && s.depthMid != s.front && s.depthMid != s.depthFront
  {
  }

  // ---- the program's variables ----

  ghost function Contents(pool: set<array<Byte>>): map<Ptr, Frame>
    reads pool
  {
    map p <- pool :: (p as Ptr) := p[..]
  }

  lemma ContentsAt(pool: set<array<Byte>>, p: array<Byte>)
    requires p in pool
    ensures p in Contents(pool) && Contents(pool)[p] == p[..]
  {
  }

  class Viewer {
    var back: array<Byte>
    var mid: array<Byte>
    var front: array<Byte>
    var depthMid: array<Byte>
    var depthFront: array<Byte>
    var gotRgb: nat
    var gotDepth: nat
    var requested: Format
    var current: Format

    // the video stream
    var running: bool
    var splitBufs: bool
    var usrBuf: Ptr
    var libBuf: Ptr
    var procBuf: Ptr
    var rawBuf: Ptr

    ghost var latestRgb: Option<Frame>
    ghost var latestDepth: Option<Frame>

    function Video(): Stream
      reads `running, `splitBufs, `usrBuf, `libBuf, `procBuf, `rawBuf
    {
      Stream(running, splitBufs, usrBuf, libBuf, procBuf, rawBuf)
    }

    ghost function Buffers(): set<array<Byte>>
      reads this
    {
      {back, mid, front, depthMid, depthFront}
    }

    ghost function View(): State
      reads this, Buffers()
    {
      State(back, mid, front, depthMid, depthFront, gotRgb, gotDepth, requested, current, Video(),
            Contents(Buffers()), latestRgb, latestDepth)
    }

    /** Allocating the buffers and handing the back one to the stream, which does not run yet. */
    constructor (size: nat)
      ensures Inv(View()) && !running && latestRgb == None && latestDepth == None
      ensures requested == current == Rgb
    {
      back := new Byte[size];
      mid := new Byte[size];
      front := new Byte[size];
      depthMid := new Byte[size];
      depthFront := new Byte[size];
      gotRgb, gotDepth, requested, current := 0, 0, Rgb, Rgb;
      running, splitBufs, libBuf, procBuf, rawBuf := false, false, null, null, null;
      latestRgb, latestDepth := None, None;
      new;
      var _ := SetVideoBuffer(back);
    }

    /** freenect_set_video_buffer. */
    method SetVideoBuffer(buf: Ptr) returns (r: int)
      modifies `usrBuf, `procBuf, `rawBuf
      ensures (Video(), r) == StreamSetBuf(old(Video()), buf)
    {
      if !running {
        usrBuf := buf;
        return 0;
      }
      if buf == null && libBuf == null {
        return -1;
      }
      usrBuf := buf;
      if buf == null {
        procBuf := libBuf;
      } else {
        procBuf := buf;
      }
      if !splitBufs {
        rawBuf := procBuf;
      }
      return 0;
    }

    /** rgb_cb. */
    method RgbCallback(rgb: array<Byte>)
      requires Inv(View()) && running && rgb == procBuf
      modifies `back, `mid, `gotRgb, `usrBuf, `procBuf, `rawBuf, `latestRgb
      ensures View() == Deliver(old(View()))
    {
      BackIsFilled(View());
      ContentsAt(Buffers(), back);
      hide Inv, Contents, StreamSetBuf, Video;
      assert back == rgb;
      back := mid;
      var _ := SetVideoBuffer(back);
      mid := rgb;
      gotRgb := gotRgb + 1;
      latestRgb := Some(rgb[..]);
      assert Buffers() == old(Buffers());
    }

    /** depth_cb, with the colours already chosen. */
    method DepthCallback(frame: Frame)
      requires Inv(View()) && |frame| == depthMid.Length
      modifies depthMid, `gotDepth, `latestDepth
      ensures View() == DeliverDepth(old(View()), frame)
    {
      DepthMidIsApart(View());
      hide Inv;
      for i := 0 to depthMid.Length
        invariant depthMid[..i] == frame[..i]
        modifies depthMid
      {
        depthMid[i] := frame[i];
      }
      gotDepth := gotDepth + 1;
      latestDepth := Some(frame);
      ghost var (a, b) := (old(View()).frames, View().frames);
      assert depthMid[..] == frame;
      assert a[depthMid as Ptr := frame] == b;
    }

    /** The part of DrawGLScene under the mutex, once it need not wait. */
    method DrawGLScene() returns (drawn: bool)
      requires DrawGoesOn(View())
      modifies `front, `mid, `depthFront, `depthMid, `gotRgb, `gotDepth
      ensures View() == Draws(old(View()))
      ensures drawn <==> requested == current
    {
      hide Contents, Video;
      if requested != current {
        return false;
      }
      if gotDepth > 0 {
        depthFront, depthMid := depthMid, depthFront;
        gotDepth := 0;
      }
      if gotRgb > 0 {
        front, mid := mid, front;
        gotRgb := 0;
      }
      assert Buffers() == old(Buffers());
      return true;
    }

    /** freenect_stop_video. */
    method StopVideo()
      requires running
      modifies `running, `rawBuf, `procBuf, `libBuf
      ensures View() == Stop(old(View()))
    {
      hide Contents;
      running := false;
      rawBuf, procBuf, libBuf := null, null, null;
    }

    /** stream_init, with the frame sizes of the format. */
    method InitStream(rlen: nat, plen: nat)
      modifies `rawBuf, `procBuf, `libBuf, `splitBufs
      ensures Video() == StreamInit(old(Video()), rlen, libBuf, rawBuf)
      ensures usrBuf == null ==> libBuf != null && fresh(libBuf)
      ensures rlen > 0 ==> rawBuf != null && fresh(rawBuf)
    {
      if usrBuf != null {
        libBuf := null;
        procBuf := usrBuf;
      } else {
        libBuf := new Byte[plen];
        procBuf := libBuf;
      }
      if rlen == 0 {
        splitBufs := false;
        rawBuf := procBuf;
      } else {
        splitBufs := true;
        rawBuf := new Byte[rlen];
      }
    }

    /** freenect_start_video. */
    method StartVideo(rlen: nat, plen: nat)
      requires Inv(View()) && !running
      modifies `running, `rawBuf, `procBuf, `libBuf, `splitBufs
      ensures Inv(View()) && running && procBuf == back
    {
      InitStream(rlen, plen);
      running := true;
    }
  }
}
