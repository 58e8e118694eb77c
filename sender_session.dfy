/*
  The sender window's session logic as a sequential event machine. The
  window's `sending` flag and its two buttons are changed by the Start and
  Stop buttons and by the worker thread that Start launches. The worker
  sets up the socket and the microphone line, then loops while `sending`
  holds: it reads up to one frame of PCM, and when anything was read,
  encodes the whole frame buffer to µ-law and sends it as one datagram.

  The pure state `SenderState` and one transition function per event are
  the specification; the class `AudioSender` holds the same state in fields
  and arrays, and each of its methods is proved to perform its transition.
  Threads are not modelled: each worker step is an event of its own, so any
  interleaving of button clicks with worker steps is a sequence of events.
*/
module SenderSession {
  import opened JavaInt
  import opened PcmFrames

  /** Where the worker thread is: not started or finished, in its setup
      before the loop, or in the loop. */
  datatype Phase = NoWorker | SettingUp | Streaming

  datatype SenderState = SenderState(
    sending: bool,
    startEnabled: bool,
    stopEnabled: bool,
    phase: Phase,
    /** The port the worker parsed (it is only checked when a packet is built). */
    port: int,
    /** Whether the live worker holds an open microphone line and socket;
        those a failed worker leaves open are counted in `abandoned`. */
    micOpen: bool,
    socketOpen: bool,
    /** Microphone lines and sockets left open by workers that failed. */
    abandoned: nat,
    /** The worker's PCM and µ-law buffers. */
    pcm: seq<Byte>,
    ulaw: seq<Byte>,
    /** The payloads of the datagrams sent so far, in order. */
    sent: seq<seq<Byte>>)

  /** How the worker's setup ends: with a parsed port, a socket and an open
      microphone; with an exception before the socket exists (an unknown
      host or a port that is not a number); or with an exception while
      acquiring or opening the microphone, after the socket was created. */
  datatype Setup = Ready(port: int) | NoSocket | MicFailed(micOpened: bool)

  /** The events of the window: the two buttons and the worker's steps. */
  datatype Event =
    | StartClicked
    | StopClicked
    | SetupEnds(setup: Setup)
    /** One pass of the loop: the bytes `mic.read` delivered, and whether
        `socket.send` fails. */
    | Pass(read: seq<Byte>, sendFails: bool)
    /** The loop test finds `sending` false. */
    | LoopExit

  /** A port `DatagramPacket` accepts. */
  predicate ValidPort(port: int) { 0 <= port <= 0xFFFF }

  /** The window as built: only the Start button enabled. */
  function Initial(): SenderState {
    SenderState(false, true, false, NoWorker, 0, false, false, 0,
                Zeros(PCM_BYTES), Zeros(ULAW_BYTES), [])
  }

  /** The state every step keeps. */
  ghost predicate Inv(s: SenderState) {
    && s.stopEnabled == !s.startEnabled
    && (s.startEnabled ==> s.phase == NoWorker && !s.sending)
    && (if s.phase == Streaming then s.micOpen && s.socketOpen else !s.micOpen && !s.socketOpen)
    && |s.pcm| == PCM_BYTES && |s.ulaw| == ULAW_BYTES
  }

  /** `startSending`: set the flag, swap the buttons, launch the worker. */
  function Start(s: SenderState): (r: SenderState)
    requires s.startEnabled
    ensures Inv(s) ==> Inv(r)
    ensures r.sent == s.sent
  {
    s.(sending := true, startEnabled := false, stopEnabled := true, phase := SettingUp)
  }

  /** `stopSending`: only the flag is cleared. */
  function Stop(s: SenderState): (r: SenderState)
    requires s.stopEnabled
    ensures Inv(s) ==> Inv(r)
    ensures !r.sending && r.phase == s.phase
    ensures r.startEnabled == s.startEnabled && r.stopEnabled == s.stopEnabled
  {
    s.(sending := false)
  }

  /** The worker's catch block: the buttons are reset and the flag cleared.
      The microphone and the socket are not closed: they are left open, no
      longer held by a worker, and counted in `abandoned`. Whatever step the
      worker failed in, the window is left consistent, with nothing sent. */
  function Crash(s: SenderState): (r: SenderState)
    ensures |s.pcm| == PCM_BYTES && |s.ulaw| == ULAW_BYTES ==> Inv(r)
    ensures r.sent == s.sent && r.abandoned >= s.abandoned
  {
    s.(sending := false, startEnabled := true, stopEnabled := false, phase := NoWorker,
       micOpen := false, socketOpen := false,
       abandoned := s.abandoned + (if s.micOpen then 1 else 0) + (if s.socketOpen then 1 else 0))
  }

  /** The end of the worker's setup. On success the frame buffers are new
      and zeroed, as Java allocates them. */
  function SetupStep(s: SenderState, setup: Setup): (r: SenderState)
    requires s.phase == SettingUp
    ensures Inv(s) ==> Inv(r)
    ensures r.sent == s.sent
  {
    match setup
    case Ready(port) =>
      s.(phase := Streaming, port := port, micOpen := true, socketOpen := true,
         pcm := Zeros(PCM_BYTES), ulaw := Zeros(ULAW_BYTES))
    case NoSocket => Crash(s)
    case MicFailed(micOpened) => Crash(s.(socketOpen := true, micOpen := micOpened))
  }

  /** The frame buffer after a read of `read`: the bytes read at its front,
      the rest left from earlier passes. */
  function Refill(pcm: seq<Byte>, read: seq<Byte>): (r: seq<Byte>)
    requires |read| <= |pcm|
    ensures |r| == |pcm|
    ensures forall k :: 0 <= k < |read| ==> r[k] == read[k]
    ensures forall k :: |read| <= k < |pcm| ==> r[k] == pcm[k]
  {
    read + pcm[|read|..]
  }

  /** One pass of the loop: a read of nothing changes nothing; any other
      read encodes the whole buffer and sends it, and a packet to a bad
      port or a failed send ends in the catch block. */
  function PassStep(s: SenderState, read: seq<Byte>, sendFails: bool): (r: SenderState)
    requires s.phase == Streaming && s.sending
    requires |s.pcm| == PCM_BYTES && |read| <= PCM_BYTES
    ensures Inv(s) ==> Inv(r)
  {
    if |read| == 0 then s
    else
      var pcm := Refill(s.pcm, read);
      var s' := s.(pcm := pcm, ulaw := EncodedFrame(pcm));
      if !ValidPort(s.port) || sendFails then Crash(s')
      else s'.(sent := s.sent + [s'.ulaw])
  }

  /** The loop finds the flag cleared: the microphone and the socket are
      closed; the buttons are left as they are. */
  function ExitStep(s: SenderState): (r: SenderState)
    requires s.phase == Streaming && !s.sending
    ensures Inv(s) ==> Inv(r)
    ensures r.startEnabled == s.startEnabled && r.abandoned == s.abandoned && r.sent == s.sent
  {
    s.(phase := NoWorker, micOpen := false, socketOpen := false)
  }

  /** Whether the event can happen now: a disabled button does not fire, and
      a worker event needs the worker to be at that step. */
  predicate Enabled(s: SenderState, e: Event) {
    match e
    case StartClicked => s.startEnabled
    case StopClicked => s.stopEnabled
    case SetupEnds(_) => s.phase == SettingUp
    case Pass(read, _) => s.phase == Streaming && s.sending && |read| <= PCM_BYTES && |s.pcm| == PCM_BYTES
    case LoopExit => s.phase == Streaming && !s.sending
  }

  /** The effect of one event; an event that cannot happen changes nothing.
      Every event keeps the invariant. */
  function Step(s: SenderState, e: Event): (r: SenderState)
    ensures Inv(s) ==> Inv(r)
  {
    if !Enabled(s, e) then s
    else match e
      case StartClicked => Start(s)
      case StopClicked => Stop(s)
      case SetupEnds(setup) => SetupStep(s, setup)
      case Pass(read, sendFails) => PassStep(s, read, sendFails)
      case LoopExit => ExitStep(s)
  }

  /** The state after a sequence of events. */
  function Run(s: SenderState, es: seq<Event>): SenderState
    decreases |es|
  {
    if |es| == 0 then s else Run(Step(s, es[0]), es[1..])
  }

  // ---------------------------------------------------------------------
  // Properties of the event machine.

  /** The window starts in the invariant. */
  lemma InitialInv()
    ensures Inv(Initial())
  {
  }

  lemma {:induction false} RunKeepsInv(s: SenderState, es: seq<Event>)
    requires Inv(s)
    ensures Inv(Run(s, es))
    decreases |es|
  {
    if |es| > 0 {
      RunKeepsInv(Step(s, es[0]), es[1..]);
    }
  }

  /** A pass sends one datagram exactly when something was read and the
      send goes through, and that datagram is the encoding of the whole
      refilled buffer; a read of nothing leaves the state as it was. */
  lemma SendRule(s: SenderState, read: seq<Byte>, sendFails: bool)
    requires Inv(s) && s.phase == Streaming && s.sending && |read| <= PCM_BYTES
    ensures |read| == 0 ==> PassStep(s, read, sendFails) == s
    ensures PassStep(s, read, sendFails).sent ==
      if |read| > 0 && ValidPort(s.port) && !sendFails
      then s.sent + [EncodedFrame(Refill(s.pcm, read))]
      else s.sent
    ensures |read| > 0 ==> |PassStep(s, read, sendFails).ulaw| == ULAW_BYTES
  {
    if |read| > 0 {
      EncodedLength(Refill(s.pcm, read));
    }
  }

  /** After a partial read, the samples past the bytes read are encoded from
      the bytes the buffer held before: output byte i is the µ-law code of
      the little-endian sample at bytes 2i and 2i+1 of the refilled buffer,
      and for a sample the read did not reach, those are the old bytes. */
  lemma StaleSamples(pcm: seq<Byte>, read: seq<Byte>, i: nat)
    requires |pcm| == PCM_BYTES && |read| <= PCM_BYTES && i < ULAW_BYTES
    ensures EncodedFrame(Refill(pcm, read))[i] == ULawEncoder.Encode(SampleAt(Refill(pcm, read), i))
    ensures 2 * i >= |read| ==> SampleAt(Refill(pcm, read), i) == SampleAt(pcm, i)
  {
    var p := Refill(pcm, read);
    EncodedSampleValue(p, i);
    if 2 * i >= |read| {
      assert p[2 * i] == pcm[2 * i] && p[2 * i + 1] == pcm[2 * i + 1];
    }
  }

  lemma EncodedLength(pcm: seq<Byte>)
    requires |pcm| == PCM_BYTES
    ensures |EncodedFrame(pcm)| == ULAW_BYTES
  {
    EncodedSampleValue(pcm, 0);
  }

  /** How a worker ends. A normal exit (the loop finds the flag cleared)
      closes the microphone and the socket but leaves the Start button
      disabled; every other end is the catch block, which re-enables Start,
      disables Stop and clears the flag, and abandons what was open. */
  lemma WorkerEnds(s: SenderState, e: Event)
    requires Inv(s) && s.phase != NoWorker && Enabled(s, e)
    requires Step(s, e).phase == NoWorker
    ensures e.LoopExit? ==>
      !Step(s, e).startEnabled && Step(s, e).abandoned == s.abandoned &&
      !Step(s, e).micOpen && !Step(s, e).socketOpen
    ensures !e.LoopExit? ==>
      Step(s, e).startEnabled && !Step(s, e).stopEnabled && !Step(s, e).sending &&
      Step(s, e).abandoned >= s.abandoned
  {
  }

  /** Once a worker has ended normally, nothing re-enables Start: whatever
      happens afterwards, no worker runs again and nothing more is sent. */
  lemma {:induction false} StrandedAfterStop(s: SenderState, es: seq<Event>)
    requires Inv(s) && s.phase == NoWorker && !s.startEnabled
    ensures !Run(s, es).startEnabled && Run(s, es).phase == NoWorker
    ensures Run(s, es).sent == s.sent
    decreases |es|
  {
    if |es| > 0 {
      StrandedAfterStop(Step(s, es[0]), es[1..]);
    }
  }

  /** The ordinary session, Start, a successful setup, Stop and the loop's
      exit, reaches that stranded state. */
  lemma NormalStopStrands(port: int)
    ensures var s := Run(Initial(), [StartClicked, SetupEnds(Ready(port)), StopClicked, LoopExit]);
      s.phase == NoWorker && !s.startEnabled && s.stopEnabled && !s.sending
  {
    var s1 := Step(Initial(), StartClicked);
    var s2 := Step(s1, SetupEnds(Ready(port)));
    var s3 := Step(s2, StopClicked);
    var s4 := Step(s3, LoopExit);
    RunCons(Initial(), StartClicked, [SetupEnds(Ready(port)), StopClicked, LoopExit]);
    RunCons(s1, SetupEnds(Ready(port)), [StopClicked, LoopExit]);
    RunCons(s2, StopClicked, [LoopExit]);
    RunCons(s3, LoopExit, []);
  }

  lemma RunCons(s: SenderState, e: Event, es: seq<Event>)
    ensures Run(s, [e] + es) == Run(Step(s, e), es)
  {
    assert ([e] + es)[1..] == es;
  }

  // ---------------------------------------------------------------------
  // The window and its worker, with the buffers in arrays.

  class AudioSender {
    var sending: bool
    var startEnabled: bool
    var stopEnabled: bool
    var phase: Phase
    var port: int
    var micOpen: bool
    var socketOpen: bool
    var abandoned: nat
    var buffer: array<Byte>
    var ulawBuffer: array<Byte>
    var sent: seq<seq<Byte>>

    function State(): SenderState
      reads this, buffer, ulawBuffer
    {
      SenderState(sending, startEnabled, stopEnabled, phase, port, micOpen, socketOpen,
                  abandoned, buffer[..], ulawBuffer[..], sent)
    }

    ghost predicate Valid()
      reads this, buffer, ulawBuffer
    {
      buffer.Length == PCM_BYTES && ulawBuffer.Length == ULAW_BYTES && Inv(State())
    }

    constructor ()
      ensures Valid() && State() == Initial()
    {
      sending, startEnabled, stopEnabled, phase := false, true, false, NoWorker;
      port, micOpen, socketOpen, abandoned := 0, false, false, 0;
      buffer := new Byte[PCM_BYTES](_ => 0);
      ulawBuffer := new Byte[ULAW_BYTES](_ => 0);
      sent := [];
    }

    method StartSending()
      requires Valid() && startEnabled
      modifies this
      ensures Valid() && State() == Start(old(State()))
    {
      sending := true;
      startEnabled, stopEnabled := false, true;
      phase := SettingUp;
    }

    method StopSending()
      requires Valid() && stopEnabled
      modifies this
      ensures Valid() && State() == Stop(old(State()))
    {
      sending := false;
    }

    /** The catch block: the microphone and socket stay open, counted in
        `abandoned`. */
    method Fail()
      requires buffer.Length == PCM_BYTES && ulawBuffer.Length == ULAW_BYTES
      modifies this
      ensures buffer == old(buffer) && ulawBuffer == old(ulawBuffer)
      ensures Valid() && State() == Crash(old(State()))
    {
      abandoned := abandoned + (if micOpen then 1 else 0) + (if socketOpen then 1 else 0);
      micOpen, socketOpen := false, false;
      startEnabled, stopEnabled, sending := true, false, false;
      phase := NoWorker;
    }

    method SetupWorker(setup: Setup)
      requires Valid() && phase == SettingUp
      modifies this
      ensures Valid() && State() == SetupStep(old(State()), setup)
    {
      match setup
      case Ready(p) =>
        port := p;
        socketOpen, micOpen := true, true;
        buffer := new Byte[PCM_BYTES](_ => 0);
        ulawBuffer := new Byte[ULAW_BYTES](_ => 0);
        phase := Streaming;
      case NoSocket =>
        Fail();
      case MicFailed(micOpened) =>
        socketOpen, micOpen := true, micOpened;
        Fail();
    }

    /** One pass of the loop; `read` stands for the bytes `mic.read` puts at
        the front of the buffer. */
    method ReadAndSend(read: seq<Byte>, sendFails: bool)
      requires Valid() && phase == Streaming && sending && |read| <= PCM_BYTES
      modifies this, buffer, ulawBuffer
      ensures Valid() && State() == PassStep(old(State()), read, sendFails)
    {
      forall k | 0 <= k < |read| {
        buffer[k] := read[k];
      }
      assert buffer[..] == Refill(old(buffer[..]), read);
      var bytesRead := |read|;
      if bytesRead > 0 {
        EncodeFrame(buffer, ulawBuffer);
        EncodedLength(buffer[..]);
        if !ValidPort(port) || sendFails {
          Fail();
        } else {
          sent := sent + [ulawBuffer[..]];
        }
      }
    }

    /** The loop test fails: the microphone and the socket are closed. */
    method FinishStreaming()
      requires Valid() && phase == Streaming && !sending
      modifies this
      ensures Valid() && State() == ExitStep(old(State()))
    {
      micOpen, socketOpen := false, false;
      phase := NoWorker;
    }
  }
}
