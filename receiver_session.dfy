/*
  The receiver window's session logic as a sequential event machine. The
  window's `receiving` flag, its `socket` field and its two buttons are
  changed by the Start and Stop buttons, by the worker thread Start
  launches, and by the socket close that Stop schedules on the event
  thread. The worker binds a socket and stores it in `socket`, opens the
  speaker line, then loops while `receiving` holds: it blocks in `receive`,
  decodes the whole µ-law buffer into the PCM buffer, paces itself against
  `nextPlay` and plays the frame. Its `finally` block always releases the
  speaker line and the socket, clears `socket` and `receiving`, and resets
  the buttons. The speaker line itself is audio I/O and is not modelled.

  The pure state `ReceiverState` and one transition function per event are
  the specification; the class `AudioReceiver` holds the same state in
  fields and arrays and each of its methods is proved to perform its
  transition. Threads are not modelled: every worker step and the scheduled
  close are events of their own, so the interleavings are event sequences.
*/
module ReceiverSession {
  import opened JavaInt
  import opened PcmFrames
  import opened Pacing

  /** The worker's socket, `currentSocket`: not yet bound, open, or closed. */
  datatype Sock = Unbound | Open | Closed

  /** Where the worker thread is: not started or finished; parsing the port
      and binding; bound, before the socket timeout and the speaker line are
      set up; at the loop test; or blocked in `receive`. */
  datatype Phase = NoWorker | Binding | Bound | LoopTop | Waiting {
    /** The phases in which the worker has stored its socket. */
    predicate SocketHeld() { Bound? || LoopTop? || Waiting? }
    /** The phases of the receive loop. */
    predicate Looping() { LoopTop? || Waiting? }
  }

  /** The four ways a worker ends, as it logs them. */
  datatype Exit = Graceful | ShutdownComplete | UnexpectedSocketError | CriticalError

  datatype ReceiverState = ReceiverState(
    receiving: bool,
    startEnabled: bool,
    stopEnabled: bool,
    /** Whether the field `socket` holds the worker's socket (else null). */
    socketStored: bool,
    phase: Phase,
    sock: Sock,
    /** Closes scheduled by Stop that have not run yet. */
    pendingCloses: nat,
    nextPlay: Long,
    ulaw: seq<Byte>,
    pcm: seq<Byte>,
    /** Every PCM frame handed to the speakers, in order. */
    played: seq<seq<Byte>>,
    /** How each worker ended, in order. */
    exits: seq<Exit>,
    /** NullPointerExceptions thrown by scheduled closes on the event thread. */
    closeFailures: nat)

  /** How parsing the port and binding ends: bound; `parseInt` rejects the
      text; the number is not a port; or the bind fails (a SocketException). */
  datatype Bind = BindOk | NotANumber | PortOutOfRange | BindFailed

  /** How the speaker line's setup ends: ready, followed by the first clock
      reading; or an exception. */
  datatype Line = LineReady(t0: Long) | LineFailed

  datatype Event =
    | StartClicked
    | StopClicked
    | BindEnds(bind: Bind)
    | LineEnds(line: Line)
    | LoopTest
    /** A datagram arrives while the worker waits, and the clock reads `now`
        after decoding. */
    | Datagram(data: seq<Byte>, now: Long)
    /** `receive` throws while the worker waits on an open socket: a
        SocketException, or another IOException. */
    | ReceiveFails(socketException: bool)
    /** A close scheduled by Stop runs on the event thread. */
    | CloseRuns

  /** The window as built: only the Start button enabled. */
  function Initial(): ReceiverState {
    ReceiverState(false, true, false, false, NoWorker, Unbound, 0, 0,
                  Zeros(ULAW_BYTES), Zeros(PCM_BYTES), [], [], 0)
  }

  /** The state every step keeps. */
  ghost predicate Inv(s: ReceiverState) {
    && s.stopEnabled == !s.startEnabled
    && (s.receiving ==> s.stopEnabled)
    && (s.phase == NoWorker ==> s.startEnabled && !s.receiving && s.sock != Open)
    && (s.socketStored <==> s.phase.SocketHeld())
    && (s.phase.SocketHeld() ==> s.sock != Unbound)
    && (s.phase == Binding ==> s.sock == Unbound)
    && (s.phase == Waiting ==> s.sock == Open)
    && |s.ulaw| == ULAW_BYTES && |s.pcm| == PCM_BYTES
  }

  /** The catch blocks' rule for a SocketException: expected when the flag
      was already cleared by Stop, unexpected while it is still set. */
  function SocketError(s: ReceiverState): Exit {
    if s.receiving then UnexpectedSocketError else ShutdownComplete
  }

  /** The `finally` block: close the socket unless it is closed, clear
      `socket` and `receiving`, reset the buttons. (It also drains and closes
      the speaker line, which is audio I/O and not modelled.) */
  function Finally(s: ReceiverState, exit: Exit): (r: ReceiverState)
    ensures |s.ulaw| == ULAW_BYTES && |s.pcm| == PCM_BYTES ==> Inv(r)
    ensures r.phase == NoWorker && r.exits == s.exits + [exit]
    ensures r.played == s.played && r.pendingCloses == s.pendingCloses
  {
    s.(sock := if s.sock == Open then Closed else s.sock,
       socketStored := false, receiving := false,
       startEnabled := true, stopEnabled := false,
       phase := NoWorker, exits := s.exits + [exit])
  }

  /** `startReceiving`: set the flag, swap the buttons, launch the worker.
      A click reaches it only once the closes queued before it have run. */
  function Start(s: ReceiverState): (r: ReceiverState)
    requires s.startEnabled && s.phase == NoWorker && s.pendingCloses == 0
    ensures Inv(s) ==> Inv(r)
    ensures r.receiving && r.phase == Binding
    ensures r.played == s.played && r.exits == s.exits
  {
    s.(receiving := true, startEnabled := false, stopEnabled := true,
       phase := Binding, sock := Unbound)
  }

  /** `stopReceiving`: clear the flag; with no socket stored, reset the
      buttons at once, otherwise schedule a close of the stored socket. */
  function Stop(s: ReceiverState): (r: ReceiverState)
    requires s.stopEnabled
    ensures Inv(s) ==> Inv(r)
    ensures !r.receiving && r.phase == s.phase && r.exits == s.exits
  {
    if !s.socketStored then s.(receiving := false, startEnabled := true, stopEnabled := false)
    else s.(receiving := false, pendingCloses := s.pendingCloses + 1)
  }

  function BindStep(s: ReceiverState, bind: Bind): (r: ReceiverState)
    requires s.phase == Binding
    ensures Inv(s) ==> Inv(r)
    ensures r.phase == Bound <==> bind == BindOk
    ensures r.played == s.played
  {
    match bind
    case BindOk => s.(sock := Open, socketStored := true, phase := Bound)
    case NotANumber => Finally(s, CriticalError)
    case PortOutOfRange => Finally(s, CriticalError)
    case BindFailed => Finally(s, SocketError(s))
  }

  /** The rest of the setup: `setSoTimeout` fails on a socket that a
      scheduled close has already closed; then the speaker line; then new
      zeroed buffers and the first clock reading as the deadline. */
  function LineStep(s: ReceiverState, line: Line): (r: ReceiverState)
    requires s.phase == Bound
    ensures Inv(s) ==> Inv(r)
    ensures r.phase == LoopTop <==> s.sock != Closed && line.LineReady?
    ensures r.phase == LoopTop ==> r.nextPlay == line.t0 && r.played == s.played
  {
    if s.sock == Closed then Finally(s, SocketError(s))
    else match line
      case LineReady(t0) =>
        s.(ulaw := Zeros(ULAW_BYTES), pcm := Zeros(PCM_BYTES),
           nextPlay := t0, phase := LoopTop)
      case LineFailed => Finally(s, CriticalError)
  }

  /** The loop test: a cleared flag ends the loop normally; otherwise the
      worker calls `receive`, which fails at once on a closed socket. */
  function TestStep(s: ReceiverState): (r: ReceiverState)
    requires s.phase == LoopTop
    ensures Inv(s) ==> Inv(r)
    ensures r.phase == Waiting <==> s.receiving && s.sock != Closed
    ensures r.played == s.played && r.nextPlay == s.nextPlay
  {
    if !s.receiving then Finally(s, Graceful)
    else if s.sock == Closed then Finally(s, SocketError(s))
    else s.(phase := Waiting)
  }

  /** The µ-law buffer after `receive`: the datagram's bytes at its front,
      cut to the buffer's length, and the rest left from earlier datagrams. */
  function Received(ulaw: seq<Byte>, data: seq<Byte>): (r: seq<Byte>)
    ensures |r| == |ulaw|
    ensures forall k :: 0 <= k < |ulaw| ==> r[k] == if k < |data| then data[k] else ulaw[k]
  {
    if |data| >= |ulaw| then data[..|ulaw|] else data + ulaw[|data|..]
  }

  /** One frame: receive and decode, then pace and play. */
  function DatagramStep(s: ReceiverState, data: seq<Byte>, now: Long): (r: ReceiverState)
    requires s.phase == Waiting && |s.ulaw| == ULAW_BYTES
    ensures Inv(s) ==> Inv(r)
  {
    PlayStep(DecodeStep(s, data), now)
  }

  /** `receive` and the decode loop: the datagram lands at the front of the
      µ-law buffer and the whole buffer is decoded. */
  function DecodeStep(s: ReceiverState, data: seq<Byte>): (r: ReceiverState)
    ensures Inv(s) ==> Inv(r)
    ensures r.phase == s.phase && r.nextPlay == s.nextPlay && r.played == s.played
    ensures |r.ulaw| == |s.ulaw|
  {
    var ulaw := Received(s.ulaw, data);
    s.(ulaw := ulaw, pcm := DecodedFrame(ulaw))
  }

  /** A `receive` that throws on the open socket: a SocketException goes
      through the flag test, any other exception is critical; then the
      `finally` block runs. */
  function ReceiveErrorStep(s: ReceiverState, socketException: bool): (r: ReceiverState)
    requires s.phase == Waiting
    ensures Inv(s) ==> Inv(r)
    ensures r.phase == NoWorker && !r.receiving && r.sock != Open
    ensures r.exits == s.exits + [if socketException then SocketError(s) else CriticalError]
    ensures r.played == s.played && r.pendingCloses == s.pendingCloses
  {
    Finally(s, if socketException then SocketError(s) else CriticalError)
  }

  /** Sleep until the deadline (a negative sleep throws), advance the
      deadline, and play the PCM buffer. */
  function PlayStep(s: ReceiverState, now: Long): (r: ReceiverState)
    ensures Inv(s) && s.phase.Looping() ==> Inv(r)
    ensures r.phase == LoopTop <==> !Throws(SleepCall(s.nextPlay, now))
    ensures r.phase == LoopTop ==> r.played == s.played + [s.pcm]
    ensures r.phase != LoopTop ==> r.played == s.played
  {
    if Throws(SleepCall(s.nextPlay, now)) then Finally(s, CriticalError)
    else s.(nextPlay := Advance(s.nextPlay), played := s.played + [s.pcm], phase := LoopTop)
  }

  /** A scheduled close reads `socket` when it runs: null throws on the
      event thread; otherwise the socket closes, and a worker blocked in
      `receive` gets a SocketException. */
  function CloseStep(s: ReceiverState): (r: ReceiverState)
    requires s.pendingCloses > 0
    ensures Inv(s) ==> Inv(r)
    ensures r.pendingCloses == s.pendingCloses - 1
    ensures r.played == s.played && r.nextPlay == s.nextPlay
  {
    var s' := s.(pendingCloses := s.pendingCloses - 1);
    if !s.socketStored then s'.(closeFailures := s.closeFailures + 1)
    else if s.phase == Waiting then Finally(s'.(sock := Closed), SocketError(s))
    else s'.(sock := Closed)
  }

  /** Whether the event can happen now: a disabled button does not fire, a
      worker event needs the worker at that step, and Start needs the
      previous worker to have ended (a single worker is modelled). Stop's
      close and the `finally` block's button reset both go through the
      event queue; Stop's handler queues its close before it returns and
      the reset runs after that handler, so a Start click, which needs the
      reset, is dispatched only after every close queued before it. */
  predicate Enabled(s: ReceiverState, e: Event) {
    match e
    case StartClicked => s.startEnabled && s.phase == NoWorker && s.pendingCloses == 0
    case StopClicked => s.stopEnabled
    case BindEnds(_) => s.phase == Binding
    case LineEnds(_) => s.phase == Bound
    case LoopTest => s.phase == LoopTop
    case Datagram(_, _) => s.phase == Waiting && s.sock == Open && |s.ulaw| == ULAW_BYTES
    case ReceiveFails(_) => s.phase == Waiting
    case CloseRuns => s.pendingCloses > 0
  }

  /** The effect of one event; an event that cannot happen changes nothing. */
  function Step(s: ReceiverState, e: Event): (r: ReceiverState)
    ensures Inv(s) ==> Inv(r)
  {
    if !Enabled(s, e) then s
    else match e
      case StartClicked => Start(s)
      case StopClicked => Stop(s)
      case BindEnds(bind) => BindStep(s, bind)
      case LineEnds(line) => LineStep(s, line)
      case LoopTest => TestStep(s)
      case Datagram(data, now) => DatagramStep(s, data, now)
      case ReceiveFails(socketException) => ReceiveErrorStep(s, socketException)
      case CloseRuns => CloseStep(s)
  }

  function Run(s: ReceiverState, es: seq<Event>): ReceiverState
    decreases |es|
  {
    if |es| == 0 then s else Run(Step(s, es[0]), es[1..])
  }

  // ---------------------------------------------------------------------
  // Properties of the event machine.

  lemma InitialInv()
    ensures Inv(Initial())
  {
  }

  lemma {:induction false} RunKeepsInv(s: ReceiverState, es: seq<Event>)
    requires Inv(s)
    ensures Inv(Run(s, es))
    decreases |es|
  {
    if |es| > 0 {
      RunKeepsInv(Step(s, es[0]), es[1..]);
    }
  }

  /** Every exit is clean: when a step ends the worker, it records exactly
      one exit, and leaves `receiving` false, `socket` null, Start enabled,
      Stop disabled and the socket not open. Steps
      that do not end a worker record no exit. */
  lemma ExitsAreClean(s: ReceiverState, e: Event)
    requires Inv(s) && s.phase != NoWorker
    ensures var t := Step(s, e);
      t.phase == NoWorker ==>
        && |t.exits| == |s.exits| + 1
        && !t.receiving && !t.socketStored && t.startEnabled && !t.stopEnabled
        && t.sock != Open
    ensures Step(s, e).phase != NoWorker ==> Step(s, e).exits == s.exits
  {
    if Enabled(s, e) {
      match e
      case StartClicked =>
      case StopClicked =>
      case BindEnds(bind) =>
      case LineEnds(line) =>
      case LoopTest =>
      case Datagram(data, now) =>
        assert Step(s, e) == PlayStep(DecodeStep(s, data), now);
      case ReceiveFails(socketException) =>
      case CloseRuns =>
    }
  }

  /** The SocketException rule: whichever step raises it, it is logged as
      unexpected exactly when `receiving` was still set, and as a completed
      shutdown exactly when it was cleared. */
  lemma SocketErrorRule(s: ReceiverState, e: Event)
    requires Inv(s)
    requires |Step(s, e).exits| > |s.exits|
    ensures |Step(s, e).exits| == |s.exits| + 1
    ensures var x := Step(s, e).exits[|s.exits|];
      (x == UnexpectedSocketError ==> s.receiving) &&
      (x == ShutdownComplete ==> !s.receiving)
  {
    if Enabled(s, e) {
      match e
      case StartClicked =>
      case StopClicked =>
      case BindEnds(bind) =>
      case LineEnds(line) =>
      case LoopTest =>
      case Datagram(data, now) =>
        assert Step(s, e) == PlayStep(DecodeStep(s, data), now);
      case ReceiveFails(socketException) =>
      case CloseRuns =>
    }
  }

  /** A close that runs while the worker waits in `receive` ends it as a
      completed shutdown when Stop cleared the flag. */
  lemma StopWhileWaiting(s: ReceiverState)
    requires Inv(s) && s.phase == Waiting && !s.receiving && s.pendingCloses > 0
    ensures Step(s, CloseRuns).phase == NoWorker
    ensures Step(s, CloseRuns).exits == s.exits + [ShutdownComplete]
  {
  }

  /** A `receive` that fails while the flag is still set is logged as an
      unexpected socket error when it throws a SocketException, and as a
      critical error otherwise; once Stop cleared the flag, the
      SocketException is logged as a completed shutdown. */
  lemma UnexpectedWhileStreaming(s: ReceiverState)
    requires Inv(s) && s.phase == Waiting
    ensures s.receiving ==> Step(s, ReceiveFails(true)).exits == s.exits + [UnexpectedSocketError]
    ensures !s.receiving ==> Step(s, ReceiveFails(true)).exits == s.exits + [ShutdownComplete]
    ensures Step(s, ReceiveFails(false)).exits == s.exits + [CriticalError]
    ensures Step(s, ReceiveFails(true)).phase == NoWorker
  {
  }

  /** `stopReceiving` always clears the flag. With no socket stored it
      resets the buttons itself and schedules nothing; with one, it leaves
      the buttons and schedules one close. */
  lemma StopRule(s: ReceiverState)
    requires Inv(s) && s.stopEnabled
    ensures !Step(s, StopClicked).receiving
    ensures !s.socketStored ==>
      Step(s, StopClicked).startEnabled && !Step(s, StopClicked).stopEnabled &&
      Step(s, StopClicked).pendingCloses == s.pendingCloses
    ensures s.socketStored ==>
      !Step(s, StopClicked).startEnabled && Step(s, StopClicked).stopEnabled &&
      Step(s, StopClicked).pendingCloses == s.pendingCloses + 1
  {
  }

  /** A frame plays exactly when its sleep does not throw; the frame is the
      decoding of all 320 bytes of the buffer, whatever the datagram's
      length, and bytes past the datagram are the previous datagram's. */
  lemma FrameRule(s: ReceiverState, data: seq<Byte>, now: Long, i: nat)
    requires Inv(s) && s.phase == Waiting && i < ULAW_BYTES
    ensures var t := DatagramStep(s, data, now);
      |t.pcm| == PCM_BYTES &&
      UByte(t.pcm[2 * i]) == ULawDecoder.ULawToLinear(t.ulaw[i]) % 0x100 &&
      t.pcm[2 * i + 1] == ULawDecoder.ULawToLinear(t.ulaw[i]) / 0x100 &&
      t.ulaw[i] == (if i < |data| then data[i] else s.ulaw[i]) &&
      (t.played == s.played + [t.pcm] <==> !Throws(SleepCall(s.nextPlay, now)))
  {
    var ulaw := Received(s.ulaw, data);
    DecodedFrameAt(ulaw, i);
  }

  lemma RunCons(s: ReceiverState, e: Event, es: seq<Event>)
    ensures Run(s, [e] + es) == Run(Step(s, e), es)
  {
    assert ([e] + es)[1..] == es;
  }

  /** A first worker that Stop ends at its loop test after the bind: it exits
      gracefully with the close still queued. */
  lemma StoppedAtLoopTest(t0: Long)
    ensures var s := Run(Initial(), [StartClicked, BindEnds(BindOk), LineEnds(LineReady(t0)),
                                     StopClicked, LoopTest]);
      Inv(s) && s.phase == NoWorker && s.exits == [Graceful] &&
      s.pendingCloses == 1 && s.closeFailures == 0
  {
    var s1 := Step(Initial(), StartClicked);
    var s2 := Step(s1, BindEnds(BindOk));
    var s3 := Step(s2, LineEnds(LineReady(t0)));
    var s4 := Step(s3, StopClicked);
    InitialInv();
    RunCons(Initial(), StartClicked, [BindEnds(BindOk), LineEnds(LineReady(t0)), StopClicked, LoopTest]);
    RunCons(s1, BindEnds(BindOk), [LineEnds(LineReady(t0)), StopClicked, LoopTest]);
    RunCons(s2, LineEnds(LineReady(t0)), [StopClicked, LoopTest]);
    RunCons(s3, StopClicked, [LoopTest]);
    RunCons(s4, LoopTest, []);
  }

  /** The scheduled close can find `socket` already null: Stop after the
      bind, then the worker leaves through its `finally` (here because the
      loop test sees the cleared flag) before the close runs. The close then
      throws on the event thread. */
  lemma CloseAfterFinally(t0: Long)
    ensures var s := Run(Initial(), [StartClicked, BindEnds(BindOk), LineEnds(LineReady(t0)),
                                     StopClicked, LoopTest, CloseRuns]);
      s.exits == [Graceful] && s.closeFailures == 1
  {
    var p := [StartClicked, BindEnds(BindOk), LineEnds(LineReady(t0)), StopClicked, LoopTest];
    assert p + [CloseRuns] == [StartClicked, BindEnds(BindOk), LineEnds(LineReady(t0)),
                               StopClicked, LoopTest, CloseRuns];
    RunAppend(Initial(), p, [CloseRuns]);
    StoppedAtLoopTest(t0);
    RunCons(Run(Initial(), p), CloseRuns, []);
  }

  /** Stop before the bind finds no socket and re-enables Start while the
      worker is still alive, so a second Start could launch a second worker. */
  lemma StopBeforeBind()
    ensures var s := Run(Initial(), [StartClicked, StopClicked]);
      s.startEnabled && s.phase == Binding && !s.receiving
  {
    var s1 := Step(Initial(), StartClicked);
    RunCons(Initial(), StartClicked, [StopClicked]);
    RunCons(s1, StopClicked, []);
  }

  /** After a worker has ended with a close still queued, nothing happens
      until that close runs: Start waits behind it in the event queue, Stop
      is disabled, and no worker is alive to take a step. */
  lemma {:induction false} FrozenUntilClose(s: ReceiverState, es: seq<Event>)
    requires Inv(s) && s.phase == NoWorker && s.pendingCloses > 0
    requires forall i :: 0 <= i < |es| ==> es[i] != CloseRuns
    ensures Run(s, es) == s
    decreases |es|
  {
    if |es| > 0 {
      assert Step(s, es[0]) == s;
      FrozenUntilClose(s, es[1..]);
    }
  }

  /** A Start clicked after a worker ended but before Stop's close has run is
      dispatched after that close, so the close cannot reach the socket of
      the next worker: the close throws on the null `socket`, and the next
      worker starts afterwards on its own. */
  lemma CloseBeforeRestart(t0: Long)
    ensures var s := Run(Initial(), [StartClicked, BindEnds(BindOk), LineEnds(LineReady(t0)),
                                     StopClicked, LoopTest, StartClicked, BindEnds(BindOk),
                                     LineEnds(LineReady(t0)), LoopTest, CloseRuns]);
      s.exits == [Graceful] && s.closeFailures == 1 && s.phase == NoWorker
  {
    var p := [StartClicked, BindEnds(BindOk), LineEnds(LineReady(t0)), StopClicked, LoopTest];
    var tail := [StartClicked, BindEnds(BindOk), LineEnds(LineReady(t0)), LoopTest];
    assert p + (tail + [CloseRuns]) ==
      [StartClicked, BindEnds(BindOk), LineEnds(LineReady(t0)), StopClicked, LoopTest,
       StartClicked, BindEnds(BindOk), LineEnds(LineReady(t0)), LoopTest, CloseRuns];
    RunAppend(Initial(), p, tail + [CloseRuns]);
    var s5 := Run(Initial(), p);
    StoppedAtLoopTest(t0);
    RunAppend(s5, tail, [CloseRuns]);
    FrozenUntilClose(s5, tail);
    RunCons(s5, CloseRuns, []);
  }

  /** Running two event sequences one after the other. */
  lemma {:induction false} RunAppend(s: ReceiverState, es: seq<Event>, fs: seq<Event>)
    ensures Run(s, es + fs) == Run(Run(s, es), fs)
    decreases |es|
  {
    if |es| == 0 {
      assert es + fs == fs;
    } else {
      assert (es + fs)[1..] == es[1..] + fs;
      RunAppend(Step(s, es[0]), es[1..], fs);
    }
  }

  // ---------------------------------------------------------------------
  // The playback clock across the receive loop.

  /** Whether the worker is still in its receive loop after each event. */
  ghost predicate StaysLooping(s: ReceiverState, es: seq<Event>)
    decreases |es|
  {
    |es| == 0 || (Step(s, es[0]).phase.Looping() && StaysLooping(Step(s, es[0]), es[1..]))
  }

  /** The setup step that enters the loop sets the deadline to the first
      clock reading, the deadline after no frames. */
  lemma LoopStartsOnTime(s: ReceiverState, t0: Long)
    requires Inv(s) && s.phase == Bound
    ensures var t := Step(s, LineEnds(LineReady(t0)));
      t.phase.Looping() ==> t.nextPlay == Deadline(t0, |t.played| - |s.played|)
  {
    DeadlineStart(t0);
  }

  /** Within the loop every step keeps `nextPlay` at the deadline after the
      frames played since the loop began: a played frame moves the deadline
      on by one frame time, and no other step touches it. */
  lemma StepKeepsDeadline(s: ReceiverState, e: Event, t0: Long, base: nat)
    requires Inv(s) && s.phase.Looping() && base <= |s.played|
    requires s.nextPlay == Deadline(t0, |s.played| - base)
    ensures var t := Step(s, e);
      t.phase.Looping() ==> base <= |t.played| && t.nextPlay == Deadline(t0, |t.played| - base)
  {
    if Enabled(s, e) && e.Datagram? {
      var d := DecodeStep(s, e.data);
      assert Step(s, e) == PlayStep(d, e.now);
      DeadlineStep(t0, |s.played| - base);
    }
  }

  /** Over any run that stays in the loop, frame k (counted from the loop's
      start) is paced against the deadline t0 + k·40 ms, wrapped to a `long`. */
  lemma {:induction false} RunKeepsDeadline(s: ReceiverState, es: seq<Event>, t0: Long, base: nat)
    requires Inv(s) && s.phase.Looping() && base <= |s.played|
    requires s.nextPlay == Deadline(t0, |s.played| - base)
    requires StaysLooping(s, es)
    ensures var t := Run(s, es);
      base <= |t.played| && t.nextPlay == Deadline(t0, |t.played| - base)
    decreases |es|
  {
    if |es| > 0 {
      StepKeepsDeadline(s, es[0], t0, base);
      RunKeepsDeadline(Step(s, es[0]), es[1..], t0, base);
    }
  }

  // ---------------------------------------------------------------------
  // The window and its worker, with the buffers in arrays.

  class AudioReceiver {
    var receiving: bool
    var startEnabled: bool
    var stopEnabled: bool
    var socketStored: bool
    var phase: Phase
    var sock: Sock
    var pendingCloses: nat
    var nextPlay: Long
    var ulawBuffer: array<Byte>
    var pcmBuffer: array<Byte>
    var played: seq<seq<Byte>>
    var exits: seq<Exit>
    var closeFailures: nat

    ghost function State(): ReceiverState
      reads this, ulawBuffer, pcmBuffer
    {
      ReceiverState(receiving, startEnabled, stopEnabled, socketStored, phase, sock,
                    pendingCloses, nextPlay, ulawBuffer[..], pcmBuffer[..],
                    played, exits, closeFailures)
    }

    /** The buffers have the sizes the worker allocates. The invariant of
        the machine, `Inv`, is proved of the states `State()` runs through
        by the transitions' contracts and `RunKeepsInv`. */
    ghost predicate Valid()
      reads this
    {
      ulawBuffer.Length == ULAW_BYTES && pcmBuffer.Length == PCM_BYTES && ulawBuffer != pcmBuffer
    }

    constructor ()
      ensures Valid() && State() == Initial()
    {
      receiving, startEnabled, stopEnabled, socketStored := false, true, false, false;
      phase, sock, pendingCloses := NoWorker, Unbound, 0;
      nextPlay := 0;
      ulawBuffer := new Byte[ULAW_BYTES](_ => 0);
      pcmBuffer := new Byte[PCM_BYTES](_ => 0);
      played, exits, closeFailures := [], [], 0;
    }

    method StartReceiving()
      requires Valid() && startEnabled && phase == NoWorker && pendingCloses == 0
      modifies this
      ensures Valid() && State() == Start(old(State()))
    {
      ghost var u, p := ulawBuffer[..], pcmBuffer[..];
      receiving, startEnabled, stopEnabled, phase, sock := true, false, true, Binding, Unbound;
      assert ulawBuffer[..] == u && pcmBuffer[..] == p;
    }

    method StopReceiving()
      requires Valid() && stopEnabled
      modifies this
      ensures Valid() && State() == Stop(old(State()))
    {
      ghost var u, p := ulawBuffer[..], pcmBuffer[..];
      receiving := false;
      if socketStored {
        pendingCloses := pendingCloses + 1;
      } else {
        startEnabled, stopEnabled := true, false;
      }
      assert ulawBuffer[..] == u && pcmBuffer[..] == p;
    }

    /** The `finally` block, after the exit was logged. */
    method Finish(exit: Exit)
      requires Valid()
      modifies this
      ensures ulawBuffer == old(ulawBuffer) && pcmBuffer == old(pcmBuffer)
      ensures Valid() && State() == Finally(old(State()), exit)
    {
      ghost var t := Finally(State(), exit);
      var closed := if sock == Open then Closed else sock;
      exits, sock, socketStored, receiving, startEnabled, stopEnabled, phase :=
        exits + [exit], closed, false, false, true, false, NoWorker;
      assert ulawBuffer[..] == t.ulaw && pcmBuffer[..] == t.pcm;
    }

    method BindSocket(bind: Bind)
      requires Valid() && phase == Binding
      modifies this
      ensures Valid() && State() == BindStep(old(State()), bind)
    {
      match bind
      case BindOk =>
        ghost var u, p := ulawBuffer[..], pcmBuffer[..];
        sock, socketStored, phase := Open, true, Bound;
        assert ulawBuffer[..] == u && pcmBuffer[..] == p;
      case NotANumber =>
        Finish(CriticalError);
      case PortOutOfRange =>
        Finish(CriticalError);
      case BindFailed =>
        Finish(if receiving then UnexpectedSocketError else ShutdownComplete);
    }

    method SetUpLine(line: Line)
      requires Valid() && phase == Bound
      modifies this
      ensures Valid() && State() == LineStep(old(State()), line)
    {
      if sock == Closed {
        Finish(if receiving then UnexpectedSocketError else ShutdownComplete);
        return;
      }
      match line
      case LineReady(now) =>
        var ulaw := new Byte[ULAW_BYTES](_ => 0);
        var pcm := new Byte[PCM_BYTES](_ => 0);
        assert ulaw[..] == Zeros(ULAW_BYTES) && pcm[..] == Zeros(PCM_BYTES);
        ulawBuffer, pcmBuffer, nextPlay, phase := ulaw, pcm, now, LoopTop;
      case LineFailed =>
        Finish(CriticalError);
    }

    method TestLoop()
      requires Valid() && phase == LoopTop
      modifies this
      ensures Valid() && State() == TestStep(old(State()))
    {
      if !receiving {
        Finish(Graceful);
      } else if sock == Closed {
        Finish(if receiving then UnexpectedSocketError else ShutdownComplete);
      } else {
        ghost var u, p := ulawBuffer[..], pcmBuffer[..];
        phase := Waiting;
        assert ulawBuffer[..] == u && pcmBuffer[..] == p;
      }
    }

    /** One frame; `data` stands for the datagram `receive` copies into the
        µ-law buffer, and `now` for the clock reading after decoding. */
    method ReceiveDatagram(data: seq<Byte>, now: Long)
      requires Valid() && phase == Waiting && sock == Open
      modifies this, ulawBuffer, pcmBuffer
      ensures Valid() && State() == DatagramStep(old(State()), data, now)
    {
      ReceiveAndDecode(data);
      PaceAndPlay(now);
    }

    method ReceiveAndDecode(data: seq<Byte>)
      requires Valid()
      modifies ulawBuffer, pcmBuffer
      ensures State() == DecodeStep(old(State()), data)
    {
      var n := if |data| < ulawBuffer.Length then |data| else ulawBuffer.Length;
      forall k | 0 <= k < n {
        ulawBuffer[k] := data[k];
      }
      assert ulawBuffer[..] == Received(old(ulawBuffer[..]), data);
      DecodeFrame(ulawBuffer, pcmBuffer);
    }

    method PaceAndPlay(now: Long)
      requires Valid()
      modifies this
      ensures Valid() && State() == PlayStep(old(State()), now)
    {
      var sleep := SleepCall(nextPlay, now);
      if Throws(sleep) {
        Finish(CriticalError);
        return;
      }
      ghost var u, p := ulawBuffer[..], pcmBuffer[..];
      nextPlay, played, phase := Advance(nextPlay), played + [pcmBuffer[..]], LoopTop;
      assert ulawBuffer[..] == u && pcmBuffer[..] == p;
    }

    /** `receive` throws while the worker waits; `socketException` tells a
        SocketException from any other exception. */
    method ReceiveFailed(socketException: bool)
      requires Valid() && phase == Waiting
      modifies this
      ensures Valid() && State() == ReceiveErrorStep(old(State()), socketException)
    {
      if socketException {
        Finish(if receiving then UnexpectedSocketError else ShutdownComplete);
      } else {
        Finish(CriticalError);
      }
    }

    /** The close Stop scheduled, running on the event thread. */
    method RunScheduledClose()
      requires Valid() && pendingCloses > 0
      modifies this
      ensures Valid() && State() == CloseStep(old(State()))
    {
      ghost var u, p := ulawBuffer[..], pcmBuffer[..];
      pendingCloses := pendingCloses - 1;
      if !socketStored {
        closeFailures := closeFailures + 1;
      } else if phase == Waiting {
        var wasReceiving := receiving;
        sock := Closed;
        assert ulawBuffer[..] == u && pcmBuffer[..] == p;
        Finish(if wasReceiving then UnexpectedSocketError else ShutdownComplete);
        return;
      } else {
        sock := Closed;
      }
      assert ulawBuffer[..] == u && pcmBuffer[..] == p;
    }
  }
}
