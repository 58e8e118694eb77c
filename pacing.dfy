/*
  The receiver's playback clock. Before the first datagram the worker reads
  the clock into `nextPlay`; after decoding each datagram it reads the clock
  again (`now`), sleeps for the whole milliseconds left until `nextPlay` when
  it is early, and then moves `nextPlay` on by one frame time of 40 ms.
  All of it is `long` arithmetic. The clock readings are inputs; the sleep
  is returned as the argument the worker would pass to `Thread.sleep`.
*/
module Pacing {
  import opened JavaInt

  /** The frame time, 40 ms in nanoseconds (`frameTime`). */
  const FRAME_TIME: int := 40_000_000

  /** Nanoseconds per millisecond, the divisor of the sleep amount. */
  const NANOS_PER_MILLI: int := 1_000_000

  /** What one pass of the loop does about timing: no call when the frame is
      on time or late, otherwise `Thread.sleep(ms)`. */
  datatype Sleep = NoSleep | SleepMs(ms: int)

  /** `Thread.sleep` rejects a negative argument with an
      IllegalArgumentException. */
  predicate Throws(s: Sleep) {
    s.SleepMs? && s.ms < 0
  }

  /** The sleep of one pass, given the deadline and the clock reading. The
      gap `nextPlay - now` is a `long` difference and the division truncates.
      There is no sleep exactly when the frame is due; otherwise, while the gap
      fits in a `long`, the sleep is the whole milliseconds of the gap, never
      more than the gap; a gap that overflows wraps negative, and the call
      throws exactly when the wrapped gap is a millisecond or more below zero. */
  function SleepCall(nextPlay: Long, now: Long): (r: Sleep)
    ensures r == NoSleep <==> nextPlay <= now
    ensures now < nextPlay && nextPlay - now <= LONG_MAX ==>
      r.SleepMs? && 0 <= r.ms && r.ms * NANOS_PER_MILLI <= nextPlay - now < (r.ms + 1) * NANOS_PER_MILLI
    ensures nextPlay - now > LONG_MAX ==>
      r.SleepMs? && (Throws(r) <==> nextPlay - now - 0x1_0000_0000_0000_0000 <= -NANOS_PER_MILLI)
  {
    if now < nextPlay then
      var gap := ToLong(nextPlay - now);
      assert nextPlay - now > LONG_MAX ==> gap == nextPlay - now - 0x1_0000_0000_0000_0000;
      SleepMs(Quot(gap, NANOS_PER_MILLI))
    else NoSleep
  }

  /** `nextPlay += frameTime`: the exact sum while it fits, and in any case
      the sum modulo 2^64. */
  function Advance(nextPlay: Long): (r: Long)
    ensures IsLong(nextPlay + FRAME_TIME) ==> r == nextPlay + FRAME_TIME
    ensures (nextPlay + FRAME_TIME - r) % 0x1_0000_0000_0000_0000 == 0
  {
    LongResidue(nextPlay + FRAME_TIME);
    ToLong(nextPlay + FRAME_TIME)
  }

  /** The deadline after k frames when the first reading was t0: the exact
      t0 + k frame times, taken as a `long`. */
  function Deadline(t0: Long, k: nat): (r: Long)
    ensures IsLong(t0 + k * FRAME_TIME) ==> r == t0 + k * FRAME_TIME
  {
    ToLong(t0 + k * FRAME_TIME)
  }

  /** The timing half of the receive loop over the clock readings `nows`,
      one per datagram. It stops at the first pass whose sleep would throw;
      `sleeps` holds the calls of the passes that completed. */
  method PaceFrames(t0: Long, nows: seq<Long>) returns (sleeps: seq<Sleep>, nextPlay: Long)
    ensures |sleeps| <= |nows|
    ensures forall k :: 0 <= k < |sleeps| ==>
      sleeps[k] == SleepCall(Deadline(t0, k), nows[k]) && !Throws(sleeps[k])
    ensures |sleeps| < |nows| ==> Throws(SleepCall(Deadline(t0, |sleeps|), nows[|sleeps|]))
    ensures nextPlay == Deadline(t0, |sleeps|)
  {
    nextPlay := t0;
    sleeps := [];
    while |sleeps| < |nows|
      invariant |sleeps| <= |nows|
      invariant nextPlay == Deadline(t0, |sleeps|)
      invariant forall k :: 0 <= k < |sleeps| ==>
        sleeps[k] == SleepCall(Deadline(t0, k), nows[k]) && !Throws(sleeps[k])
    {
      var sleep := SleepCall(nextPlay, nows[|sleeps|]);
      if Throws(sleep) {
        return;
      }
      DeadlineStep(t0, |sleeps|);
      sleeps := sleeps + [sleep];
      nextPlay := Advance(nextPlay);
    }
  }

  /** Advancing the deadline after k frames gives the deadline after k + 1
      frames, however often the `long` has wrapped on the way. */
  lemma DeadlineStep(t0: Long, k: nat)
    ensures Advance(Deadline(t0, k)) == Deadline(t0, k + 1)
  {
    var x := t0 + k * FRAME_TIME;
    LongResidue(x);
    assert t0 + (k + 1) * FRAME_TIME == x + FRAME_TIME;
    LongWrap(Deadline(t0, k) + FRAME_TIME, x + FRAME_TIME);
  }

  /** The first deadline is the first reading. */
  lemma DeadlineStart(t0: Long)
    ensures Deadline(t0, 0) == t0
  {
  }
}
