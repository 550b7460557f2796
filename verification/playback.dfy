/**
 * The playback scheduling rule of the session controller. Each decoded
 * chunk is started at `max(cursor, now)`, where `now` is the output device's
 * clock, and the cursor then moves to the end of that chunk. A run is the
 * list of chunks scheduled since the cursor was last reset to 0 (at start-up
 * or on an interruption); the lemmas here say what that rule guarantees for
 * a whole run.
 */
module Playback {

  /** One scheduled buffer source: its id, the device time when its chunk was
      scheduled, the time it was told to start at, and its duration. */
  datatype Unit = Unit(id: nat, requestedAt: real, start: real, duration: real)

  /** `Math.max` on two times. */
  function Max(a: real, b: real): (m: real)
    ensures m >= a && m >= b && (m == a || m == b)
  {
    if a >= b then a else b
  }

  /** Where the cursor stands after the units of `run`: the end of the last
      one, or 0 for an empty run. */
  function EndOf(run: seq<Unit>): real {
    if run == [] then 0.0 else run[|run| - 1].start + run[|run| - 1].duration
  }

  /** Every unit of `run` has a non-negative duration and was started at
      `max(cursor, now)`, the cursor being the end of the units before it. */
  predicate Scheduled(run: seq<Unit>) {
    forall k :: 0 <= k < |run| ==>
      run[k].duration >= 0.0 && run[k].start == Max(EndOf(run[..k]), run[k].requestedAt)
  }

  /** Scheduling one more chunk extends a run: the new unit starts at
      `max(cursor, now)` and the cursor moves to its end. */
  lemma ScheduledExtend(run: seq<Unit>, u: Unit)
    requires Scheduled(run)
    requires u.duration >= 0.0 && u.start == Max(EndOf(run), u.requestedAt)
    ensures Scheduled(run + [u])
    ensures EndOf(run + [u]) == u.start + u.duration
  {
    var r := run + [u];
    forall k | 0 <= k < |r|
      ensures r[k].duration >= 0.0 && r[k].start == Max(EndOf(r[..k]), r[k].requestedAt)
    {
      if k < |run| {
        assert r[..k] == run[..k];
      } else {
        assert r[..k] == run;
      }
    }
  }

  /** Consecutive units never overlap: each starts no earlier than the end of
      the one before it, and no earlier than the time it was scheduled. */
  lemma NoOverlap(run: seq<Unit>)
    requires Scheduled(run)
    ensures forall k :: 0 <= k < |run| ==> run[k].start >= run[k].requestedAt
    ensures forall k :: 0 < k < |run| ==> run[k].start >= run[k - 1].start + run[k - 1].duration
  {
    forall k | 0 < k < |run|
      ensures run[k].start >= run[k - 1].start + run[k - 1].duration
    {
      assert run[..k][k - 1] == run[k - 1];
    }
  }

  /** Within a run the cursor never moves back. */
  lemma {:induction false} CursorMonotone(run: seq<Unit>, j: nat, k: nat)
    requires Scheduled(run) && j <= k <= |run|
    ensures EndOf(run[..j]) <= EndOf(run[..k])
    decreases k - j
  {
    if j < k {
      CursorMonotone(run, j, k - 1);
      assert run[..k - 1] == run[..k][..k - 1];
      assert run[..k][k - 1] == run[k - 1];
    }
  }

  /** The total duration of the units of `run`. */
  function TotalDuration(run: seq<Unit>): real {
    if run == [] then 0.0 else TotalDuration(run[..|run| - 1]) + run[|run| - 1].duration
  }

  /** The device clock had not passed the cursor when any chunk after the
      first arrived. The first chunk of a run is not constrained: it starts
      at the clock's time, the cursor having been reset to 0. */
  predicate KeptUp(run: seq<Unit>) {
    forall k :: 1 <= k < |run| ==> run[k].requestedAt <= EndOf(run[..k])
  }

  /** Gapless chaining: when the device clock never ran past the cursor after
      the first chunk, each unit starts exactly when the units before it,
      played back to back from the first unit's start, have finished. */
  lemma {:induction false} GaplessWhenKeptUp(run: seq<Unit>)
    requires Scheduled(run) && KeptUp(run) && run != []
    ensures forall k :: 0 <= k < |run| ==> run[k].start == run[0].start + TotalDuration(run[..k])
    ensures EndOf(run) == run[0].start + TotalDuration(run)
  {
    var n := |run| - 1;
    var init := run[..n];
    if n == 0 {
      assert run[..0] == [];
      assert TotalDuration(run) == TotalDuration(run[..0]) + run[0].duration;
    } else {
      assert Scheduled(init) by {
        forall k | 0 <= k < |init|
          ensures init[k].duration >= 0.0 && init[k].start == Max(EndOf(init[..k]), init[k].requestedAt)
        {
          assert init[..k] == run[..k];
        }
      }
      assert KeptUp(init) by {
        forall k | 1 <= k < |init| ensures init[k].requestedAt <= EndOf(init[..k]) {
          assert init[..k] == run[..k];
        }
      }
      GaplessWhenKeptUp(init);
      assert init[0] == run[0];
      forall k | 0 <= k < |run| ensures run[k].start == run[0].start + TotalDuration(run[..k]) {
        if k < n {
          assert init[..k] == run[..k];
        } else {
          assert run[..k] == init;
        }
      }
      assert TotalDuration(run) == TotalDuration(init) + run[n].duration;
    }
  }

  /** The first chunk after a reset starts at the clock's time, since the
      cursor is 0 and the device clock never reads below 0. */
  lemma FirstChunkStartsNow(run: seq<Unit>)
    requires Scheduled(run) && run != [] && run[0].requestedAt >= 0.0
    ensures run[0].start == run[0].requestedAt
  {
    assert run[..0] == [];
  }

  /** Resynchronisation: a chunk that arrives after the device clock has
      passed the cursor starts at the clock's time, not at the stale cursor. */
  lemma ResyncAfterStall(run: seq<Unit>, k: nat)
    requires Scheduled(run) && k < |run|
    requires run[k].requestedAt > EndOf(run[..k])
    ensures run[k].start == run[k].requestedAt
  {
  }
}
