/** The move timer, `Timer::from_seconds(0.12, TimerMode::Repeating)`,
    ticked once per frame by `player_input` with the frame's duration.

    Bevy's timer is a foreign library working on floating-point seconds.
    The model keeps its elapsed time in whole milliseconds and follows the
    documented behaviour of a repeating timer: the frame's delta is added
    to the elapsed time; when that reaches the duration the timer has
    finished (at least once) this tick and the elapsed time wraps around
    modulo the duration. */
module MoveTimer {

  /** The timer's duration, 0.12 s. */
  const Period: nat := 120

  datatype Ticked = Ticked(elapsed: nat, justFinished: bool)

  /** One `tick(delta)` of the repeating timer, and its `just_finished()`. */
  function Tick(elapsed: nat, delta: nat): (t: Ticked)
    requires elapsed < Period
    ensures t.elapsed < Period
    ensures t.justFinished <==> elapsed + delta >= Period
    ensures t.justFinished || t.elapsed == elapsed + delta
  {
    var total := elapsed + delta;
    if total >= Period then Ticked(total % Period, true) else Ticked(total, false)
  }

  /** Total time of a run of frames. */
  function Sum(deltas: seq<nat>): nat {
    if |deltas| == 0 then 0 else Sum(deltas[..|deltas| - 1]) + deltas[|deltas| - 1]
  }

  /** The timer's elapsed time after a run of frames. */
  function ElapsedAfter(elapsed: nat, deltas: seq<nat>): (e: nat)
    requires elapsed < Period
    ensures e < Period
  {
    if |deltas| == 0 then elapsed
    else Tick(ElapsedAfter(elapsed, deltas[..|deltas| - 1]), deltas[|deltas| - 1]).elapsed
  }

  /** How many frames of a run the timer lets through to the key handling. */
  function Admitted(elapsed: nat, deltas: seq<nat>): nat
    requires elapsed < Period
  {
    if |deltas| == 0 then 0
    else
      var e := ElapsedAfter(elapsed, deltas[..|deltas| - 1]);
      Admitted(elapsed, deltas[..|deltas| - 1]) + if Tick(e, deltas[|deltas| - 1]).justFinished then 1 else 0
  }

  /** The timer rate-limits moves: over any run of frames, at most one move
      is admitted per full period of elapsed time. */
  lemma {:induction false} AdmittedAtMostOnePerPeriod(elapsed: nat, deltas: seq<nat>)
    requires elapsed < Period
    ensures Admitted(elapsed, deltas) * Period + ElapsedAfter(elapsed, deltas) <= elapsed + Sum(deltas)
  {
    if |deltas| > 0 {
      var init := deltas[..|deltas| - 1];
      AdmittedAtMostOnePerPeriod(elapsed, init);
      var e := ElapsedAfter(elapsed, init);
      var d := deltas[|deltas| - 1];
      if e + d >= Period {
        assert (e + d) % Period <= e + d - Period by {
          assert e + d == Period * ((e + d) / Period) + (e + d) % Period;
          assert (e + d) / Period >= 1;
        }
      }
    }
  }

  /** When no frame is longer than the period, the count is exact: the
      admitted frames are precisely the completed periods. */
  lemma {:induction false} AdmittedExactly(elapsed: nat, deltas: seq<nat>)
    requires elapsed < Period
    requires forall i :: 0 <= i < |deltas| ==> deltas[i] <= Period
    ensures Admitted(elapsed, deltas) * Period + ElapsedAfter(elapsed, deltas) == elapsed + Sum(deltas)
  {
    if |deltas| > 0 {
      var init := deltas[..|deltas| - 1];
      assert forall i :: 0 <= i < |init| ==> init[i] == deltas[i];
      AdmittedExactly(elapsed, init);
      var e := ElapsedAfter(elapsed, init);
      var d := deltas[|deltas| - 1];
      if e + d >= Period {
        assert (e + d) % Period == e + d - Period by {
          assert e + d - Period < Period;
        }
      }
    }
  }
}
