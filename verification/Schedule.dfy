/** The update loop of every MIB updater, `MIBUpdater.start` in `mib.py`: when internal data
    are reinitialized and when connections are, whatever fails. */
module Schedule {

  /** How a call made by the loop ends: normally, with a RuntimeError, or with another
      exception. */
  datatype Ending = Fine | RuntimeErr | OtherErr

  /** How the calls of one cycle would end, if they are made. */
  datatype Calls = Calls(reconnect: Ending, reinit: Ending, update: Ending)

  /** `update_counter` and `redis_exception_happen`. */
  datatype State = State(counter: nat, failed: bool)

  /** The calls a cycle made. A cycle is due if it took the branch that reinitializes. */
  datatype Made = Made(due: bool, reconnect: bool, reinit: bool, update: bool)

  function Start(rate: nat): State {
    State(rate + 1, false)
  }

  /** The handlers: only a RuntimeError is remembered. */
  function Caught(s: State, e: Ending): State {
    s.(failed := s.failed || e == RuntimeErr)
  }

  function Update(s: State, c: Calls): State {
    if c.update == Fine then s.(failed := false) else Caught(s, c.update)
  }

  function Cycle(rate: nat, s: State, c: Calls): (State, Made) {
    if s.counter <= rate then (Update(s.(counter := s.counter + 1), c), Made(false, false, false, true))
    else if s.failed && c.reconnect != Fine then (Caught(s, c.reconnect), Made(true, true, false, false))
    else if c.reinit != Fine then (Caught(s, c.reinit), Made(true, s.failed, true, false))
    else (Update(s.(counter := 0), c), Made(true, s.failed, true, true))
  }

  /** The state in which cycle k begins. */
  function Before(rate: nat, run: seq<Calls>, k: nat): State
    requires k <= |run|
  {
    if k == 0 then Start(rate) else Cycle(rate, Before(rate, run, k - 1), run[k - 1]).0
  }

  /** The calls cycle k makes. */
  function At(rate: nat, run: seq<Calls>, k: nat): Made
    requires k < |run|
  {
    Cycle(rate, Before(rate, run, k), run[k]).1
  }

  class MIBUpdater {
    const reinitRate: nat
    var updateCounter: nat

    constructor (rate: nat)
      ensures reinitRate == rate && updateCounter == Start(rate).counter
    {
      reinitRate := rate;
      updateCounter := rate + 1;
    }

    /** The loop, for as many cycles as the run event stays set. */
    method Run(run: seq<Calls>) returns (made: seq<Made>)
      requires updateCounter == Start(reinitRate).counter
      modifies this
      ensures |made| == |run| && forall k :: 0 <= k < |run| ==> made[k] == At(reinitRate, run, k)
      ensures updateCounter == Before(reinitRate, run, |run|).counter
    {
      var failed := false;
      made := [];
      for n := 0 to |run|
        invariant State(updateCounter, failed) == Before(reinitRate, run, n)
        invariant |made| == n && forall k :: 0 <= k < n ==> made[k] == At(reinitRate, run, k)
      {
        var did := Made(updateCounter > reinitRate, false, false, false);
        var ending := Fine;
        if updateCounter > reinitRate {
          if failed { ending, did := run[n].reconnect, did.(reconnect := true); }
          if ending == Fine { ending, did := run[n].reinit, did.(reinit := true); }
          if ending == Fine { updateCounter := 0; }
        } else {
          updateCounter := updateCounter + 1;
        }
        if ending == Fine {
          ending, did := run[n].update, did.(update := true);
          if ending == Fine { failed := false; }
        }
        if ending == RuntimeErr { failed := true; }
        made := made + [did];
      }
    }
  }

  // ---------------------------------------------------------------- when cycles are due

  lemma {:induction false} CounterBounded(rate: nat, run: seq<Calls>, k: nat)
    requires k <= |run|
    ensures Before(rate, run, k).counter <= rate + 1
  {
    if k > 0 { CounterBounded(rate, run, k - 1); }
  }

  /** Until the next due cycle the counter counts every cycle, failed or not. */
  lemma {:induction false} Counts(rate: nat, run: seq<Calls>, k: nat, n: nat)
    requires k + n <= |run| && Before(rate, run, k).counter + n <= rate + 1
    ensures Before(rate, run, k + n).counter == Before(rate, run, k).counter + n
    ensures forall j :: k <= j < k + n ==> !At(rate, run, j).due
    decreases n
  {
    if n > 0 { Counts(rate, run, k, n - 1); }
  }

  /** Whatever fails, some cycle of every rate + 2 consecutive ones is due: it calls
      `reinit_data`, or `reinit_connection` raised before it could. */
  lemma ReinitWithin(rate: nat, run: seq<Calls>, k: nat)
    requires k + rate + 2 <= |run|
    ensures exists j :: k <= j < k + rate + 2 && At(rate, run, j).due &&
              (At(rate, run, j).reinit || (At(rate, run, j).reconnect && run[j].reconnect != Fine))
  {
    CounterBounded(rate, run, k);
    var n := rate + 1 - Before(rate, run, k).counter;
    Counts(rate, run, k, n);
    assert At(rate, run, k + n).due;
  }

  /** A due cycle reinitializes successfully. */
  predicate Reinits(rate: nat, run: seq<Calls>, k: nat)
    requires k < |run|
  {
    At(rate, run, k).reinit && run[k].reinit == Fine
  }

  /** After a due cycle the next one that is due is the very next if it did not reinitialize,
      and the one exactly rate + 2 cycles later if it did. */
  lemma NextDue(rate: nat, run: seq<Calls>, k: nat)
    requires k < |run| && At(rate, run, k).due
    ensures !Reinits(rate, run, k) && k + 1 < |run| ==> At(rate, run, k + 1).due
    ensures Reinits(rate, run, k) ==>
              forall j :: k < j < |run| && j <= k + rate + 2 ==> (At(rate, run, j).due <==> j == k + rate + 2)
  {
    var after := Before(rate, run, k + 1).counter;
    assert after == if Reinits(rate, run, k) then 0 else Before(rate, run, k).counter;
    if Reinits(rate, run, k) {
      forall j | k < j < |run| && j <= k + rate + 2 ensures At(rate, run, j).due <==> j == k + rate + 2 {
        Counts(rate, run, k + 1, j - k - 1);
      }
    }
  }

  predicate NoReinitFails(run: seq<Calls>) {
    forall k :: 0 <= k < |run| ==> run[k].reconnect == Fine && run[k].reinit == Fine
  }

  lemma {:induction false} ExactCounter(rate: nat, run: seq<Calls>, k: nat)
    requires k <= |run| && NoReinitFails(run)
    ensures Before(rate, run, k).counter == (k + rate + 1) % (rate + 2)
  {
    if k == 0 {
      Residue(rate + 1, rate + 2, 0, rate + 1);
    } else {
      ExactCounter(rate, run, k - 1);
      NextResidue(k + rate, rate + 2);
    }
  }

  /** While no reinitialization fails, the due cycles are exactly the multiples of rate + 2,
      even if updates fail. */
  lemma ExactPeriod(rate: nat, run: seq<Calls>, k: nat)
    requires k < |run| && NoReinitFails(run)
    ensures At(rate, run, k).due <==> k % (rate + 2) == 0
    ensures At(rate, run, k).due ==> At(rate, run, k).reinit
  {
    hide Before;
    CounterBounded(rate, run, k);
    ExactCounter(rate, run, k);
    NextResidue(k + rate + 1, rate + 2);
    Residue(k + rate + 2, rate + 2, k / (rate + 2) + 1, k % (rate + 2));
  }

  lemma NextResidue(n: nat, period: nat)
    requires period > 1
    ensures (n + 1) % period == if n % period == period - 1 then 0 else n % period + 1
  {
    var q: int := n / period;
    var r := n % period;
    if r == period - 1 {
      assert n + 1 == period * (q + 1);
      Residue(n + 1, period, q + 1, 0);
    } else {
      Residue(n + 1, period, q, r + 1);
    }
  }

  lemma Residue(n: nat, period: nat, q: int, r: nat)
    requires r < period && n == period * q + r
    ensures n % period == r
  {
    var d: int := n / period - q;
    Multiple(period, d);
    assert period * d == period * (n / period) - period * q;
  }

  lemma Multiple(period: nat, d: int)
    ensures d >= 1 ==> period * d >= period
    ensures d <= -1 ==> period * d + period <= 0
  {
  }

  // ---------------------------------------------------------------- when data are updated

  /** A cycle calls `update_data` unless it is due and fails to reinitialize first. */
  lemma UpdateIff(rate: nat, run: seq<Calls>, k: nat)
    requires k < |run|
    ensures At(rate, run, k).update <==> (At(rate, run, k).due ==> Reinits(rate, run, k))
  {
  }

  /** While no reinitialization fails, every cycle updates, even after updates that failed. */
  lemma UpdatesEveryCycle(rate: nat, run: seq<Calls>, k: nat)
    requires k < |run| && NoReinitFails(run)
    ensures At(rate, run, k).update
  {
    hide Before;
    ExactPeriod(rate, run, k);
    UpdateIff(rate, run, k);
  }

  /** A cycle without an update has tried to reinitialize and failed, and the next cycle tries
      again. */
  lemma WithoutUpdate(rate: nat, run: seq<Calls>, k: nat)
    requires k < |run| && !At(rate, run, k).update
    ensures At(rate, run, k).due && (At(rate, run, k).reconnect || At(rate, run, k).reinit)
    ensures run[k].reconnect != Fine || run[k].reinit != Fine
    ensures k + 1 < |run| ==> At(rate, run, k + 1).due
  {
    hide Before;
    UpdateIff(rate, run, k);
    NextDue(rate, run, k);
  }

  // ---------------------------------------------------------------- when connections are reinitialized

  /** Cycle k raised a RuntimeError. */
  predicate RaisesRuntimeError(rate: nat, run: seq<Calls>, k: nat)
    requires k < |run|
  {
    var made := At(rate, run, k);
    if made.reconnect && run[k].reconnect != Fine then run[k].reconnect == RuntimeErr
    else if made.reinit && run[k].reinit != Fine then run[k].reinit == RuntimeErr
    else run[k].update == RuntimeErr
  }

  predicate Updates(rate: nat, run: seq<Calls>, k: nat)
    requires k < |run|
  {
    At(rate, run, k).update && run[k].update == Fine
  }

  lemma FlagStep(rate: nat, run: seq<Calls>, k: nat)
    requires k < |run|
    ensures Before(rate, run, k + 1).failed <==>
            RaisesRuntimeError(rate, run, k) || (Before(rate, run, k).failed && !Updates(rate, run, k))
    ensures RaisesRuntimeError(rate, run, k) ==> !Updates(rate, run, k)
  {
  }

  /** A cycle begins with the flag set exactly if a RuntimeError was raised and no update has
      succeeded since. */
  lemma {:induction false} FailureRemembered(rate: nat, run: seq<Calls>, k: nat)
    requires k <= |run|
    ensures Before(rate, run, k).failed <==>
            exists j :: 0 <= j < k && RaisesRuntimeError(rate, run, j) && forall i :: j <= i < k ==>
              !Updates(rate, run, i)
  {
    if k > 0 {
      hide *;
      FailureRemembered(rate, run, k - 1);
      FlagStep(rate, run, k - 1);
      if Before(rate, run, k - 1).failed && !Updates(rate, run, k - 1) {
        var j :| 0 <= j < k - 1 && RaisesRuntimeError(rate, run, j) && forall i :: j <= i < k - 1 ==>
          !Updates(rate, run, i);
        assert forall i :: j <= i < k ==> !Updates(rate, run, i);
      }
    }
  }

  /** A cycle whose update succeeds leaves the flag clear, and one without a RuntimeError never
      sets it. */
  lemma UpdateClears(rate: nat, run: seq<Calls>, k: nat)
    requires k < |run|
    ensures Updates(rate, run, k) ==> !Before(rate, run, k + 1).failed
    ensures (forall j :: 0 <= j <= k ==> !RaisesRuntimeError(rate, run, j)) ==> !Before(rate, run, k + 1).failed
  {
    hide Before, Cycle, RaisesRuntimeError, Updates;
    FailureRemembered(rate, run, k + 1);
    FlagStep(rate, run, k);
  }

  /** A connection is reinitialized in exactly the due cycles that begin with a RuntimeError
      behind them, and then `reinit_data` is called only if that succeeded. */
  lemma ReconnectIff(rate: nat, run: seq<Calls>, k: nat)
    requires k < |run|
    ensures At(rate, run, k).reconnect <==>
            At(rate, run, k).due &&
            exists j :: 0 <= j < k && RaisesRuntimeError(rate, run, j) && forall i :: j <= i < k ==>
              !Updates(rate, run, i)
    ensures At(rate, run, k).reinit <==>
            At(rate, run, k).due && (At(rate, run, k).reconnect ==> run[k].reconnect == Fine)
  {
    FailureRemembered(rate, run, k);
  }

  /** Within rate + 2 cycles of a RuntimeError either an update has succeeded or the
      connection was reinitialized, or an attempt at that was made. */
  lemma RecoveryWithin(rate: nat, run: seq<Calls>, k: nat)
    requires k + rate + 2 < |run| && RaisesRuntimeError(rate, run, k)
    ensures exists j :: k < j <= k + rate + 2 && (Updates(rate, run, j) || At(rate, run, j).reconnect)
  {
    hide Before;
    ReinitWithin(rate, run, k + 1);
    var j :| k + 1 <= j < k + 1 + rate + 2 && At(rate, run, j).due;
    if forall i :: k < i < j ==> !Updates(rate, run, i) {
      assert !Updates(rate, run, k);
      assert forall i :: k <= i < j ==> !Updates(rate, run, i);
      ReconnectIff(rate, run, j);
    }
  }
}
