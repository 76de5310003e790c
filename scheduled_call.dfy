/**
 * `ScheduledCall` of txscheduling/task.py: a driver that calls a function
 * whenever a schedule says so. It keeps one pending timer (`call`) in the
 * reactor's timer queue and one completion slot (`deferred`), the Deferred
 * `start` handed out, which is resolved when the driver stops or fails.
 *
 * The reactor is a `Clock` object with a map of pending timers. The
 * function itself is not modelled: its invocation is the `Fire` event and
 * the firing of the Deferred it returns is the `Complete` event, which
 * carries its result. What the schedule's `getDelayForNext` returns or
 * raises is a parameter of the methods that ask for it.
 */
module Task {
  import opened Wrappers

  /** An exception travelling down a Deferred's errback chain. */
  datatype Failure = Failure(reason: string)

  /** How a completion slot is resolved: `callback(self)` or `errback(failure)`. */
  datatype Outcome = Callback | Errback(failure: Failure)

  /** The completion Deferred numbered `deferred` was resolved with `outcome`. */
  datatype Resolution = Resolution(deferred: nat, outcome: Outcome)

  /**
   * Why a call of the driver did not complete normally: a failed `assert`
   * in `start` or `stop`, an exception from the schedule that `start`
   * re-raises, or the `AttributeError` of resolving a slot that is `None`.
   */
  datatype Fault = AlreadyRunning | NotRunning | ScheduleRaised(failure: Failure) | EmptySlot

  /** The reactor's timers (`IReactorTime`): the current time and each pending timer's due time, by id. */
  class Clock {
    var now: int
    var pending: map<nat, int>
    var issued: nat

    /** Every pending timer has an id already issued, so a new id is never pending. */
    predicate Valid()
      reads this
    {
      forall id :: id in pending ==> id < issued
    }

    constructor (start: int)
      ensures Valid() && now == start && pending == map[] && issued == 0
    {
      now, pending, issued := start, map[], 0;
    }

    /** `callLater(delay, f)`: a new timer due `delay` after now. */
    method CallLater(delay: int) returns (id: nat)
      requires Valid()
      modifies this
      ensures Valid() && id == old(issued) && id !in old(pending)
      ensures pending == old(pending)[id := old(now) + delay]
      ensures issued == old(issued) + 1 && now == old(now)
    {
      id := issued;
      pending := pending[id := now + delay];
      issued := issued + 1;
    }

    /** `DelayedCall.cancel()` on a pending timer. */
    method Cancel(id: nat)
      requires Valid() && id in pending
      modifies this
      ensures Valid() && pending == old(pending) - {id}
      ensures issued == old(issued) && now == old(now)
    {
      pending := pending - {id};
    }

    /** The reactor runs timer `id`: time reaches its due time and the timer is no longer pending. */
    method Run(id: nat)
      requires Valid() && id in pending
      modifies this
      ensures Valid() && pending == old(pending) - {id} && issued == old(issued)
      ensures now == if old(pending)[id] > old(now) then old(pending)[id] else old(now)
    {
      if pending[id] > now {
        now := pending[id];
      }
      pending := pending - {id};
    }
  }

  /** `ScheduledCall` of task.py:12-117. */
  class ScheduledCall {
    const clock: Clock
    var running: bool
    /** The pending timer (`self.call`). */
    var call: Option<nat>
    /** The completion slot (`self.deferred`): the number of the Deferred it holds. */
    var deferred: Option<nat>
    /** How many completion Deferreds `start` has created; they are numbered from 0. */
    var created: nat
    /** Every resolution of a completion Deferred, in order. */
    var resolutions: seq<Resolution>
    var lastTime: Option<int>
    var starttime: Option<int>
    /** Invocations of the function whose Deferred has not fired yet (observation only). */
    ghost var inFlight: nat
    /** Invocations of the function so far (observation only). */
    ghost var invocations: nat
    /** Every timer this driver has armed, pending or not. */
    ghost var armed: set<nat>

    /**
     * At most one timer is pending, the one in `call`: the driver does not
     * reschedule while a call is outstanding (task.py:14-15).
     */
    ghost predicate OneTimer()
      reads this, clock
    {
      (call.Some? ==> call.value in armed && call.value in clock.pending) &&
      (forall id :: id in armed && id in clock.pending ==> call == Some(id))
    }

    /**
     * At most one timer of this driver is pending, the one in `call`; while
     * running the slot holds the latest Deferred; a Deferred in the slot is
     * unresolved; and no Deferred is resolved twice.
     */
    ghost predicate Valid()
      reads this, clock
    {
      clock.Valid() &&
      OneTimer() &&
      (running ==> deferred.Some? && deferred.value + 1 == created) &&
      (deferred.Some? ==> deferred.value < created && Unresolved(deferred.value)) &&
      (forall i :: 0 <= i < |resolutions| ==> resolutions[i].deferred < created) &&
      (forall i, j :: 0 <= i < j < |resolutions| ==> resolutions[i].deferred != resolutions[j].deferred)
    }

    /** Deferred number `d` has not been resolved. */
    predicate Unresolved(d: nat)
      reads this
    {
      forall i :: 0 <= i < |resolutions| ==> resolutions[i].deferred != d
    }

    /** `__init__` of task.py:32-42, with the clock given instead of the global reactor. */
    constructor (clock: Clock)
      requires clock.Valid()
      ensures Valid() && this.clock == clock
      ensures !running && call.None? && deferred.None? && created == 0 && resolutions == []
      ensures lastTime == Some(0) && starttime.None? && inFlight == 0 && invocations == 0 && armed == {}
    {
      this.clock := clock;
      running, call, deferred, created, resolutions := false, None, None, 0, [];
      lastTime, starttime := Some(0), None;
      inFlight, invocations, armed := 0, 0, {};
    }

    /**
     * `_reschedule` of task.py:112-117: with no timer pending, ask the
     * schedule for the delay (`delay`, or the exception it raises) and arm
     * one timer that far ahead; with a timer pending, do nothing.
     */
    method Reschedule(delay: Result<int, Failure>) returns (r: Result<(), Failure>)
      requires clock.Valid() && OneTimer()
      modifies this, clock
      ensures clock.Valid() && OneTimer()
      ensures running == old(running) && deferred == old(deferred) && created == old(created)
      ensures resolutions == old(resolutions) && starttime == old(starttime)
      ensures inFlight == old(inFlight) && invocations == old(invocations) && clock.now == old(clock.now)
      ensures old(call).Some? || delay.Err? ==>
        call == old(call) && lastTime == old(lastTime) && clock.pending == old(clock.pending) && clock.issued == old(clock.issued)
      ensures old(call).Some? ==> r.Ok?
      ensures old(call).None? && delay.Err? ==> r == Err(delay.error)
      ensures old(call).None? && delay.Ok? ==>
        r.Ok? && call == Some(old(clock.issued)) && lastTime == Some(old(clock.now) + delay.value) &&
        clock.pending == old(clock.pending)[old(clock.issued) := old(clock.now) + delay.value] &&
        clock.issued == old(clock.issued) + 1 && armed == old(armed) + {old(clock.issued)}
      ensures old(call).Some? || delay.Err? ==> armed == old(armed)
    {
      if call.None? {
        if delay.Err? {
          return Err(delay.error);
        }
        lastTime := Some(clock.now + delay.value);
        var id := clock.CallLater(delay.value);
        call := Some(id);
        armed := armed + {id};
      }
      return Ok(());
    }

    /**
     * `d, self.deferred = self.deferred, None; d.callback(self)` (or
     * `d.errback(failure)`): empty the slot and resolve what it held; an
     * empty slot is the `AttributeError` of calling a method on `None`.
     */
    method Release(outcome: Outcome) returns (r: Result<(), Fault>)
      requires deferred.Some? ==> Unresolved(deferred.value)
      modifies this
      ensures deferred.None?
      ensures running == old(running) && call == old(call) && created == old(created)
      ensures lastTime == old(lastTime) && starttime == old(starttime)
      ensures inFlight == old(inFlight) && invocations == old(invocations) && armed == old(armed)
      ensures old(deferred).Some? ==>
        r.Ok? && resolutions == old(resolutions) + [Resolution(old(deferred).value, outcome)]
      ensures old(deferred).None? ==> r == Err(EmptySlot) && resolutions == old(resolutions)
    {
      if deferred.None? {
        return Err(EmptySlot);
      }
      resolutions := resolutions + [Resolution(deferred.value, outcome)];
      deferred := None;
      return Ok(());
    }

    /**
     * `start(schedule)` of task.py:45-79. On a running driver the `assert`
     * fails and nothing changes. Otherwise a new Deferred fills the slot
     * and one timer is armed; if the schedule raises instead, the driver
     * unwinds (not running, slot emptied) and the exception propagates.
     */
    method Start(delay: Result<int, Failure>) returns (r: Result<nat, Fault>)
      requires Valid()
      modifies this, clock
      ensures Valid()
      ensures old(running) ==> r == Err(AlreadyRunning) && unchanged(this) && unchanged(clock)
      ensures !old(running) ==>
        created == old(created) + 1 && starttime == Some(old(clock.now)) && resolutions == old(resolutions) &&
        inFlight == old(inFlight) && invocations == old(invocations) && clock.now == old(clock.now)
      ensures !old(running) && (old(call).Some? || delay.Ok?) ==>
        r == Ok(old(created)) && running && deferred == Some(old(created))
      ensures !old(running) && old(call).None? && delay.Ok? ==>
        call == Some(old(clock.issued)) && lastTime == Some(old(clock.now) + delay.value) &&
        clock.pending == old(clock.pending)[old(clock.issued) := old(clock.now) + delay.value] &&
        clock.issued == old(clock.issued) + 1 && armed == old(armed) + {old(clock.issued)}
      ensures old(running) || old(call).Some? || delay.Err? ==> armed == old(armed)
      ensures !old(running) && old(call).Some? ==>
        call == old(call) && lastTime.None? && clock.pending == old(clock.pending) && clock.issued == old(clock.issued)
      ensures !old(running) && old(call).None? && delay.Err? ==>
        r == Err(ScheduleRaised(delay.error)) && !running && deferred.None? && call.None? &&
        lastTime.None? && clock.pending == old(clock.pending) && clock.issued == old(clock.issued)
    {
      if running {
        return Err(AlreadyRunning);
      }
      running := true;
      deferred := Some(created);
      created := created + 1;
      starttime := Some(clock.now);
      lastTime := None;
      var rescheduled := Reschedule(delay);
      if rescheduled.Err? {
        running := false;
        deferred := None;
        // `_reschedule` raises only when no timer is pending, so task.py:72-76 has none to cancel.
        assert call.None?;
        return Err(ScheduleRaised(rescheduled.error));
      }
      return Ok(created - 1);
    }

    /**
     * `stop()` of task.py:82-91. On a stopped driver the `assert` fails and
     * nothing changes. Otherwise the driver stops; a pending timer is
     * cancelled and the slot is resolved with `callback(self)`. During an
     * invocation there is no timer, and the slot is left for `Complete`.
     */
    method Stop() returns (r: Result<(), Fault>)
      requires Valid()
      modifies this, clock
      ensures Valid()
      ensures !old(running) ==> r == Err(NotRunning) && unchanged(this) && unchanged(clock)
      ensures old(running) ==>
        r.Ok? && !running && call.None? && created == old(created) && lastTime == old(lastTime) &&
        starttime == old(starttime) && inFlight == old(inFlight) && invocations == old(invocations) &&
        clock.now == old(clock.now) && clock.issued == old(clock.issued) && armed == old(armed)
      ensures old(running) && old(call).Some? ==>
        clock.pending == old(clock.pending) - {old(call).value} && deferred.None? &&
        resolutions == old(resolutions) + [Resolution(old(deferred).value, Callback)]
      ensures old(running) && old(call).None? ==>
        clock.pending == old(clock.pending) && deferred == old(deferred) && resolutions == old(resolutions)
    {
      if !running {
        return Err(NotRunning);
      }
      running := false;
      if call.Some? {
        clock.Cancel(call.value);
        call := None;
        var released := Release(Callback);
      }
      return Ok(());
    }

    /**
     * The reactor runs the pending timer: `__call__` of task.py:93-109
     * clears `call` and invokes the function, whose Deferred is now in
     * flight.
     */
    method Fire()
      requires Valid() && call.Some?
      modifies this, clock
      ensures Valid() && call.None?
      ensures inFlight == old(inFlight) + 1 && invocations == old(invocations) + 1
      ensures clock.pending == old(clock.pending) - {old(call).value} && clock.issued == old(clock.issued)
      ensures clock.now == var due := old(clock.pending)[old(call).value]; if due > old(clock.now) then due else old(clock.now)
      ensures running == old(running) && deferred == old(deferred) && created == old(created)
      ensures resolutions == old(resolutions) && lastTime == old(lastTime) && starttime == old(starttime)
      ensures armed == old(armed)
    {
      clock.Run(call.value);
      call := None;
      invocations := invocations + 1;
      inFlight := inFlight + 1;
    }

    /**
     * The Deferred of an invocation fires with `result` (task.py:94-109).
     * On success `cb` re-arms a running driver (asking the schedule, which
     * gives `delay`) or resolves the slot of a stopped one with
     * `callback(self)`; on failure, including an exception the schedule
     * raises inside `cb`, `eb` stops the driver and resolves the slot with
     * `errback(failure)`.
     */
    method Complete(result: Result<(), Failure>, delay: Result<int, Failure>) returns (r: Result<(), Fault>)
      requires Valid() && inFlight > 0
      modifies this, clock
      ensures Valid()
      ensures inFlight == old(inFlight) - 1 && invocations == old(invocations)
      ensures created == old(created) && starttime == old(starttime) && clock.now == old(clock.now)
      ensures result.Err? ==>
        !running && deferred.None? && call == old(call) && lastTime == old(lastTime) &&
        clock.pending == old(clock.pending) && clock.issued == old(clock.issued) &&
        (old(deferred).Some? ==> r.Ok? && resolutions == old(resolutions) + [Resolution(old(deferred).value, Errback(result.error))]) &&
        (old(deferred).None? ==> r == Err(EmptySlot) && resolutions == old(resolutions))
      ensures result.Ok? && !old(running) ==>
        !running && deferred.None? && call == old(call) && lastTime == old(lastTime) &&
        clock.pending == old(clock.pending) && clock.issued == old(clock.issued) &&
        (old(deferred).Some? ==> r.Ok? && resolutions == old(resolutions) + [Resolution(old(deferred).value, Callback)]) &&
        (old(deferred).None? ==> r == Err(EmptySlot) && resolutions == old(resolutions))
      ensures result.Ok? && old(running) && old(call).Some? ==>
        r.Ok? && running && call == old(call) && deferred == old(deferred) && resolutions == old(resolutions) &&
        lastTime == old(lastTime) && clock.pending == old(clock.pending) && clock.issued == old(clock.issued)
      ensures result.Ok? && old(running) && old(call).None? && delay.Ok? ==>
        r.Ok? && running && deferred == old(deferred) && resolutions == old(resolutions) &&
        call == Some(old(clock.issued)) && lastTime == Some(old(clock.now) + delay.value) &&
        clock.pending == old(clock.pending)[old(clock.issued) := old(clock.now) + delay.value] &&
        clock.issued == old(clock.issued) + 1 && armed == old(armed) + {old(clock.issued)}
      ensures !(result.Ok? && old(running) && old(call).None? && delay.Ok?) ==> armed == old(armed)
      ensures result.Ok? && old(running) && old(call).None? && delay.Err? ==>
        r.Ok? && !running && deferred.None? && call.None? && lastTime == old(lastTime) &&
        clock.pending == old(clock.pending) && clock.issued == old(clock.issued) &&
        resolutions == old(resolutions) + [Resolution(old(deferred).value, Errback(delay.error))]
    {
      inFlight := inFlight - 1;
      var failure := if result.Err? then Some(result.error) else None;
      if result.Ok? {
        if running {
          var rescheduled := Reschedule(delay);
          if rescheduled.Err? {
            failure := Some(rescheduled.error);
          }
        } else {
          // With the slot already empty, `cb` raises and `eb` then finds it empty too.
          r := Release(Callback);
          return;
        }
      }
      if failure.Some? {
        running := false;
        r := Release(Errback(failure.value));
      } else {
        r := Ok(());
      }
    }
  }

  /** The pending timers among those a valid driver has armed are exactly the one in `call`, if any. */
  lemma PendingTimers(sc: ScheduledCall)
    requires sc.Valid()
    ensures sc.armed * sc.clock.pending.Keys == if sc.call.Some? then {sc.call.value} else {}
  {
  }

  // ---------------------------------------------------------------------------
  // Runs of the driver

  /**
   * One second of a driver that re-arms every second: the reactor runs the
   * pending timer, the function's Deferred succeeds, and `cb` arms the next
   * timer a second later.
   */
  method OneSecondTick(sc: ScheduledCall) returns (at: int)
    requires sc.Valid() && sc.running && sc.inFlight == 0 && sc.call.Some?
    requires sc.clock.pending == map[sc.call.value := sc.clock.now + 1]
    modifies sc, sc.clock
    ensures sc.Valid() && sc.running && sc.inFlight == 0 && sc.invocations == old(sc.invocations) + 1
    ensures at == old(sc.clock.now) + 1 && sc.clock.now == at
    ensures sc.call == Some(old(sc.clock.issued)) && sc.clock.pending == map[sc.call.value := at + 1]
    ensures sc.deferred == old(sc.deferred) && sc.resolutions == old(sc.resolutions) && sc.created == old(sc.created)
  {
    sc.Fire();
    assert sc.clock.pending == map[];
    at := sc.clock.now;
    var r := sc.Complete(Ok(()), Ok(1));
  }

  /**
   * A function called every second until stopped (SimpleTimingTests in
   * txscheduling/tests/task.py): it runs at times 1 and 2, `stop` resolves
   * the Deferred `start` returned with `callback(self)`, and no timer is
   * left behind.
   */
  method CalledTwiceThenStopped() returns (log: seq<Resolution>, ghost count: nat, times: seq<int>, left: map<nat, int>)
    ensures log == [Resolution(0, Callback)] && count == 2 && times == [1, 2] && left == map[]
  {
    var clock := new Clock(0);
    var sc := new ScheduledCall(clock);
    var d := sc.Start(Ok(1));
    var first := OneSecondTick(sc);
    var second := OneSecondTick(sc);
    var r := sc.Stop();
    assert clock.pending == map[];
    log, times, left := sc.resolutions, [first, second], clock.pending;
    count := sc.invocations;
  }

  /**
   * A function that fails (CallableTests): the Deferred `start` returned
   * is resolved once, with `errback`, the driver stops, and no timer is
   * armed again.
   */
  method FailingFunction() returns (log: seq<Resolution>, running: bool, armed: bool)
    ensures log == [Resolution(0, Errback(Failure("broken")))] && !running && !armed
  {
    var clock := new Clock(0);
    var sc := new ScheduledCall(clock);
    var d := sc.Start(Ok(1));
    sc.Fire();
    var r := sc.Complete(Err(Failure("broken")), Ok(1));
    log, running, armed := sc.resolutions, sc.running, sc.call.Some?;
  }

  /**
   * `stop` while an invocation is in flight (task.py:86-99): no timer is pending, so `stop` resolves nothing; the
   * slot is resolved when the invocation's Deferred fires, and the
   * function is not invoked again.
   */
  method StoppedWhileRunning() returns (before: seq<Resolution>, after: seq<Resolution>, ghost count: nat, armed: bool)
    ensures before == [] && after == [Resolution(0, Callback)] && count == 1 && !armed
  {
    var clock := new Clock(0);
    var sc := new ScheduledCall(clock);
    var d := sc.Start(Ok(2));
    sc.Fire();
    var r := sc.Stop();
    before := sc.resolutions;
    r := sc.Complete(Ok(()), Ok(2));
    after, armed := sc.resolutions, sc.call.Some?;
    count := sc.invocations;
  }

  /**
   * `start` again after `stop` while an invocation is in flight: the new
   * Deferred replaces the first one in the slot, so the first is never
   * resolved, even once that invocation completes, and a new timer is
   * armed while the invocation is still in flight.
   */
  method RestartedWhileRunning() returns (log: seq<Resolution>, slot: Option<nat>, armed: bool, ghost inFlight: nat, timers: map<nat, int>)
    ensures log == [] && slot == Some(1) && armed && inFlight == 1
    ensures timers == map[1 := 4]
  {
    var clock := new Clock(0);
    var sc := new ScheduledCall(clock);
    var d := sc.Start(Ok(2));
    sc.Fire();
    assert clock.pending == map[];
    var r := sc.Stop();
    d := sc.Start(Ok(2));
    armed := sc.call.Some?;
    inFlight := sc.inFlight;
    var c := sc.Complete(Ok(()), Ok(2));
    log, slot, timers := sc.resolutions, sc.deferred, clock.pending;
  }

  /** A schedule that raises in `start` (task.py:60-77): the exception propagates and the driver is left stopped with an empty slot. */
  method ScheduleFailsAtStart() returns (r: Result<nat, Fault>, running: bool, slot: Option<nat>, again: Result<nat, Fault>)
    ensures r == Err(ScheduleRaised(Failure("day is out of range for month"))) && !running && slot.None?
    ensures again == Ok(1)
  {
    var clock := new Clock(0);
    var sc := new ScheduledCall(clock);
    r := sc.Start(Err(Failure("day is out of range for month")));
    running, slot := sc.running, sc.deferred;
    again := sc.Start(Ok(60));
  }
}
