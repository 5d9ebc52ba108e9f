/**
 * The countdown engine: the message handler of timer-worker.js and its interval callback,
 * and the copy of it inlined in script.js. `Date.now()` is an integer number of
 * milliseconds passed in by the caller; each firing of the repeating interval is a call
 * of `Poll(now)`.
 */
module Engine {
  import opened Wrappers

  /** Messages the session controller posts to the worker. */
  datatype Command = Start(duration: int) | Stop

  /** Messages the worker posts back. */
  datatype Event = Tick(timeLeft: int) | Finish

  /** `Math.ceil(x / 1000)` for an integer number of milliseconds `x`. */
  function CeilDiv1000(x: int): (r: int)
    ensures (r - 1) * 1000 < x <= r * 1000
  {
    -((-x) / 1000)
  }

  /** Whole seconds left before `deadline`, rounded up, measured at time `now`. */
  function Remaining(deadline: int, now: int): int
  {
    CeilDiv1000(deadline - now)
  }

  /** What one firing of the interval posts, given the current deadline. */
  function PollEvent(deadline: int, now: int): (e: Event)
    ensures e.Tick? ==> e.timeLeft > 0
    ensures e.Finish? <==> now >= deadline
    ensures e.Tick? ==> (e.timeLeft - 1) * 1000 < deadline - now <= e.timeLeft * 1000
  {
    var remaining := Remaining(deadline, now);
    if remaining <= 0 then Finish else Tick(remaining)
  }

  /**
   * The messages a live interval posts when it fires at the successive `times`, against
   * the fixed deadline: a tick per firing until the first finish, after which the interval
   * is cleared and nothing more is posted.
   */
  function Run(deadline: int, times: seq<int>): (events: seq<Event>)
    ensures |events| <= |times|
  {
    if times == [] then []
    else
      match PollEvent(deadline, times[0])
      case Finish => [Finish]
      case Tick(k) => [Tick(k)] + Run(deadline, times[1..])
  }

  /** Each message of a run is the one computed at its own firing time: nothing is decremented. */
  lemma {:induction false} RunMeasuresDeadline(deadline: int, times: seq<int>, i: nat)
    requires i < |Run(deadline, times)|
    ensures Run(deadline, times)[i] == PollEvent(deadline, times[i])
  {
    if i > 0 {
      RunMeasuresDeadline(deadline, times[1..], i - 1);
    }
  }

  /**
   * A run is ticks with positive values, possibly ended by one finish: a finish comes only
   * last, and it comes exactly when the deadline has been reached at that firing.
   */
  lemma {:induction false} RunShape(deadline: int, times: seq<int>)
    ensures var events := Run(deadline, times);
      && (forall i :: 0 <= i < |events| && events[i].Tick? ==> events[i].timeLeft > 0)
      && (forall i :: 0 <= i < |events| && events[i].Finish? ==> i == |events| - 1)
      && (forall i :: 0 <= i < |events| - 1 ==> times[i] < deadline)
  {
    if times != [] && PollEvent(deadline, times[0]).Tick? {
      var events, rest := Run(deadline, times), Run(deadline, times[1..]);
      RunShape(deadline, times[1..]);
      assert events == [PollEvent(deadline, times[0])] + rest;
      forall i | 1 <= i < |events|
        ensures events[i] == rest[i - 1] && times[i] == times[1..][i - 1]
      {
      }
    }
  }

  /** If some firing happens at or after the deadline, the run ends with its one finish. */
  lemma {:induction false} RunFinishes(deadline: int, times: seq<int>, j: nat)
    requires j < |times| && times[j] >= deadline
    ensures var events := Run(deadline, times);
      events != [] && events[|events| - 1] == Finish && |events| <= j + 1
  {
    if times[0] < deadline {
      RunFinishes(deadline, times[1..], j - 1);
    }
  }

  /** A run has a message for every firing, unless it stopped early at its finish. */
  lemma {:induction false} RunLength(deadline: int, times: seq<int>)
    ensures var events := Run(deadline, times);
      |events| == |times| || (events != [] && events[|events| - 1] == Finish)
  {
    if times != [] && PollEvent(deadline, times[0]).Tick? {
      RunLength(deadline, times[1..]);
    }
  }

  /** While no firing reaches the deadline, every firing posts one message (a tick). */
  lemma {:induction false} RunBeforeDeadline(deadline: int, times: seq<int>)
    requires forall i :: 0 <= i < |times| ==> times[i] < deadline
    ensures |Run(deadline, times)| == |times|
    ensures forall i :: 0 <= i < |times| ==> Run(deadline, times)[i].Tick?
  {
    if times != [] {
      RunBeforeDeadline(deadline, times[1..]);
    }
  }

  /** The run from firing `i` on: that firing's message, then the rest unless it was the finish. */
  lemma RunFrom(deadline: int, times: seq<int>, i: nat)
    requires i < |times|
    ensures var e := PollEvent(deadline, times[i]);
      Run(deadline, times[i..]) == if e.Finish? then [Finish] else [e] + Run(deadline, times[i + 1..])
  {
    assert times[i..][1..] == times[i + 1..];
  }

  /** One more firing extends a prefix of a run by that firing's message. */
  lemma RunStep(deadline: int, times: seq<int>, i: nat, prefix: seq<Event>)
    requires i < |times| && prefix + Run(deadline, times[i..]) == Run(deadline, times)
    ensures var e := PollEvent(deadline, times[i]);
      && (e.Tick? ==> (prefix + [e]) + Run(deadline, times[i + 1..]) == Run(deadline, times))
      && (e.Finish? ==> prefix + [e] == Run(deadline, times))
  {
    RunFrom(deadline, times, i);
    var e := PollEvent(deadline, times[i]);
    if e.Tick? {
      assert (prefix + [e]) + Run(deadline, times[i + 1..]) == prefix + ([e] + Run(deadline, times[i + 1..]));
    }
  }

  /** Against a fixed deadline, a later firing never reports more seconds. */
  lemma RemainingMonotone(deadline: int, earlier: int, later: int)
    requires earlier <= later
    ensures Remaining(deadline, later) <= Remaining(deadline, earlier)
  {
  }

  predicate NonDecreasing(times: seq<int>)
  {
    forall i, j :: 0 <= i <= j < |times| ==> times[i] <= times[j]
  }

  /** For firing times that do not go back, the ticks of a run never go up. */
  lemma RunTicksNonIncreasing(deadline: int, times: seq<int>, i: nat, j: nat)
    requires NonDecreasing(times)
    requires i <= j < |Run(deadline, times)|
    requires Run(deadline, times)[i].Tick? && Run(deadline, times)[j].Tick?
    ensures Run(deadline, times)[j].timeLeft <= Run(deadline, times)[i].timeLeft
  {
    RunMeasuresDeadline(deadline, times, i);
    RunMeasuresDeadline(deadline, times, j);
    RemainingMonotone(deadline, times[i], times[j]);
  }

  /** A firing at or after the start time never reports more than the duration started with. */
  lemma FirstTickAtMostDuration(start: int, duration: int, now: int)
    requires now >= start
    ensures var e := PollEvent(start + duration * 1000, now);
      e.Tick? ==> e.timeLeft <= duration
  {
  }

  /** Ticks are not strictly decreasing: two firings 250 ms apart both report five seconds. */
  lemma RepeatedTick()
    ensures Run(5000, [0, 250]) == [Tick(5), Tick(5)]
  {
    assert PollEvent(5000, 0) == Tick(5);
    assert PollEvent(5000, 250) == Tick(5);
    assert [0, 250][1..] == [250];
  }

  /**
   * The worker's module-level state (`timerInterval`, `expectedFinishTime`) together with
   * the part of the browser's timer table it uses: the set of interval handles that will
   * still fire, and the handle the next `setInterval` returns (handles start at 1 and so
   * are truthy).
   */
  class TimerWorker {
    /** True for timer-worker.js; false for the copy inlined in script.js, whose `stop` keeps the handle. */
    const nullsHandleOnStop: bool
    var timerInterval: Option<nat>
    var expectedFinishTime: Option<int>
    var live: set<nat>
    var nextHandle: nat

    /** At most one interval is live, it is the one `timerInterval` holds, and it has a deadline. */
    ghost predicate Valid()
      reads this
    {
      && (live == {} || (timerInterval.Some? && live == {timerInterval.value}))
      && (live != {} ==> expectedFinishTime.Some?)
      && 0 < nextHandle
      && (timerInterval.Some? ==> 0 < timerInterval.value < nextHandle)
      && (nullsHandleOnStop ==> (timerInterval.Some? <==> live != {}))
    }

    predicate Active()
      reads this
    {
      live != {}
    }

    constructor (nullsHandleOnStop: bool)
      ensures Valid() && !Active()
      ensures this.nullsHandleOnStop == nullsHandleOnStop
      ensures timerInterval == None && expectedFinishTime == None
    {
      this.nullsHandleOnStop := nullsHandleOnStop;
      timerInterval := None;
      expectedFinishTime := None;
      live := {};
      nextHandle := 1;
    }

    /** `setInterval`: a fresh handle that will fire until cleared. */
    method SetInterval() returns (handle: nat)
      requires 0 < nextHandle
      modifies this`live, this`nextHandle
      ensures handle == old(nextHandle) && live == old(live) + {handle}
      ensures nextHandle == old(nextHandle) + 1
    {
      handle := nextHandle;
      live := live + {handle};
      nextHandle := nextHandle + 1;
    }

    /** `clearInterval(handle)`: the interval no longer fires; clearing a dead handle does nothing. */
    method ClearInterval(handle: nat)
      modifies this`live
      ensures live == old(live) - {handle}
    {
      live := live - {handle};
    }

    /**
     * The `start` command: any interval is cleared, the deadline is set from the current
     * time alone, and a single new interval is started.
     */
    method Start(duration: int, now: int)
      requires Valid()
      modifies this
      ensures Valid() && Active()
      ensures expectedFinishTime == Some(now + duration * 1000)
      ensures timerInterval == Some(old(nextHandle)) && live == {old(nextHandle)}
      ensures old(timerInterval).Some? ==> old(timerInterval).value !in live
      ensures nextHandle == old(nextHandle) + 1
    {
      if timerInterval.Some? {
        ClearInterval(timerInterval.value);
      }
      expectedFinishTime := Some(now + duration * 1000);
      var handle := SetInterval();
      timerInterval := Some(handle);
    }

    /**
     * The `stop` command: the interval, if any, no longer fires. timer-worker.js also
     * forgets the handle; the inlined copy keeps it. Nothing is posted.
     */
    method Stop()
      requires Valid()
      modifies this
      ensures Valid() && !Active()
      ensures timerInterval == if nullsHandleOnStop then None else old(timerInterval)
      ensures expectedFinishTime == old(expectedFinishTime) && nextHandle == old(nextHandle)
    {
      if timerInterval.Some? {
        ClearInterval(timerInterval.value);
        if nullsHandleOnStop {
          timerInterval := None;
        }
      }
    }

    /** `self.onmessage`: dispatch on the command. Neither command posts a message. */
    method OnMessage(command: Command, now: int)
      requires Valid()
      modifies this
      ensures Valid()
      ensures command.Start? ==> Active() && expectedFinishTime == Some(now + command.duration * 1000)
      ensures command.Stop? ==> !Active() && expectedFinishTime == old(expectedFinishTime)
    {
      match command
      case Start(duration) => Start(duration, now);
      case Stop => Stop();
    }

    /**
     * One firing of the interval at time `now`. With no live interval nothing runs. Otherwise
     * the message is the one computed from the deadline; a finish clears the interval and
     * the handle, after which further firings post nothing.
     */
    method Poll(now: int) returns (posted: Option<Event>)
      requires Valid()
      modifies this
      ensures Valid()
      ensures expectedFinishTime == old(expectedFinishTime) && nextHandle == old(nextHandle)
      ensures !old(Active()) ==> posted == None && live == old(live) && timerInterval == old(timerInterval)
      ensures old(Active()) ==> posted == Some(PollEvent(expectedFinishTime.value, now))
      ensures posted == Some(Finish) ==> !Active() && timerInterval == None
      ensures posted != Some(Finish) ==> live == old(live) && timerInterval == old(timerInterval)
    {
      if live == {} {
        return None;
      }
      var remaining := Remaining(expectedFinishTime.value, now);
      if remaining <= 0 {
        posted := Some(Finish);
        ClearInterval(timerInterval.value);
        timerInterval := None;
      } else {
        posted := Some(Tick(remaining));
      }
    }
  }

  /**
   * The browser firing the worker's interval at each of `times` in turn: what gets posted
   * is exactly the run against the deadline fixed by the last `start`.
   */
  method FireInterval(worker: TimerWorker, times: seq<int>) returns (events: seq<Event>)
    requires worker.Valid() && worker.Active()
    modifies worker
    ensures worker.Valid()
    ensures events == Run(old(worker.expectedFinishTime.value), times)
    ensures worker.expectedFinishTime == old(worker.expectedFinishTime)
    ensures worker.Active() <==> (events == [] || events[|events| - 1] != Finish)
  {
    var deadline := worker.expectedFinishTime.value;
    events := [];
    var i := 0;
    while i < |times| && worker.Active()
      invariant 0 <= i <= |times|
      invariant worker.Valid() && worker.expectedFinishTime == Some(deadline)
      invariant worker.Active() ==> events + Run(deadline, times[i..]) == Run(deadline, times)
      invariant worker.Active() ==> events == [] || events[|events| - 1] != Finish
      invariant !worker.Active() ==> events == Run(deadline, times) && events != [] && events[|events| - 1] == Finish
    {
      var posted := worker.Poll(times[i]);
      RunStep(deadline, times, i, events);
      events := events + [posted.value];
      i := i + 1;
    }
    if worker.Active() {
      assert times[i..] == [];
    }
  }
}
