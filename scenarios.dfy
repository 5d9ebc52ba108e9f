/**
 * The controller and the worker wired together, with each posted message delivered at
 * once. The worker is the copy inlined in script.js (it keeps its handle on `stop`).
 */
module Scenarios {
  import opened Wrappers
  import opened Engine
  import opened Session
  import Format

  /**
   * A default 25-minute session: start, one firing before the deadline, one at or after it,
   * and another one later. The tick lies in 1..1500, the finish leaves the page on the
   * completion screen with the session stopped and the last tick's value kept, and the
   * worker is silent afterwards.
   */
  method FocusSession(t0: int, t1: int, t2: int, t3: int)
    returns (tick: Event, shownAfterTick: string, ending: Option<Event>,
             shownAtEnd: string, titleAtEnd: string, runningAtEnd: bool, leftAtEnd: int,
             afterwards: Option<Event>)
    requires t0 <= t1 < t0 + 1500 * 1000 <= t2 <= t3
    ensures tick.Tick? && 0 < tick.timeLeft <= 1500
    ensures shownAfterTick == Format.Display(tick.timeLeft)
    ensures ending == Some(Finish)
    ensures shownAtEnd == "00:00" && titleAtEnd == "Done! - Catodoro" && !runningAtEnd
    ensures leftAtEnd == tick.timeLeft
    ensures afterwards == None
  {
    var timer := new CatodoroTimer();
    var worker := new TimerWorker(false);
    timer.Start();
    worker.OnMessage(timer.posted[|timer.posted| - 1], t0);
    var first := worker.Poll(t1);
    FirstTickAtMostDuration(t0, 1500, t1);
    tick := first.value;
    timer.OnMessage(tick);
    shownAfterTick := timer.display;
    ending := worker.Poll(t2);
    timer.OnMessage(ending.value);
    worker.OnMessage(timer.posted[|timer.posted| - 1], t2);
    shownAtEnd, titleAtEnd, runningAtEnd, leftAtEnd := timer.display, timer.title, timer.isRunning, timer.timeRemaining;
    afterwards := worker.Poll(t3);
  }

  /**
   * Custom durations: -5 minutes is refused and changes nothing, 10 minutes gives "10:00",
   * and a reset with -5 minutes passes the negative time through while showing "00:00".
   */
  method CustomDurations()
    returns (refused: Option<string>, leftAfterRefusal: int, accepted: Option<string>,
             shownAfterTen: string, leftAfterReset: int, shownAfterReset: string)
    ensures refused == Some(INVALID_DURATION_ALERT) && leftAfterRefusal == 1500
    ensures accepted == None && shownAfterTen == "10:00"
    ensures leftAfterReset == -300 && shownAfterReset == "00:00"
  {
    var timer := new CatodoroTimer();
    refused := timer.SetCustomDuration(Some(-5));
    leftAfterRefusal := timer.timeRemaining;
    accepted := timer.SetCustomDuration(Some(10));
    Format.DisplayOf600();
    shownAfterTen := timer.display;
    timer.Reset(Some(-5));
    Format.DisplayOfNonPositive(-300);
    leftAfterReset, shownAfterReset := timer.timeRemaining, timer.display;
  }

  /**
   * A firing that comes only at or after the deadline (a suspended machine) posts `finish`
   * with no tick before it: the page shows the completion screen while the remaining time
   * is still the full 1500 seconds the run was started with.
   */
  method FinishWithoutTick(t0: int, t1: int)
    returns (ending: Option<Event>, shownAtEnd: string, titleAtEnd: string,
             runningAtEnd: bool, leftAtEnd: int)
    requires t0 + 1500 * 1000 <= t1
    ensures ending == Some(Finish)
    ensures shownAtEnd == "00:00" && titleAtEnd == "Done! - Catodoro" && !runningAtEnd
    ensures leftAtEnd == 1500
  {
    var timer := new CatodoroTimer();
    var worker := new TimerWorker(false);
    timer.Start();
    worker.OnMessage(timer.posted[|timer.posted| - 1], t0);
    ending := worker.Poll(t1);
    timer.OnMessage(ending.value);
    shownAtEnd, titleAtEnd, runningAtEnd, leftAtEnd := timer.display, timer.title, timer.isRunning, timer.timeRemaining;
  }

  /**
   * A second `start` supersedes the first: the firings that follow post exactly what a
   * worker that only ever saw the second `start` posts.
   */
  method StartSupersedes(nullsHandleOnStop: bool, first: int, t1: int, second: int, t2: int, times: seq<int>)
    returns (events: seq<Event>, freshEvents: seq<Event>)
    ensures events == freshEvents == Run(t2 + second * 1000, times)
  {
    var worker := new TimerWorker(nullsHandleOnStop);
    worker.Start(first, t1);
    worker.Start(second, t2);
    events := FireInterval(worker, times);
    var other := new TimerWorker(nullsHandleOnStop);
    other.Start(second, t2);
    freshEvents := FireInterval(other, times);
  }

  /**
   * A `start` in the middle of a run, or after it finished, supersedes it: whatever the
   * earlier firings were, the firings after the second `start` post exactly the run
   * against the new deadline.
   */
  method RestartMidRun(nullsHandleOnStop: bool, first: int, t1: int, before: seq<int>,
                       second: int, t2: int, after: seq<int>)
    returns (eventsBefore: seq<Event>, eventsAfter: seq<Event>)
    ensures eventsBefore == Run(t1 + first * 1000, before)
    ensures eventsAfter == Run(t2 + second * 1000, after)
  {
    var worker := new TimerWorker(nullsHandleOnStop);
    worker.OnMessage(Command.Start(first), t1);
    eventsBefore := FireInterval(worker, before);
    worker.OnMessage(Command.Start(second), t2);
    eventsAfter := FireInterval(worker, after);
  }

  /**
   * After `stop` no firing posts anything, in either copy of the worker, and a second `stop`
   * changes nothing: the handle and the deadline stay as the first `stop` left them.
   */
  method StopSilences(nullsHandleOnStop: bool, duration: int, t0: int, t1: int)
    returns (afterStop: Option<Event>, afterSecondStop: Option<Event>,
             handleAfterStop: Option<nat>, handleAfterSecondStop: Option<nat>,
             deadlineAfterStop: Option<int>, deadlineAfterSecondStop: Option<int>,
             activeAfterSecondStop: bool)
    ensures afterStop == None && afterSecondStop == None
    ensures handleAfterSecondStop == handleAfterStop
    ensures deadlineAfterSecondStop == deadlineAfterStop == Some(t0 + duration * 1000)
    ensures !activeAfterSecondStop
    ensures nullsHandleOnStop ==> handleAfterStop == None
    ensures !nullsHandleOnStop ==> handleAfterStop.Some?
  {
    var worker := new TimerWorker(nullsHandleOnStop);
    worker.Start(duration, t0);
    worker.Stop();
    afterStop := worker.Poll(t1);
    handleAfterStop, deadlineAfterStop := worker.timerInterval, worker.expectedFinishTime;
    worker.Stop();
    handleAfterSecondStop, deadlineAfterSecondStop := worker.timerInterval, worker.expectedFinishTime;
    activeAfterSecondStop := worker.Active();
    afterSecondStop := worker.Poll(t1);
  }
}
