/**
 * The session controller `CatodoroTimer` of script.js: the fields `timeRemaining` and
 * `isRunning`, the display text and page title it writes, and the commands it posts to the
 * worker (recorded in order in `posted`). The value of `parseInt` on the minutes input is
 * an argument: `None` stands for NaN.
 */
module Session {
  import opened Wrappers
  import opened Engine
  import Format

  const DEFAULT_MINUTES := 25
  const INVALID_DURATION_ALERT := "Please enter a valid number of minutes!"

  /** `parseInt(...) || 25`: NaN and zero are falsy and give the default; anything else passes. */
  function ResetMinutes(parsed: Option<int>): (minutes: int)
    ensures minutes == DEFAULT_MINUTES <==> parsed in {None, Some(0), Some(DEFAULT_MINUTES)}
    ensures minutes != 0
    ensures parsed.Some? && parsed.value != 0 ==> minutes == parsed.value
    ensures minutes < 0 <==> parsed.Some? && parsed.value < 0
  {
    match parsed
    case None => DEFAULT_MINUTES
    case Some(m) => if m == 0 then DEFAULT_MINUTES else m
  }

  /** `minutes && minutes > 0`: a number that is neither NaN, zero nor negative. */
  predicate ValidCustomMinutes(parsed: Option<int>)
  {
    parsed.Some? && parsed.value > 0
  }

  class CatodoroTimer {
    var timeRemaining: int
    var isRunning: bool
    var display: string
    var title: string
    var posted: seq<Command>

    /**
     * The session is running exactly when the last command posted was `start`; the page
     * either shows the remaining time with the app's title, or the completion screen.
     */
    ghost predicate Valid()
      reads this
    {
      RunningAsPosted()
      && ((display == Format.Display(timeRemaining) && title == Format.Title(display))
          || (display == "00:00" && title == Format.DONE_TITLE))
    }

    ghost predicate RunningAsPosted()
      reads this
    {
      isRunning <==> posted != [] && posted[|posted| - 1].Start?
    }

    constructor ()
      ensures Valid()
      ensures timeRemaining == 25 * 60 && !isRunning && posted == []
      ensures display == "25:00" && title == "25:00 - Catodoro"
    {
      timeRemaining := 25 * 60;
      isRunning := false;
      posted := [];
      display, title := "", "";
      new;
      UpdateDisplay();
      Format.DisplayOf1500(timeRemaining);
    }

    /** `updateDisplay`: render the clamped remaining time and mirror it in the title. */
    method UpdateDisplay()
      requires RunningAsPosted()
      modifies this`display, this`title
      ensures Valid()
      ensures display == Format.Display(timeRemaining)
      ensures title == display + " - Catodoro"
    {
      display := Format.Display(timeRemaining);
      title := Format.Title(display);
    }

    /** `start`: nothing when already running; otherwise run and post `start` with the time left. */
    method Start()
      requires Valid()
      modifies this
      ensures Valid()
      ensures old(isRunning) ==> isRunning && posted == old(posted)
      ensures !old(isRunning) ==> isRunning && posted == old(posted) + [Command.Start(old(timeRemaining))]
      ensures timeRemaining == old(timeRemaining) && display == old(display) && title == old(title)
    {
      if isRunning {
        return;
      }
      isRunning := true;
      posted := posted + [Command.Start(timeRemaining)];
    }

    /** `stop`: nothing when not running; otherwise pause and post `stop`. The time left is kept. */
    method Stop()
      requires Valid()
      modifies this
      ensures Valid() && !isRunning
      ensures posted == old(posted) + (if old(isRunning) then [Command.Stop] else [])
      ensures timeRemaining == old(timeRemaining) && display == old(display) && title == old(title)
    {
      if !isRunning {
        return;
      }
      isRunning := false;
      posted := posted + [Command.Stop];
    }

    /**
     * `reset`: stop, then take the minutes from the input, falling back to 25 only for NaN
     * or zero (a negative number is taken as it is), and render.
     */
    method Reset(parsed: Option<int>)
      requires Valid()
      modifies this
      ensures Valid() && !isRunning
      ensures timeRemaining == ResetMinutes(parsed) * 60
      ensures posted == old(posted) + (if old(isRunning) then [Command.Stop] else [])
      ensures display == Format.Display(timeRemaining) && title == display + " - Catodoro"
    {
      Stop();
      var minutes := ResetMinutes(parsed);
      timeRemaining := minutes * 60;
      UpdateDisplay();
    }

    /**
     * `setCustomDuration`: for a positive number of minutes, stop, set the time and render;
     * otherwise raise the validation alert and change nothing.
     */
    method SetCustomDuration(parsed: Option<int>) returns (alert: Option<string>)
      requires Valid()
      modifies this
      ensures Valid()
      ensures alert == if ValidCustomMinutes(parsed) then None else Some(INVALID_DURATION_ALERT)
      ensures ValidCustomMinutes(parsed) ==>
        && !isRunning && timeRemaining == parsed.value * 60
        && posted == old(posted) + (if old(isRunning) then [Command.Stop] else [])
        && display == Format.Display(timeRemaining) && title == display + " - Catodoro"
      ensures !ValidCustomMinutes(parsed) ==>
        && isRunning == old(isRunning) && timeRemaining == old(timeRemaining) && posted == old(posted)
        && display == old(display) && title == old(title)
    {
      if ValidCustomMinutes(parsed) {
        Stop();
        timeRemaining := parsed.value * 60;
        UpdateDisplay();
        alert := None;
      } else {
        alert := Some(INVALID_DURATION_ALERT);
      }
    }

    /**
     * `finish`: stop, show "00:00" and the completion title. The remaining time is left as
     * it was: the last tick's value if a tick arrived, otherwise the duration started with.
     */
    method Finish()
      requires Valid()
      modifies this
      ensures Valid() && !isRunning
      ensures timeRemaining == old(timeRemaining)
      ensures posted == old(posted) + (if old(isRunning) then [Command.Stop] else [])
      ensures display == "00:00" && title == "Done! - Catodoro"
    {
      Stop();
      display := "00:00";
      title := Format.DONE_TITLE;
    }

    /** `timerWorker.onmessage`: a tick sets the remaining time and renders; a finish finishes. */
    method OnMessage(event: Event)
      requires Valid()
      modifies this
      ensures Valid()
      ensures event.Tick? ==>
        && timeRemaining == event.timeLeft && isRunning == old(isRunning) && posted == old(posted)
        && display == Format.Display(event.timeLeft) && title == display + " - Catodoro"
      ensures event.Finish? ==>
        && !isRunning && timeRemaining == old(timeRemaining)
        && posted == old(posted) + (if old(isRunning) then [Command.Stop] else [])
        && display == "00:00" && title == "Done! - Catodoro"
    {
      match event
      case Tick(timeLeft) =>
        timeRemaining := timeLeft;
        UpdateDisplay();
      case Finish =>
        Finish();
    }
  }
}
