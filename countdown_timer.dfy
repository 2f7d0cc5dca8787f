/** The countdown's held state (the displayed time left and the finished flag)
    and the tick that recomputes it from the number of seconds still to go. */
module Countdown {
  import opened TimeLeftSplit

  /** The two pieces of state the component holds. */
  datatype TimerState = TimerState(timeLeft: TimeLeft, isFinished: bool)

  /** The state before the first tick: an all-zero display, not finished. */
  const Initial: TimerState := TimerState(Zero, false)

  /** The state after one tick that measured `totalSeconds` to the target.
      At zero or below the flag is raised and the display zeroed; above zero only
      the display is replaced, and the flag keeps whatever value it had. */
  function Next(s: TimerState, totalSeconds: int): (r: TimerState)
    ensures r.isFinished <==> s.isFinished || totalSeconds <= 0
    ensures InRange(r.timeLeft)
    ensures totalSeconds <= 0 ==> r.timeLeft == Zero
    ensures totalSeconds > 0 ==> TotalSeconds(r.timeLeft) == totalSeconds
  {
    if totalSeconds <= 0 then
      TimerState(Zero, true)
    else
      DecomposeReconstructs(totalSeconds);
      TimerState(Decompose(totalSeconds), s.isFinished)
  }

  /** The state after the ticks that measured `totals`, in order. */
  function Run(s: TimerState, totals: seq<int>): (r: TimerState)
    ensures s.isFinished ==> r.isFinished
    ensures totals != [] ==> InRange(r.timeLeft)
    decreases |totals|
  {
    if totals == [] then s else Run(Next(s, totals[0]), totals[1..])
  }

  /** The flag is raised after a run of ticks exactly when it was raised before
      or some tick measured zero or less: it never goes back down. */
  lemma {:induction false} RunFinishedIff(s: TimerState, totals: seq<int>)
    ensures Run(s, totals).isFinished <==>
            s.isFinished || exists i :: 0 <= i < |totals| && totals[i] <= 0
    decreases |totals|
  {
    if totals != [] {
      RunFinishedIff(Next(s, totals[0]), totals[1..]);
      if exists i :: 0 <= i < |totals[1..]| && totals[1..][i] <= 0 {
        var i :| 0 <= i < |totals[1..]| && totals[1..][i] <= 0;
        assert totals[i + 1] <= 0;
      }
      if exists i :: 0 <= i < |totals| && totals[i] <= 0 {
        var i :| 0 <= i < |totals| && totals[i] <= 0;
        if i > 0 {
          assert totals[1..][i - 1] <= 0;
        }
      }
    }
  }

  /** Once finished, the countdown stays finished whatever later ticks measure. */
  lemma FinishedIsFinal(s: TimerState, totals: seq<int>)
    requires s.isFinished
    ensures Run(s, totals).isFinished
  {
  }

  /** Every tick overwrites the whole display, so after a run the display depends
      only on the last measurement. */
  lemma {:induction false} RunShowsLastTick(s: TimerState, totals: seq<int>)
    requires totals != []
    ensures Run(s, totals).timeLeft == Next(s, totals[|totals| - 1]).timeLeft
    decreases |totals|
  {
    if |totals| > 1 {
      RunShowsLastTick(Next(s, totals[0]), totals[1..]);
    }
  }

  /** The display after any run of ticks has every field in range. */
  lemma RunInRange(s: TimerState, totals: seq<int>)
    requires InRange(s.timeLeft)
    ensures InRange(Run(s, totals).timeLeft)
  {
  }

  /** The component: its two state hooks become two fields that each tick overwrites. */
  class CountdownTimer {
    var timeLeft: TimeLeft
    var isFinished: bool

    /** The held state as a value. */
    function State(): TimerState
      reads this
    {
      TimerState(timeLeft, isFinished)
    }

    /** The displayed fields are always in range. */
    predicate Valid()
      reads this
    {
      InRange(timeLeft)
    }

    /** Both hooks start at their initial values. */
    constructor ()
      ensures Valid()
      ensures State() == Initial
    {
      timeLeft := Zero;
      isFinished := false;
    }

    /** One tick, given the whole seconds from now to the target. */
    method CalculateTimeLeft(totalSeconds: int)
      modifies this
      ensures Valid()
      ensures State() == Next(old(State()), totalSeconds)
      ensures totalSeconds <= 0 ==> isFinished && timeLeft == Zero
      ensures totalSeconds > 0 ==> isFinished == old(isFinished) && TotalSeconds(timeLeft) == totalSeconds
      ensures old(isFinished) ==> isFinished
    {
      if totalSeconds <= 0 {
        isFinished := true;
        timeLeft := Zero;
        return;
      }

      var days := totalSeconds / SecondsPerDay;
      var hours := (totalSeconds % SecondsPerDay) / SecondsPerHour;
      var minutes := (totalSeconds % SecondsPerHour) / SecondsPerMinute;
      var seconds := totalSeconds % SecondsPerMinute;

      timeLeft := TimeLeft(days, hours, minutes, seconds);
    }
  }

  /** A tick that sees time left after one that saw none (the clock moved back)
      leaves the flag raised beside a non-zero display. */
  method ClockMovesBack() returns (finished: bool, shown: TimeLeft)
    ensures finished && shown == TimeLeft(0, 0, 0, 5)
  {
    var timer := new CountdownTimer();
    timer.CalculateTimeLeft(0);
    timer.CalculateTimeLeft(5);
    finished, shown := timer.isFinished, timer.timeLeft;
  }
}
