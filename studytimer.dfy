/**
 * The study page's timer as a state machine.  `Timer` holds the page's
 * timer state; each function below is one of the page's handlers, giving
 * the state after it.  Durations are in seconds, `customDuration` in minutes.
 */
module StudyTimer {
  import opened Schema

  const WorkMinutes := 25
  const LongBreakMinutes := 15
  const ShortBreakMinutes := 5
  /** The range of the custom-duration slider. */
  const MinCustomMinutes := 5
  const MaxCustomMinutes := 120

  datatype Timer = Timer(
    timerType: TimerType,
    customDuration: int,
    timeLeft: int,
    isRunning: bool,
    isBreak: bool,
    pomodoroRound: int)

  /** The page's initial state: a stopped 25-minute pomodoro work phase, round 1. */
  const Initial := Timer(Pomodoro, 25, WorkMinutes * 60, false, false, 1)

  /** A long break after every fourth work phase, a short one otherwise. */
  function BreakMinutes(round: int): (m: int)
    ensures m == LongBreakMinutes <==> round % 4 == 0
    ensures m == LongBreakMinutes || m == ShortBreakMinutes
  {
    if round % 4 == 0 then LongBreakMinutes else ShortBreakMinutes
  }

  /**
   * `getTotalDuration`: the length in seconds of the current phase: 25
   * minutes of work, a 15- or 5-minute break, or the custom duration.  It is
   * positive whenever the custom duration is a slider value.
   */
  function TotalDuration(t: Timer): (d: int)
    ensures t.timerType == Pomodoro && !t.isBreak ==> d == 25 * 60
    ensures t.timerType == Pomodoro && t.isBreak ==>
              (d == 15 * 60 <==> t.pomodoroRound % 4 == 0) && (d == 15 * 60 || d == 5 * 60)
    ensures t.timerType == Regular ==> d == t.customDuration * 60
    ensures MinCustomMinutes <= t.customDuration ==> d >= ShortBreakMinutes * 60
  {
    if t.timerType == Pomodoro then
      if t.isBreak then BreakMinutes(t.pomodoroRound) * 60 else WorkMinutes * 60
    else
      t.customDuration * 60
  }

  /**
   * What every reachable state satisfies: time left is never negative,
   * rounds count from 1, the custom duration is a slider value, and a
   * pomodoro phase never has more time left than its length.
   */
  ghost predicate Valid(t: Timer)
  {
    && t.timeLeft >= 0
    && t.pomodoroRound >= 1
    && MinCustomMinutes <= t.customDuration <= MaxCustomMinutes
    && (t.timerType == Pomodoro ==> t.timeLeft <= TotalDuration(t))
  }

  /**
   * `handleTimerComplete`: stop; a pomodoro work phase turns into a break
   * (long every fourth round), a break into the next round's work phase.
   * A regular timer only stops.
   */
  function Complete(t: Timer): (r: Timer)
    ensures Valid(t) ==> Valid(r)
    ensures !r.isRunning
    ensures r.timerType == t.timerType && r.customDuration == t.customDuration
    ensures t.timerType == Pomodoro ==>
              && r.isBreak == !t.isBreak
              && r.pomodoroRound == (if t.isBreak then t.pomodoroRound + 1 else t.pomodoroRound)
              && r.timeLeft == TotalDuration(r)
    ensures t.timerType == Regular ==> r == t.(isRunning := false)
  {
    var stopped := t.(isRunning := false);
    if t.timerType == Pomodoro then
      if !t.isBreak then
        stopped.(isBreak := true, timeLeft := BreakMinutes(t.pomodoroRound) * 60)
      else
        stopped.(isBreak := false, pomodoroRound := t.pomodoroRound + 1, timeLeft := WorkMinutes * 60)
    else
      stopped
  }

  /**
   * One run of the timer effect: a running timer with time left loses one
   * second; a timer at zero completes; otherwise nothing happens.
   */
  function Tick(t: Timer): (r: Timer)
    ensures Valid(t) ==> Valid(r)
    ensures t.isRunning && t.timeLeft > 0 ==>
              r == t.(timeLeft := t.timeLeft - 1) && TotalDuration(r) == TotalDuration(t)
    ensures t.timeLeft == 0 ==> r == Complete(t)
    ensures !t.isRunning && t.timeLeft > 0 ==> r == t
  {
    if t.isRunning && t.timeLeft > 0 then t.(timeLeft := t.timeLeft - 1)
    else if t.timeLeft == 0 then Complete(t)
    else t
  }

  /** `startTimer` */
  function Start(t: Timer): (r: Timer)
    ensures Valid(t) ==> Valid(r)
    ensures r.isRunning && r.(isRunning := t.isRunning) == t
  {
    t.(isRunning := true)
  }

  /** `pauseTimer` */
  function Pause(t: Timer): (r: Timer)
    ensures Valid(t) ==> Valid(r)
    ensures !r.isRunning && r.(isRunning := t.isRunning) == t
  {
    t.(isRunning := false)
  }

  /** The phase every reset starts from: stopped work phase of round 1, full length. */
  function Restart(t: Timer, timerType: TimerType): (r: Timer)
    ensures Valid(t) ==> Valid(r)
    ensures !r.isRunning && !r.isBreak && r.pomodoroRound == 1
    ensures r.timerType == timerType && r.customDuration == t.customDuration
    ensures r.timeLeft == TotalDuration(r)
  {
    Timer(timerType, t.customDuration,
          if timerType == Pomodoro then WorkMinutes * 60 else t.customDuration * 60,
          false, false, 1)
  }

  /** `resetTimer`: restart the current kind of timer. */
  function Reset(t: Timer): (r: Timer)
    ensures Valid(t) ==> Valid(r)
    ensures r == Restart(t, t.timerType)
  {
    t.(isRunning := false, isBreak := false, pomodoroRound := 1,
       timeLeft := if t.timerType == Pomodoro then WorkMinutes * 60 else t.customDuration * 60)
  }

  /** `handleTimerTypeChange`: switch kind and restart with the new kind. */
  function ChangeType(t: Timer, timerType: TimerType): (r: Timer)
    ensures Valid(t) ==> Valid(r)
    ensures r == Restart(t, timerType)
  {
    t.(timerType := timerType, isRunning := false, isBreak := false, pomodoroRound := 1,
       timeLeft := if timerType == Pomodoro then WorkMinutes * 60 else t.customDuration * 60)
  }

  /**
   * `handleCustomDurationChange`: always keep the new value; a stopped
   * regular timer is also set to the new length.
   */
  function ChangeCustomDuration(t: Timer, minutes: int): (r: Timer)
    requires MinCustomMinutes <= minutes <= MaxCustomMinutes
    ensures Valid(t) ==> Valid(r)
    ensures r.customDuration == minutes
    ensures t.timerType == Regular && !t.isRunning ==>
              r == t.(customDuration := minutes, timeLeft := minutes * 60) && r.timeLeft == TotalDuration(r)
    ensures !(t.timerType == Regular && !t.isRunning) ==> r == t.(customDuration := minutes)
    ensures t.timerType == Pomodoro ==> TotalDuration(r) == TotalDuration(t)
  {
    var r := t.(customDuration := minutes);
    if t.timerType == Regular && !t.isRunning then r.(timeLeft := minutes * 60) else r
  }

  /** `n` runs of the timer effect. */
  function Ticks(t: Timer, n: nat): Timer
    decreases n
  {
    if n == 0 then t else Ticks(Tick(t), n - 1)
  }

  /** A running timer counts down one second per tick until it shows zero. */
  lemma {:induction false} CountDown(t: Timer, n: nat)
    requires t.isRunning && n <= t.timeLeft
    ensures Ticks(t, n) == t.(timeLeft := t.timeLeft - n)
    decreases n
  {
    if n > 0 {
      CountDown(Tick(t), n - 1);
    }
  }

  /**
   * Left running, a pomodoro work phase ends, one tick after reaching zero,
   * in a stopped break whose length depends on the round.
   */
  lemma WorkPhaseEndsInBreak(t: Timer)
    requires Valid(t) && t.timerType == Pomodoro && t.isRunning && !t.isBreak
    ensures var r := Ticks(t, t.timeLeft + 1);
      && !r.isRunning && r.isBreak && r.pomodoroRound == t.pomodoroRound
      && r.timeLeft == BreakMinutes(t.pomodoroRound) * 60
  {
    CountDown(t, t.timeLeft);
    TicksSplit(t, t.timeLeft);
  }

  /** Left running, a pomodoro break ends in a stopped, full-length work phase of the next round. */
  lemma BreakPhaseEndsInNextRound(t: Timer)
    requires Valid(t) && t.timerType == Pomodoro && t.isRunning && t.isBreak
    ensures var r := Ticks(t, t.timeLeft + 1);
      && !r.isRunning && !r.isBreak && r.pomodoroRound == t.pomodoroRound + 1
      && r.timeLeft == WorkMinutes * 60
  {
    CountDown(t, t.timeLeft);
    TicksSplit(t, t.timeLeft);
  }

  /** n + 1 ticks are n ticks followed by one more. */
  lemma {:induction false} TicksSplit(t: Timer, n: nat)
    ensures Ticks(t, n + 1) == Tick(Ticks(t, n))
    decreases n
  {
    if n > 0 {
      TicksSplit(Tick(t), n - 1);
    }
  }

  /** The initial state is reachable-state-shaped and shows a full work phase. */
  lemma InitialValid()
    ensures Valid(Initial) && Initial.timeLeft == TotalDuration(Initial)
  {
  }
}
