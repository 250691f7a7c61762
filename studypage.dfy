/**
 * The study page component's state and its handlers.  Each handler updates
 * the fields in place, as the component's state setters do; its contract
 * ties the new timer state to the transition function of `StudyTimer`, or
 * states the new card order outright.
 */
module StudyPage {
  import opened Wrappers
  import opened Schema
  import StudyTimer
  import CardOrder

  class StudyPage {
    var timerType: TimerType
    var customDuration: int
    var timeLeft: int
    var isRunning: bool
    var isBreak: bool
    var pomodoroRound: int
    var cardOrder: seq<string>
    var draggedCard: Option<string>

    /** The timer part of the state as a value. */
    function Timer(): StudyTimer.Timer
      reads this
    {
      StudyTimer.Timer(timerType, customDuration, timeLeft, isRunning, isBreak, pomodoroRound)
    }

    /**
     * The timer is in a reachable state; the cards are the page's three cards,
     * each once; a card being dragged is one of them.
     */
    ghost predicate Valid()
      reads this
    {
      && StudyTimer.Valid(Timer())
      && multiset(cardOrder) == multiset(CardOrder.DefaultOrder)
      && CardOrder.Distinct(cardOrder)
      && (draggedCard.Some? ==> draggedCard.value in cardOrder)
    }

    constructor ()
      ensures Valid()
      ensures Timer() == StudyTimer.Initial
      ensures cardOrder == CardOrder.DefaultOrder && draggedCard == None
    {
      timerType := Pomodoro;
      customDuration := 25;
      timeLeft := 25 * 60;
      isRunning := false;
      isBreak := false;
      pomodoroRound := 1;
      cardOrder := CardOrder.DefaultOrder;
      draggedCard := None;
    }

    /** `handleTimerComplete` */
    method HandleTimerComplete()
      requires Valid()
      modifies this`isRunning, this`isBreak, this`pomodoroRound, this`timeLeft
      ensures Valid()
      ensures Timer() == StudyTimer.Complete(old(Timer()))
    {
      isRunning := false;
      if timerType == Pomodoro {
        if !isBreak {
          isBreak := true;
          var breakDuration := if pomodoroRound % 4 == 0 then 15 else 5;
          timeLeft := breakDuration * 60;
        } else {
          isBreak := false;
          pomodoroRound := pomodoroRound + 1;
          timeLeft := 25 * 60;
        }
      }
    }

    /** One run of the timer effect: count down one second, or complete at zero. */
    method TimerEffect()
      requires Valid()
      modifies this`isRunning, this`isBreak, this`pomodoroRound, this`timeLeft
      ensures Valid()
      ensures Timer() == StudyTimer.Tick(old(Timer()))
    {
      if isRunning && timeLeft > 0 {
        timeLeft := timeLeft - 1;
      } else if timeLeft == 0 {
        HandleTimerComplete();
      }
    }

    /** `startTimer` */
    method StartTimer()
      requires Valid()
      modifies this`isRunning
      ensures Valid()
      ensures Timer() == StudyTimer.Start(old(Timer()))
    {
      isRunning := true;
    }

    /** `pauseTimer` */
    method PauseTimer()
      requires Valid()
      modifies this`isRunning
      ensures Valid()
      ensures Timer() == StudyTimer.Pause(old(Timer()))
    {
      isRunning := false;
    }

    /** `resetTimer` */
    method ResetTimer()
      requires Valid()
      modifies this`isRunning, this`isBreak, this`pomodoroRound, this`timeLeft
      ensures Valid()
      ensures Timer() == StudyTimer.Reset(old(Timer()))
    {
      isRunning := false;
      isBreak := false;
      pomodoroRound := 1;
      if timerType == Pomodoro {
        timeLeft := 25 * 60;
      } else {
        timeLeft := customDuration * 60;
      }
    }

    /** `handleTimerTypeChange` */
    method HandleTimerTypeChange(newType: TimerType)
      requires Valid()
      modifies this`timerType, this`isRunning, this`isBreak, this`pomodoroRound, this`timeLeft
      ensures Valid()
      ensures Timer() == StudyTimer.ChangeType(old(Timer()), newType)
    {
      timerType := newType;
      isRunning := false;
      isBreak := false;
      pomodoroRound := 1;
      if newType == Pomodoro {
        timeLeft := 25 * 60;
      } else {
        timeLeft := customDuration * 60;
      }
    }

    /** `handleCustomDurationChange`, fed by the slider (5 to 120 minutes). */
    method HandleCustomDurationChange(minutes: int)
      requires Valid()
      requires StudyTimer.MinCustomMinutes <= minutes <= StudyTimer.MaxCustomMinutes
      modifies this`customDuration, this`timeLeft
      ensures Valid()
      ensures Timer() == StudyTimer.ChangeCustomDuration(old(Timer()), minutes)
    {
      customDuration := minutes;
      if timerType == Regular && !isRunning {
        timeLeft := minutes * 60;
      }
    }

    /** `handleDragStart`: remember the card picked up. */
    method HandleDragStart(cardId: string)
      requires Valid() && cardId in cardOrder
      modifies this`draggedCard
      ensures Valid() && draggedCard == Some(cardId)
    {
      draggedCard := Some(cardId);
    }

    /**
     * `handleDrop` on the card `targetCardId`: the dragged card moves to the
     * target's position and the other cards keep their relative order.
     * Dropping nothing, or a card on itself, changes no order.  The drag ends
     * either way.
     */
    method HandleDrop(targetCardId: string)
      requires Valid() && targetCardId in cardOrder
      modifies this`cardOrder, this`draggedCard
      ensures Valid() && draggedCard == None
      ensures old(draggedCard) == None || old(draggedCard) == Some(targetCardId) ==>
                cardOrder == old(cardOrder)
      ensures old(draggedCard).Some? && old(draggedCard).value != targetCardId ==>
                var dragged := old(draggedCard).value;
                var from := CardOrder.IndexOf(old(cardOrder), dragged);
                var to := CardOrder.IndexOf(old(cardOrder), targetCardId);
                && 0 <= from && 0 <= to
                && |cardOrder| == |old(cardOrder)|
                && multiset(cardOrder) == multiset(old(cardOrder))
                && cardOrder[to] == dragged
                && CardOrder.RemoveAt(cardOrder, to) == CardOrder.RemoveAt(old(cardOrder), from)
    {
      if draggedCard == None || draggedCard == Some(targetCardId) {
        draggedCard := None;
        return;
      }
      var dragged := draggedCard.value;
      var newOrder := cardOrder;
      var draggedIndex := CardOrder.IndexOf(newOrder, dragged);
      var targetIndex := CardOrder.IndexOf(newOrder, targetCardId);
      newOrder := CardOrder.Splice(newOrder, draggedIndex, 1, []);
      newOrder := CardOrder.Splice(newOrder, targetIndex, 0, [dragged]);
      CardOrder.DropOnCard(cardOrder, dragged, targetCardId);
      assert multiset(newOrder) == multiset(cardOrder) && CardOrder.Distinct(newOrder);
      ghost var timer := Timer();
      cardOrder := newOrder;
      draggedCard := None;
      assert Timer() == timer;
    }

    /** `handleDragEnd`: the drag is over. */
    method HandleDragEnd()
      requires Valid()
      modifies this`draggedCard
      ensures Valid() && draggedCard == None
    {
      draggedCard := None;
    }
  }
}
