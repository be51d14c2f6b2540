/** The Pomodoro timer store (`src/core/store/timer.ts`): the three session kinds, their
    fixed durations, the eight-slot rotation, the persisted snapshot and the store's actions. */
module Timer {
  import opened Wrappers
  import Lists
  import Js

  datatype SessionKind = Work | ShortBreak | LongBreak

  /** `SESSION_DURATIONS`, in seconds: 25, 5 and 15 minutes. */
  function Duration(k: SessionKind): (secs: nat)
    ensures secs > 0 && secs % 60 == 0
    ensures k == Work <==> secs == 1500
    ensures k == ShortBreak <==> secs == 300
    ensures k == LongBreak <==> secs == 900
  {
    match k
    case Work => 25 * 60
    case ShortBreak => 5 * 60
    case LongBreak => 15 * 60
  }

  /** `SESSION_ORDER`: four work sessions, separated by short breaks, then a long break. */
  const SessionOrder: seq<SessionKind> :=
    [Work, ShortBreak, Work, ShortBreak, Work, ShortBreak, Work, LongBreak]

  /** `getNextSessionType`: the kind in the slot after the FIRST slot holding `k`. Since
      `indexOf` always finds slot 0 or 1 for work and short break and slot 7 for the long
      break, the rotation only ever alternates work and short break; the long break is
      never chosen and the completed-session count plays no part. */
  function NextKind(k: SessionKind): (r: SessionKind)
    ensures r == if k == Work then ShortBreak else Work
    ensures r != LongBreak
  {
    var i := FirstSlot(k);
    SessionOrder[Js.Rem(i + 1, |SessionOrder|)]
  }

  /** Where `indexOf` finds each kind in `SessionOrder`: slots 0, 1 and 7. */
  function FirstSlot(k: SessionKind): (i: nat)
    ensures i < |SessionOrder| && SessionOrder[i] == k
  {
    match k case Work => 0 case ShortBreak => 1 case LongBreak => 7
  }

  /** `FirstSlot` is `SESSION_ORDER.indexOf(k)`: the kind sits there and in no earlier slot. */
  lemma FirstSlotIsIndexOf(k: SessionKind)
    ensures FirstSlot(k) == Lists.IndexOf(SessionOrder, k)
  {
    var i := FirstSlot(k);
    assert SessionOrder[..i] == [Work, ShortBreak, Work, ShortBreak, Work, ShortBreak, Work][..i];
    Lists.IndexOfAt(SessionOrder, k, i);
  }

  /** `getSessionTotalSecs`. */
  function TotalSecs(k: SessionKind): (secs: nat)
    ensures secs == Duration(k)
  {
    Duration(k)
  }

  /** The store's state. `remainingSecs` and `pomodoroCount` are plain numbers in the
      source, and `setRemainingSecs` accepts any value, so both are unbounded integers here. */
  datatype TimerState = TimerState(isActive: bool, sessionType: SessionKind, remainingSecs: int, pomodoroCount: int)

  /** What `partialize` writes to the `timer-storage` slot: everything except `isActive`. */
  datatype Snapshot = Snapshot(sessionType: SessionKind, remainingSecs: int, pomodoroCount: int)

  /** The countdown sits within the duration of its kind. */
  predicate InRange(s: TimerState) {
    0 <= s.remainingSecs <= Duration(s.sessionType)
  }

  /** `partialize`: the persisted part of the state. */
  function Partialize(s: TimerState): (p: Snapshot)
    ensures InitialState(Some(p)) == s.(isActive := false)
  {
    Snapshot(s.sessionType, s.remainingSecs, s.pomodoroCount)
  }

  /** `getInitialState`: the saved snapshot if there is one, a full work session with no
      completed sessions otherwise; the timer never starts running on load. */
  function InitialState(saved: Option<Snapshot>): (s: TimerState)
    ensures !s.isActive
    ensures saved.None? ==> s.sessionType == Work && s.remainingSecs == 1500 && s.pomodoroCount == 0
    ensures saved.Some? ==>
      s.sessionType == saved.value.sessionType && s.remainingSecs == saved.value.remainingSecs &&
      s.pomodoroCount == saved.value.pomodoroCount
    ensures saved.None? ==> InRange(s)
  {
    match saved
    case Some(p) => TimerState(false, p.sessionType, p.remainingSecs, p.pomodoroCount)
    case None => TimerState(false, Work, Duration(Work), 0)
  }

  /** The store's actions, each a single `set`. */
  datatype Action =
    | Start
    | Pause
    | Reset
    | Skip
    | ChangeSessionType(kind: SessionKind)
    | SetSessionType(kind: SessionKind)
    | SetRemainingSecs(secs: int)
    | IncrementPomodoroCount

  /** The state after one action. */
  function Apply(s: TimerState, a: Action): (r: TimerState)
    ensures r.pomodoroCount == if a.IncrementPomodoroCount? then s.pomodoroCount + 1 else s.pomodoroCount
    ensures a.Start? ==> r.isActive
    ensures (a.Pause? || a.Reset? || a.Skip? || a.ChangeSessionType?) ==> !r.isActive
    ensures (a.SetSessionType? || a.SetRemainingSecs? || a.IncrementPomodoroCount?) ==> r.isActive == s.isActive
    ensures (a.Reset? || a.Skip? || a.ChangeSessionType?) ==> r.remainingSecs == Duration(r.sessionType)
  {
    match a
    case Start => s.(isActive := true)
    case Pause => s.(isActive := false)
    case Reset => s.(isActive := false, remainingSecs := Duration(s.sessionType))
    case Skip =>
      var next := NextKind(s.sessionType);
      s.(isActive := false, sessionType := next, remainingSecs := Duration(next))
    case ChangeSessionType(k) => s.(isActive := false, sessionType := k, remainingSecs := Duration(k))
    case SetSessionType(k) => s.(sessionType := k)
    case SetRemainingSecs(v) => s.(remainingSecs := v)
    case IncrementPomodoroCount => s.(pomodoroCount := s.pomodoroCount + 1)
  }

  /** `start` and `pause` touch nothing but `isActive`, and repeating either changes nothing. */
  lemma StartPauseOnlyActive(s: TimerState)
    ensures Apply(s, Start) == s.(isActive := true)
    ensures Apply(s, Pause) == s.(isActive := false)
    ensures Apply(Apply(s, Start), Start) == Apply(s, Start)
    ensures Apply(Apply(s, Pause), Pause) == Apply(s, Pause)
  {
  }

  /** `reset`, `skip` and `changeSessionType` stop the timer at the full duration of the
      resulting kind and keep `pomodoroCount`; `reset` keeps the kind, `skip` rotates it. */
  lemma RestartingActions(s: TimerState, k: SessionKind)
    ensures Apply(s, Reset) == TimerState(false, s.sessionType, Duration(s.sessionType), s.pomodoroCount)
    ensures Apply(s, Skip) == TimerState(false, NextKind(s.sessionType), Duration(NextKind(s.sessionType)), s.pomodoroCount)
    ensures Apply(s, ChangeSessionType(k)) == TimerState(false, k, Duration(k), s.pomodoroCount)
  {
  }

  /** The actions a user can reach from the controls keep the countdown in range ... */
  lemma ControlsKeepInRange(s: TimerState, a: Action)
    requires InRange(s)
    requires a.Start? || a.Pause? || a.Reset? || a.Skip? || a.ChangeSessionType? || a.IncrementPomodoroCount?
    ensures InRange(Apply(s, a))
  {
  }

  /** ... but the raw setters do not: setting only the kind leaves a countdown longer than the new
      kind's duration, and any number of seconds outside the current kind's is taken as given. */
  lemma SettersBreakRange()
    ensures InRange(TimerState(false, Work, 1000, 0))
    ensures !InRange(Apply(TimerState(false, Work, 1000, 0), SetSessionType(ShortBreak)))
    ensures !InRange(Apply(TimerState(false, Work, 1000, 0), SetRemainingSecs(-1)))
    ensures forall s: TimerState, k :: s.remainingSecs > Duration(k) ==> !InRange(Apply(s, SetSessionType(k)))
    ensures forall s: TimerState, v :: InRange(Apply(s, SetRemainingSecs(v))) <==> 0 <= v <= Duration(s.sessionType)
  {
    forall s: TimerState, k | s.remainingSecs > Duration(k) ensures !InRange(Apply(s, SetSessionType(k))) {
      assert Apply(s, SetSessionType(k)) == s.(sessionType := k);
    }
    forall s: TimerState, v ensures InRange(Apply(s, SetRemainingSecs(v))) <==> 0 <= v <= Duration(s.sessionType) {
      assert Apply(s, SetRemainingSecs(v)) == s.(remainingSecs := v);
    }
  }

  /** The state after `n` presses of the skip button. */
  function Skips(s: TimerState, n: nat): (r: TimerState)
    ensures r.pomodoroCount == s.pomodoroCount
  {
    if n == 0 then s else Apply(Skips(s, n - 1), Skip)
  }

  /** Skipping never reaches the long break: from the first skip on, the kinds alternate
      between short break and work, whatever `pomodoroCount` is (an odd number of skips from
      a work session lands on a short break, from any break on work). */
  lemma {:induction false} SkipsAlternate(s: TimerState, n: nat)
    requires n >= 1
    ensures Skips(s, n).sessionType != LongBreak
    ensures Skips(s, n).sessionType == if (n % 2 == 1) == (s.sessionType == Work) then ShortBreak else Work
    ensures !Skips(s, n).isActive && InRange(Skips(s, n))
  {
    if n > 1 {
      SkipsAlternate(s, n - 1);
      var prev := Skips(s, n - 1);
      assert Skips(s, n) == Apply(prev, Skip);
      assert (n % 2 == 1) == ((n - 1) % 2 == 0);
    }
  }

  /** The zustand store `useTimerStore`. */
  class TimerStore {
    var isActive: bool
    var sessionType: SessionKind
    var remainingSecs: int
    var pomodoroCount: int

    function State(): TimerState
      reads this
    {
      TimerState(isActive, sessionType, remainingSecs, pomodoroCount)
    }

    /** Creation, from the snapshot read back from storage if there is one. */
    constructor (saved: Option<Snapshot>)
      ensures State() == InitialState(saved)
    {
      var s := InitialState(saved);
      isActive, sessionType, remainingSecs, pomodoroCount := s.isActive, s.sessionType, s.remainingSecs, s.pomodoroCount;
    }

    method Start()
      modifies this
      ensures State() == Apply(old(State()), Action.Start)
    {
      isActive := true;
    }

    method Pause()
      modifies this
      ensures State() == Apply(old(State()), Action.Pause)
    {
      isActive := false;
    }

    method Reset()
      modifies this
      ensures State() == Apply(old(State()), Action.Reset)
    {
      isActive, remainingSecs := false, Duration(sessionType);
    }

    /** `skip` looks the next kind up in `SESSION_ORDER` itself, the same way `getNextSessionType`
        does; `FirstSlot` is its `indexOf` (`FirstSlotIsIndexOf`). */
    method Skip()
      modifies this
      ensures State() == Apply(old(State()), Action.Skip)
    {
      var currentIndex := FirstSlot(sessionType);
      var nextIndex := Js.Rem(currentIndex + 1, |SessionOrder|);
      var next := SessionOrder[nextIndex];
      assert next == NextKind(sessionType);
      isActive, sessionType, remainingSecs := false, next, Duration(next);
    }

    method ChangeSessionType(k: SessionKind)
      modifies this
      ensures State() == Apply(old(State()), Action.ChangeSessionType(k))
    {
      isActive, sessionType, remainingSecs := false, k, Duration(k);
    }

    method SetSessionType(k: SessionKind)
      modifies this
      ensures State() == Apply(old(State()), Action.SetSessionType(k))
    {
      sessionType := k;
    }

    /** `setRemainingSecs(secs)` with a number. */
    method SetRemainingSecs(secs: int)
      modifies this
      ensures State() == Apply(old(State()), Action.SetRemainingSecs(secs))
    {
      remainingSecs := secs;
    }

    /** `setRemainingSecs(f)` with an updater, applied to the current value. */
    method UpdateRemainingSecs(f: int -> int)
      modifies this
      ensures State() == Apply(old(State()), Action.SetRemainingSecs(f(old(remainingSecs))))
    {
      remainingSecs := f(remainingSecs);
    }

    method IncrementPomodoroCount()
      modifies this
      ensures State() == Apply(old(State()), Action.IncrementPomodoroCount)
    {
      pomodoroCount := pomodoroCount + 1;
    }
  }
}
