/** The interval effect of `useTimer` (`src/hooks/useTimer.ts`), modelled as an explicit step on
    the timer store. The effect runs again whenever the countdown, the flag or the kind changed:
    while time is left each run arms a one-second interval whose tick takes one second off, and
    the run that finds a running timer at zero completes the session at once. So `Run` counts
    effect runs, and `Seconds` counts the seconds of wall-clock time they take. */
module UseTimer {
  import opened Wrappers
  import opened Timer

  /** The arguments `onSessionComplete` is called with. */
  datatype Completion = Completion(kind: SessionKind, durationSecs: int)

  /** The store's state after one step, and the completion reported during it, if any. */
  datatype Step = Step(state: TimerState, completed: Option<Completion>)

  /** One step: a running timer with time left counts down by one second; a running timer
      at zero completes the session (reports it, counts it if it was work, moves to the next
      kind at full length and stops); a stopped timer does nothing. A running timer below
      zero, which only `setRemainingSecs` can produce, matches neither branch and stays put. */
  function TickStep(s: TimerState): (r: Step)
    ensures !s.isActive ==> r == Step(s, None)
    ensures s.isActive && s.remainingSecs > 0 ==>
      r == Step(s.(remainingSecs := s.remainingSecs - 1), None)
    ensures r.completed.Some? <==> s.isActive && s.remainingSecs == 0
    ensures r.completed.Some? ==>
      r.completed.value == Completion(s.sessionType, Duration(s.sessionType)) &&
      !r.state.isActive &&
      r.state.sessionType == NextKind(s.sessionType) &&
      r.state.remainingSecs == Duration(r.state.sessionType)
    ensures r.state.pomodoroCount == s.pomodoroCount + 1 <==> r.completed.Some? && s.sessionType == Work
    ensures r.state.pomodoroCount == s.pomodoroCount <==> !(r.completed.Some? && s.sessionType == Work)
  {
    if s.isActive && s.remainingSecs > 0 then
      Step(Apply(s, SetRemainingSecs(s.remainingSecs - 1)), None)
    else if s.isActive && s.remainingSecs == 0 then
      var counted := if s.sessionType == Work then Apply(s, IncrementPomodoroCount) else s;
      var changed := Apply(counted, ChangeSessionType(NextKind(s.sessionType)));
      Step(Apply(changed, Pause), Some(Completion(s.sessionType, TotalSecs(s.sessionType))))
    else
      Step(s, None)
  }

  /** One run of the effect against the store, with its calls in the source's order. Whether
      `onSessionComplete` was supplied only decides whether anyone hears of the completion,
      so the completion is returned instead. */
  method Tick(t: TimerStore) returns (completed: Option<Completion>)
    modifies t
    ensures Step(t.State(), completed) == TickStep(old(t.State()))
  {
    completed := None;
    if t.isActive && t.remainingSecs > 0 {
      t.UpdateRemainingSecs(prev => prev - 1);
    } else if t.isActive && t.remainingSecs == 0 {
      var kind := t.sessionType;
      var durationSecs := TotalSecs(kind);
      completed := Some(Completion(kind, durationSecs));
      if kind == Work {
        t.IncrementPomodoroCount();
      }
      var next := NextKind(kind);
      t.ChangeSessionType(next);
      t.Pause();
    }
  }

  /** `totalSecs`, the length shown beside the countdown. */
  function TotalOf(s: TimerState): (secs: nat)
    ensures secs == Duration(s.sessionType)
  {
    TotalSecs(s.sessionType)
  }

  /** A tick keeps the countdown in range, so ticks never take it below zero. */
  lemma TickKeepsInRange(s: TimerState)
    requires InRange(s)
    ensures InRange(TickStep(s).state)
    ensures TickStep(s).state.remainingSecs >= 0
  {
  }

  /** After a completion the displayed total equals the countdown: the next session starts full. */
  lemma CompletionRestartsFull(s: TimerState)
    requires s.isActive && s.remainingSecs == 0
    ensures TotalOf(TickStep(s).state) == TickStep(s).state.remainingSecs
    ensures TickStep(s).state.sessionType != LongBreak
  {
  }

  /** `n` consecutive runs of the effect: the final state and every completion reported on the
      way. A stopped timer never changes, and once a completion is reported the timer is stopped,
      so at most one is reported. */
  function Run(s: TimerState, n: nat): (r: (TimerState, seq<Completion>))
    ensures |r.1| <= n
    ensures !s.isActive ==> r == (s, [])
    ensures |r.1| <= 1
    ensures r.1 != [] ==> !r.0.isActive
    decreases n
  {
    if n == 0 then (s, [])
    else
      var step := TickStep(s);
      var rest := Run(step.state, n - 1);
      (rest.0, (if step.completed.Some? then [step.completed.value] else []) + rest.1)
  }

  /** While time is left the countdown loses one second per run and reports nothing. */
  lemma {:induction false} CountsDown(s: TimerState, n: nat)
    requires s.isActive && n <= s.remainingSecs
    ensures Run(s, n) == (s.(remainingSecs := s.remainingSecs - n), [])
    decreases n
  {
    if n > 0 {
      var next := s.(remainingSecs := s.remainingSecs - 1);
      assert TickStep(s).state == next;
      CountsDown(next, n - 1);
    }
  }

  /** A session started with `remainingSecs` left reports its completion exactly once, on run
      `remainingSecs + 1` of the effect (the run after the last decrement), with its kind and full
      duration; then the timer is stopped at the start of the next kind and nothing more happens
      until it is started again. */
  lemma {:induction false} CompletesExactlyOnce(s: TimerState, extra: nat)
    requires s.isActive && s.remainingSecs >= 0
    ensures var r := Run(s, s.remainingSecs + 1 + extra);
      r.1 == [Completion(s.sessionType, Duration(s.sessionType))] &&
      !r.0.isActive &&
      r.0.sessionType == NextKind(s.sessionType) &&
      r.0.remainingSecs == Duration(NextKind(s.sessionType)) &&
      r.0.pomodoroCount == (if s.sessionType == Work then s.pomodoroCount + 1 else s.pomodoroCount)
  {
    CountsDownThen(s, 1 + extra);
    CompletesThenStops(s.(remainingSecs := 0), extra);
  }

  /** Running past the countdown is running from zero for the runs that are left. */
  lemma CountsDownThen(s: TimerState, more: nat)
    requires s.isActive && s.remainingSecs >= 0
    ensures Run(s, s.remainingSecs + more) == Run(s.(remainingSecs := 0), more)
  {
    var k := s.remainingSecs;
    var z := s.(remainingSecs := 0);
    RunSplit(s, k, more);
    CountsDown(s, k);
    assert Run(s, k) == (z, []);
    var tail := Run(z, more);
    assert [] + tail.1 == tail.1;
  }

  /** From zero a running timer completes on the very next run of the effect and then stays
      stopped. */
  lemma CompletesThenStops(z: TimerState, extra: nat)
    requires z.isActive && z.remainingSecs == 0
    ensures var next := NextKind(z.sessionType);
      Run(z, 1 + extra) ==
        (TimerState(false, next, Duration(next), if z.sessionType == Work then z.pomodoroCount + 1 else z.pomodoroCount),
         [Completion(z.sessionType, Duration(z.sessionType))])
  {
    var after := TickStep(z);
    assert after.completed.Some? && !after.state.isActive;
    var rest := Run(after.state, extra);
    assert rest == (after.state, []);
    assert Run(z, 1 + extra) == (rest.0, [after.completed.value] + rest.1);
    assert [after.completed.value] + [] == [after.completed.value];
  }

  /** One second of wall-clock time. A running timer with time left gets one tick of the
      interval, and the effect runs again on the new countdown; when that tick took the last
      second, the run completes the session in the same second. Otherwise no interval is armed
      and nothing happens. */
  function Second(s: TimerState): (r: Step)
    ensures !(s.isActive && s.remainingSecs > 0) ==> r == Step(s, None)
    ensures r.completed.Some? <==> s.isActive && s.remainingSecs == 1
    ensures s.isActive && s.remainingSecs > 1 ==> r == Step(s.(remainingSecs := s.remainingSecs - 1), None)
    ensures r.completed.Some? ==>
      r.completed.value == Completion(s.sessionType, Duration(s.sessionType)) &&
      !r.state.isActive && r.state.sessionType == NextKind(s.sessionType) &&
      r.state.remainingSecs == Duration(r.state.sessionType)
  {
    if s.isActive && s.remainingSecs > 0 then
      var ticked := TickStep(s);
      if ticked.state.remainingSecs == 0 then TickStep(ticked.state) else ticked
    else
      Step(s, None)
  }

  /** `n` seconds: the final state and every completion reported on the way. */
  function Seconds(s: TimerState, n: nat): (r: (TimerState, seq<Completion>))
    ensures !s.isActive ==> r == (s, [])
    decreases n
  {
    if n == 0 then (s, [])
    else
      var step := Second(s);
      var rest := Seconds(step.state, n - 1);
      assert !s.isActive ==> step == Step(s, None) && rest == (s, []) && [] + rest.1 == [];
      (rest.0, (if step.completed.Some? then [step.completed.value] else []) + rest.1)
  }

  /** Seconds measured in effect runs: up to the last second of the countdown each second is one
      run, and the last second holds two, the tick's and the completion's. */
  lemma {:induction false} SecondsAreRuns(s: TimerState, n: nat)
    requires s.isActive && s.remainingSecs >= 1
    ensures Seconds(s, n) == Run(s, if n < s.remainingSecs then n else n + 1)
    decreases n
  {
    if n > 0 {
      var d := s.(remainingSecs := s.remainingSecs - 1);
      assert TickStep(s) == Step(d, None);
      if s.remainingSecs > 1 {
        SecondsAreRuns(d, n - 1);
        var m := if n - 1 < d.remainingSecs then n - 1 else n;
        assert (if n < s.remainingSecs then n else n + 1) == 1 + m;
        assert Seconds(s, n) == (Seconds(d, n - 1).0, [] + Seconds(d, n - 1).1);
        assert Run(s, 1 + m) == (Run(d, m).0, [] + Run(d, m).1);
      } else {
        var after := TickStep(d);
        assert after.completed.Some? && !after.state.isActive;
        assert Second(s) == after;
        var c := [after.completed.value];
        assert Seconds(s, n) == (after.state, c) by {
          assert Seconds(after.state, n - 1) == (after.state, []);
          assert c + [] == c;
        }
        assert Run(d, n) == (after.state, c) by {
          assert Run(after.state, n - 1) == (after.state, []);
          assert c + [] == c;
        }
        assert Run(s, n + 1) == (after.state, c) by {
          assert Run(s, n + 1) == (Run(d, n).0, [] + Run(d, n).1);
          assert [] + c == c;
        }
      }
    }
  }

  /** A running session with `remainingSecs` left completes after exactly `remainingSecs`
      seconds: it reports its kind and full duration once, counts a work session, and is then
      stopped at the start of the next kind, however much time passes after. */
  lemma CompletesOnTime(s: TimerState, extra: nat)
    requires s.isActive && s.remainingSecs >= 1
    ensures var next := NextKind(s.sessionType);
      Seconds(s, s.remainingSecs + extra) ==
        (TimerState(false, next, Duration(next), if s.sessionType == Work then s.pomodoroCount + 1 else s.pomodoroCount),
         [Completion(s.sessionType, Duration(s.sessionType))])
  {
    SecondsAreRuns(s, s.remainingSecs + extra);
    CountsDownThen(s, 1 + extra);
    CompletesThenStops(s.(remainingSecs := 0), extra);
  }

  /** Before its last second a running session only counts down, one second per second. */
  lemma NothingBeforeTime(s: TimerState, n: nat)
    requires s.isActive && n < s.remainingSecs
    ensures Seconds(s, n) == (s.(remainingSecs := s.remainingSecs - n), [])
  {
    SecondsAreRuns(s, n);
    CountsDown(s, n);
  }

  /** A fresh timer, started, reports one finished work session of 25 minutes after 25 minutes,
      with one Pomodoro counted and the short break ready. */
  lemma FirstPomodoro()
    ensures var started := Apply(InitialState(None), Start);
      Seconds(started, 25 * 60) == (TimerState(false, ShortBreak, 5 * 60, 1), [Completion(Work, 25 * 60)])
  {
    var started := Apply(InitialState(None), Start);
    CompletesOnTime(started, 0);
  }

  /** Running `a + b` steps is running `a` steps and then `b` more. */
  lemma {:induction false} RunSplit(s: TimerState, a: nat, b: nat)
    ensures Run(s, a + b) == (Run(Run(s, a).0, b).0, Run(s, a).1 + Run(Run(s, a).0, b).1)
    decreases a
  {
    if a == 0 {
      assert Run(s, a).1 + Run(s, b).1 == Run(s, b).1;
    } else {
      var step := TickStep(s);
      RunSplit(step.state, a - 1, b);
      assert a + b - 1 == (a - 1) + b;
      var head := if step.completed.Some? then [step.completed.value] else [];
      var mid := Run(step.state, a - 1);
      assert Run(s, a + b).1 == head + (mid.1 + Run(mid.0, b).1);
      assert head + (mid.1 + Run(mid.0, b).1) == (head + mid.1) + Run(mid.0, b).1;
    }
  }
}
