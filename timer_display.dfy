/** The timer face (`src/components/timer/TimerDisplay.tsx`): the remaining time as minutes
    and seconds, each zero-padded to two digits, the caption under it, and the three tabs that
    switch the session kind. */
module TimerDisplay {
  import opened Timer
  import Text
  import Js

  /** `Math.floor(remainingSecs / 60)` and `remainingSecs % 60`. The remainder is JavaScript's,
      so it is negative for a negative countdown. */
  function MinutesSeconds(remainingSecs: int): (ms: (int, int))
    ensures remainingSecs >= 0 ==> ms.0 >= 0 && 0 <= ms.1 < 60 && ms.0 * 60 + ms.1 == remainingSecs
    ensures remainingSecs >= 0 ==> ms == (remainingSecs / 60, remainingSecs % 60)
  {
    (Js.FloorDiv(remainingSecs, 60), Js.Rem(remainingSecs, 60))
  }

  /** `String(n).padStart(2, '0')`. */
  function TwoDigits(n: int): (s: string)
    ensures |s| >= 2
    ensures 0 <= n < 100 ==> |s| == 2 && s[0] != ':' && s[1] != ':'
    ensures n >= 100 ==> s == Text.NatToString(n)
  {
    NumeralLength(if n < 0 then 0 else n);
    Text.PadStart(Text.IntToString(n), 2, '0')
  }

  /** The big clock text, `MM:SS`: under 100 minutes it is exactly five characters. */
  function Clock(remainingSecs: int): (c: string)
    ensures 0 <= remainingSecs < 6000 ==> |c| == 5
  {
    var ms := MinutesSeconds(remainingSecs);
    FieldRanges(remainingSecs);
    TwoDigits(ms.0) + ":" + TwoDigits(ms.1)
  }

  /** The seconds of a countdown that is not negative are below 60, and under 6000 seconds the
      minutes are below 100. */
  lemma FieldRanges(remainingSecs: int)
    ensures remainingSecs >= 0 ==> 0 <= MinutesSeconds(remainingSecs).1 < 60
    ensures 0 <= remainingSecs < 6000 ==> 0 <= MinutesSeconds(remainingSecs).0 < 100
  {
  }

  /** Two fields joined by a colon: the colon sits right after the first field and the second
      follows it. */
  lemma Fields(a: string, b: string)
    ensures var c := a + ":" + b;
      |c| == |a| + 1 + |b| && c[|a|] == ':' && c[..|a|] == a && c[|a| + 1..] == b
  {
    var c := a + ":" + b;
    assert c[..|a|] == a && c[|a| + 1..] == b;
  }

  /** The caption under the clock. */
  function Caption(k: SessionKind): (text: string)
    ensures text == "Focus" <==> k == Work
    ensures text == "Rest" <==> k == ShortBreak
    ensures text == "Break" <==> k == LongBreak
  {
    assert "Break"[0] == 'B' && "Focus"[0] == 'F';
    match k
    case Work => "Focus"
    case ShortBreak => "Rest"
    case LongBreak => "Break"
  }

  /** The tabs, in the order they are laid out; pressing one asks for its own kind. */
  const Tabs: seq<SessionKind> := [Work, ShortBreak, LongBreak]

  /** The label on each tab; unlike the caption, the breaks are told apart. */
  function TabText(k: SessionKind): (text: string)
    ensures text == "Focus" <==> k == Work
    ensures text == "Short Break" <==> k == ShortBreak
    ensures text == "Long Break" <==> k == LongBreak
  {
    assert "Focus"[0] == 'F' && "Short Break"[0] == 'S' && "Long Break"[0] == 'L';
    match k
    case Work => "Focus"
    case ShortBreak => "Short Break"
    case LongBreak => "Long Break"
  }

  /** A tab is drawn highlighted when its kind is the current one. */
  predicate Highlighted(tab: nat, current: SessionKind): (h: bool)
    requires tab < |Tabs|
    ensures h ==> forall u :: 0 <= u < |Tabs| && u != tab ==> Tabs[u] != current
  {
    Tabs[tab] == current
  }

  /** Every kind has exactly one tab, and exactly that tab is highlighted. */
  lemma OneTabPerKind(current: SessionKind)
    ensures exists t :: 0 <= t < |Tabs| && Tabs[t] == current
    ensures forall t, u :: 0 <= t < |Tabs| && 0 <= u < |Tabs| && Highlighted(t, current) && Highlighted(u, current) ==> t == u
  {
    var t := if current == Work then 0 else if current == ShortBreak then 1 else 2;
    assert Tabs[t] == current;
  }

  /** A numeral has at most two digits below 100 and at least three from 100 on. */
  lemma NumeralLength(n: nat)
    ensures n < 100 ==> |Text.NatToString(n)| <= 2
    ensures n >= 100 ==> |Text.NatToString(n)| >= 3
  {
    if n >= 10 {
      assert Text.NatToString(n) == Text.NatToString(n / 10) + [Text.Digit(n % 10)];
      if n >= 100 {
        assert Text.NatToString(n / 10) == Text.NatToString(n / 100) + [Text.Digit((n / 10) % 10)];
      }
    }
  }

  /** Padding a numeral with zeros does not change the number it reads as. */
  lemma PaddedValue(n: nat)
    ensures Text.AllDigits(TwoDigits(n)) && Text.DecimalValue(TwoDigits(n)) == n
  {
    var digits := Text.NatToString(n);
    var k := ZerosBefore(n);
    Text.DecimalLeadingZeros(k, digits);
    Text.DecimalRoundTrip(n);
  }

  /** The two-digit field is the numeral with zeros in front, none once it has two digits. */
  lemma ZerosBefore(n: nat) returns (k: nat)
    ensures TwoDigits(n) == Text.Repeat('0', k) + Text.NatToString(n)
  {
    var digits := Text.NatToString(n);
    assert TwoDigits(n) == Text.PadStart(digits, 2, '0');
    k := if |digits| >= 2 then 0 else 2 - |digits|;
    if k == 0 {
      assert Text.Repeat('0', k) + digits == digits;
    }
  }

  /** Under 100 minutes the clock is exactly `MM:SS`, and the two fields read back as the minutes
      and seconds of the countdown. */
  lemma {:induction false} ClockReadsBack(remainingSecs: nat)
    requires remainingSecs < 6000
    ensures var c := Clock(remainingSecs);
      |c| == 5 && c[2] == ':' && Text.AllDigits(c[..2]) && Text.AllDigits(c[3..]) &&
      Text.DecimalValue(c[..2]) == remainingSecs / 60 && Text.DecimalValue(c[3..]) == remainingSecs % 60
  {
    var m, sec := remainingSecs / 60, remainingSecs % 60;
    var a, b := TwoDigits(m), TwoDigits(sec);
    PaddedValue(m);
    PaddedValue(sec);
    Fields(a, b);
  }

  /** From 100 minutes on padding does not truncate: the minutes take three digits or more and
      still read back whole. */
  lemma {:induction false} LongClock(remainingSecs: nat)
    requires remainingSecs >= 6000
    ensures var c, minutes := Clock(remainingSecs), Text.NatToString(remainingSecs / 60);
      |c| >= 6 && c[..|c| - 3] == minutes && Text.AllDigits(minutes) && Text.DecimalValue(minutes) == remainingSecs / 60
  {
    var m, sec := remainingSecs / 60, remainingSecs % 60;
    LongFields(remainingSecs);
    LongMinutes(m);
    var a, b := TwoDigits(m), TwoDigits(sec);
    Fields(a, b);
  }

  /** From 100 on the minutes field is the plain numeral, which reads back as the number. */
  lemma LongMinutes(m: nat)
    requires m >= 100
    ensures var minutes := Text.NatToString(m);
      TwoDigits(m) == minutes && |minutes| >= 3 && Text.AllDigits(minutes) && Text.DecimalValue(minutes) == m
  {
    NumeralLength(m);
    Text.DecimalRoundTrip(m);
  }

  /** From 6000 seconds on the minutes field holds at least 100 and the seconds field less than 60. */
  lemma LongFields(remainingSecs: nat)
    requires remainingSecs >= 6000
    ensures remainingSecs / 60 >= 100 && 0 <= remainingSecs % 60 < 60
    ensures Clock(remainingSecs) == TwoDigits(remainingSecs / 60) + ":" + TwoDigits(remainingSecs % 60)
  {
    assert MinutesSeconds(remainingSecs) == (remainingSecs / 60, remainingSecs % 60);
  }
}
