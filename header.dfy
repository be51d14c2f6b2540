/** The page header (`src/components/layout/Header.tsx`): today's focus time, in minutes or
    hours and minutes, and the sign-in / sign-out button's tooltip. */
module Header {
  import opened Wrappers
  import opened AuthStore
  import Text
  import Js

  /** `formatFocusTime`: `<minutes>m` under an hour; otherwise whole hours, and the leftover
      minutes only when there are some. */
  function FormatFocusTime(minutes: int): (s: string)
    ensures |s| >= 2
    ensures s[|s| - 1] == 'h' <==> minutes >= 60 && minutes % 60 == 0
    ensures s[|s| - 1] == 'm' <==> !(minutes >= 60 && minutes % 60 == 0)
  {
    if minutes < 60 then Text.IntToString(minutes) + "m"
    else
      var h := Js.FloorDiv(minutes, 60);
      var m := Js.Rem(minutes, 60);
      if m > 0 then Text.NatToString(h) + "h " + Text.NatToString(m) + "m" else Text.NatToString(h) + "h"
  }

  /** Reads `<n><unit>` back as `n`, when the text is digits followed by the unit. */
  function ReadAmount(s: string, unit: char): (r: Option<nat>)
    ensures r.Some? ==> |s| >= 2 && s[|s| - 1] == unit
  {
    if |s| >= 2 && s[|s| - 1] == unit && forall i :: 0 <= i < |s| - 1 ==> Text.IsDigit(s[i])
    then Some(Text.DecimalValue(s[..|s| - 1]))
    else None
  }

  /** The reference reading of a focus time: `<m>m`, `<h>h` or `<h>h <m>m`, as a number of minutes. */
  function ReadFocusTime(s: string): Option<nat> {
    var parts := Text.Split(s, ' ');
    if |parts| == 1 then
      if ReadAmount(s, 'm').Some? then ReadAmount(s, 'm')
      else if ReadAmount(s, 'h').Some? then Some(60 * ReadAmount(s, 'h').value)
      else None
    else if |parts| == 2 && ReadAmount(parts[0], 'h').Some? && ReadAmount(parts[1], 'm').Some? then
      Some(60 * ReadAmount(parts[0], 'h').value + ReadAmount(parts[1], 'm').value)
    else None
  }

  /** A numeral followed by a unit reads back as the number. */
  lemma ReadNumeral(n: nat, unit: char)
    requires !Text.IsDigit(unit) && unit != ' '
    ensures ReadAmount(Text.NatToString(n) + [unit], unit) == Some(n)
    ensures ' ' !in Text.NatToString(n) + [unit]
    ensures forall other :: other != unit ==> ReadAmount(Text.NatToString(n) + [unit], other).None?
  {
    var s := Text.NatToString(n) + [unit];
    assert s[..|s| - 1] == Text.NatToString(n);
    Text.DecimalRoundTrip(n);
    forall i | 0 <= i < |s| ensures s[i] != ' ' {
      if i < |s| - 1 {
        assert s[i] == Text.NatToString(n)[i] && Text.IsDigit(s[i]);
      }
    }
  }

  /** Every non-negative number of minutes reads back from its formatted text. */
  lemma FocusTimeReadsBack(minutes: nat)
    ensures ReadFocusTime(FormatFocusTime(minutes)) == Some(minutes)
  {
    if minutes < 60 {
      MinutesReadBack(minutes);
    } else if minutes % 60 == 0 {
      HoursReadBack(minutes);
    } else {
      HoursMinutesReadBack(minutes);
    }
  }

  /** Under an hour: `<m>m`. */
  lemma MinutesReadBack(minutes: nat)
    requires minutes < 60
    ensures ReadFocusTime(FormatFocusTime(minutes)) == Some(minutes)
  {
    var s := FormatFocusTime(minutes);
    assert s == Text.NatToString(minutes) + ['m'];
    ReadNumeral(minutes, 'm');
    Text.SplitNone(s, ' ');
  }

  /** Whole hours: `<h>h`. */
  lemma HoursReadBack(minutes: nat)
    requires minutes >= 60 && minutes % 60 == 0
    ensures ReadFocusTime(FormatFocusTime(minutes)) == Some(minutes)
  {
    var s := FormatFocusTime(minutes);
    var h := minutes / 60;
    assert s == Text.NatToString(h) + ['h'];
    ReadNumeral(h, 'h');
    Text.SplitNone(s, ' ');
  }

  /** Hours and minutes: `<h>h <m>m`. */
  lemma HoursMinutesReadBack(minutes: nat)
    requires minutes >= 60 && minutes % 60 != 0
    ensures ReadFocusTime(FormatFocusTime(minutes)) == Some(minutes)
  {
    var s := FormatFocusTime(minutes);
    var h, m := minutes / 60, minutes % 60;
    var a := Text.NatToString(h) + "h";
    var b := Text.NatToString(m) + "m";
    assert s == a + [' '] + b;
    ReadNumeral(h, 'h');
    ReadNumeral(m, 'm');
    Text.SplitPrefix(a, b, ' ');
    Text.SplitNone(b, ' ');
  }

  /** The focus-time slot: the formatted time when positive, a dash otherwise (and when the
      prop is left out, as it defaults to 0). */
  function FocusSlot(todayFocusMinutes: Option<int>): (text: string)
    ensures var minutes := if todayFocusMinutes.Some? then todayFocusMinutes.value else 0;
      (text == "—" <==> minutes <= 0) &&
      (minutes > 0 ==> ReadFocusTime(text) == Some(minutes))
  {
    var minutes := if todayFocusMinutes.Some? then todayFocusMinutes.value else 0;
    if minutes > 0 then
      FocusTimeReadsBack(minutes);
      FormatFocusTime(minutes)
    else "—"
  }

  /** The account button's tooltip: a sign-in prompt for a guest, the address for a user. */
  function ButtonTitle(user: Option<AuthUser>): (title: string)
    ensures title == "Login with Google" <==> user.None?
    ensures user.Some? ==>
      |title| >= 9 && title[..8] == "Logout (" && title[8..|title| - 1] == user.value.email && title[|title| - 1] == ')'
  {
    if user.None? then "Login with Google"
    else
      var t := "Logout (" + user.value.email + ")";
      assert t[3] == 'o' && "Login with Google"[3] == 'i';
      t
  }
}
