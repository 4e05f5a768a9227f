/**
  The value-level rules of the alarm book: what an alarm holds, when the
  once-a-second check selects one, what snoozing sets its time to, and how an
  alarm is shown in the list.
 */
module AlarmRules {
  import opened Wrappers
  import opened Clock
  import opened TimeFormat

  /** Minutes a snoozed alarm is put off by. */
  const SnoozeDuration: nat := 5

  /** The two fields of an `Alarm` object at one moment. */
  datatype AlarmState = AlarmState(time: TimeOfDay, active: bool)

  /** An alarm matches the current time of day: active, same hour, same minute. */
  predicate Due(a: AlarmState, now: TimeOfDay) {
    a.active && a.time.hour == now.hour && a.time.minute == now.minute
  }

  /**
    The alarm the check selects: the first in list order that is due, if any.
    The scan stops there, so at most one alarm is selected per call.
   */
  function FirstDue(s: seq<AlarmState>, now: TimeOfDay): (r: Option<nat>)
    ensures r.Some? ==> r.value < |s| && Due(s[r.value], now)
    ensures r.Some? ==> forall j :: 0 <= j < r.value ==> !Due(s[j], now)
    ensures r.None? <==> forall j :: 0 <= j < |s| ==> !Due(s[j], now)
  {
    if s == [] then None
    else if Due(s[0], now) then Some(0)
    else match FirstDue(s[1..], now)
      case None => None
      case Some(k) => Some(k + 1)
  }

  /** The first due position, characterised without reference to the scan. */
  lemma FirstDueIsFirst(s: seq<AlarmState>, now: TimeOfDay, i: nat)
    requires i < |s| && Due(s[i], now)
    requires forall j :: 0 <= j < i ==> !Due(s[j], now)
    ensures FirstDue(s, now) == Some(i)
  {
    var r := FirstDue(s, now);
    assert r.Some?;
    assert !(r.value < i);
    assert !(i < r.value);
  }

  /** An inactive alarm is never selected. */
  lemma InactiveNeverSelected(s: seq<AlarmState>, now: TimeOfDay, k: nat)
    requires k < |s| && !s[k].active
    ensures FirstDue(s, now) != Some(k)
  {
  }

  /**
    Matching looks only at hour and minute and keeps no memory of earlier
    calls, so within one minute every call selects the same alarm: a due alarm
    is selected again on each one-second tick for the whole minute.
   */
  lemma {:induction false} FirstDueIgnoresSeconds(s: seq<AlarmState>, now: TimeOfDay, later: TimeOfDay)
    requires now.hour == later.hour && now.minute == later.minute
    ensures FirstDue(s, now) == FirstDue(s, later)
  {
    if s != [] && !Due(s[0], now) {
      FirstDueIgnoresSeconds(s[1..], now, later);
    }
  }

  /** A new alarm appended at the end is selected only when no earlier alarm is due. */
  lemma {:induction false} FirstDueAppend(s: seq<AlarmState>, a: AlarmState, now: TimeOfDay)
    ensures FirstDue(s + [a], now) ==
            if FirstDue(s, now).Some? then FirstDue(s, now)
            else if Due(a, now) then Some(|s|)
            else None
  {
    if s != [] && !Due(s[0], now) {
      FirstDueAppend(s[1..], a, now);
      assert (s + [a])[1..] == s[1..] + [a];
    }
  }

  /** With a single alarm in the list, the check selects it exactly when it is due. */
  lemma FirstDueSingle(a: AlarmState, now: TimeOfDay)
    ensures FirstDue([a], now) == if Due(a, now) then Some(0) else None
  {
  }

  /**
    Dismissing the selected alarm hands the minute to the first due alarm after
    it in list order, if any: two alarms set for the same minute are selected
    one after the other, never together.
   */
  lemma DismissSelected(s: seq<AlarmState>, now: TimeOfDay, k: nat)
    requires FirstDue(s, now) == Some(k)
    ensures FirstDue(s[k := s[k].(active := false)], now) ==
            match FirstDue(s[k + 1..], now)
            case None => None
            case Some(i) => Some(k + 1 + i)
  {
    var t := s[k := s[k].(active := false)];
    assert forall j :: 0 <= j <= k ==> !Due(t[j], now);
    forall j | k < j < |t| ensures t[j] == s[k + 1..][j - k - 1] {
    }
    FirstDueAfter(t, now, k, s[k + 1..]);
  }

  /** When nothing up to position `k` is due, the check selects from what follows `k`. */
  lemma FirstDueAfter(t: seq<AlarmState>, now: TimeOfDay, k: nat, rest: seq<AlarmState>)
    requires |t| == k + 1 + |rest|
    requires forall j :: 0 <= j <= k ==> !Due(t[j], now)
    requires forall j :: k < j < |t| ==> t[j] == rest[j - k - 1]
    ensures FirstDue(t, now) ==
            match FirstDue(rest, now)
            case None => None
            case Some(i) => Some(k + 1 + i)
  {
    match FirstDue(rest, now)
    case None =>
      assert forall j :: k < j < |t| ==> !Due(t[j], now);
    case Some(i) =>
      assert forall j :: k < j < k + 1 + i ==> !Due(t[j], now);
      assert t[k + 1 + i] == rest[i];
      FirstDueIsFirst(t, now, k + 1 + i);
  }

  /**
    The time a snooze pressed at `now` sets: the time of day of
    `now + SnoozeDuration minutes`, wrapping past midnight, microseconds kept.
   */
  function SnoozeTime(now: DateTime): (t: TimeOfDay)
    ensures SecondsOfDay(t) == (SecondsOfDay(now.time) + 60 * SnoozeDuration) % SecondsPerDay
    ensures t.microsecond == now.time.microsecond
  {
    AddMinutesTimeOfDay(now, SnoozeDuration);
    AddMinutes(now, SnoozeDuration).time
  }

  /**
    In minutes of the day, a snoozed time is the current minute plus the snooze
    duration, modulo a day; so a snoozed alarm is no longer due in the minute
    it was snoozed in, and the check moves on.
   */
  lemma SnoozeMinuteOfDay(now: DateTime, active: bool)
    ensures var t := SnoozeTime(now);
            t.hour * 60 + t.minute == (now.time.hour * 60 + now.time.minute + SnoozeDuration) % 1440
    ensures !Due(AlarmState(SnoozeTime(now), active), now.time)
  {
    var t := SnoozeTime(now);
    var n := SecondsOfDay(now.time);
    var m := SecondsOfDay(t);
    assert m / 60 == t.hour * 60 + t.minute;
    assert n / 60 == now.time.hour * 60 + now.time.minute;
    if n + 300 < SecondsPerDay {
      assert m == n + 300;
      assert m / 60 == n / 60 + 5;
    } else {
      assert m == n + 300 - SecondsPerDay;
      assert m / 60 == n / 60 + 5 - 1440;
    }
  }

  /** Snoozing depends only on the time of day of `now`, not on its date. */
  lemma SnoozeIgnoresDate(d: int, e: int, t: TimeOfDay)
    ensures SnoozeTime(DateTime(d, t)) == SnoozeTime(DateTime(e, t))
  {
    SecondsOfDayInjective(SnoozeTime(DateTime(d, t)), SnoozeTime(DateTime(e, t)));
  }

  /** A worked snooze within the hour: 07:00:10 snoozes to 07:05:10. */
  lemma SnoozeMorningExample()
    ensures SnoozeTime(DateTime(0, Time(7, 0, 10, 0))) == Time(7, 5, 10, 0)
  {
    var t := SnoozeTime(DateTime(0, Time(7, 0, 10, 0)));
    assert SecondsOfDay(t) == 25510;
    SecondsOfDayInjective(t, Time(7, 5, 10, 0));
  }

  /** A worked snooze past midnight: 23:57:30.000250 snoozes to 00:02:30.000250 of the next day. */
  lemma SnoozeMidnightExample()
    ensures SnoozeTime(DateTime(0, Time(23, 57, 30, 250))) == Time(0, 2, 30, 250)
  {
    var t := SnoozeTime(DateTime(0, Time(23, 57, 30, 250)));
    assert SecondsOfDay(t) == 150;
    SecondsOfDayInjective(t, Time(0, 2, 30, 250));
  }

  const ActiveLabel: string := "Активен"
  const InactiveLabel: string := "Отключен"

  /**
    An alarm's line in the list (`str(alarm)`): the `HH:MM` of its time, then
    ` (Активен)` exactly when it is enabled and ` (Отключен)` exactly when it is not.
   */
  function Describe(a: AlarmState): (r: string)
    ensures |r| > 5 && r[..5] == FormatHHMM(a.time)
    ensures a.active <==> r[5..] == " (" + ActiveLabel + ")"
    ensures !a.active <==> r[5..] == " (" + InactiveLabel + ")"
  {
    var status := if a.active then ActiveLabel else InactiveLabel;
    var line := FormatHHMM(a.time) + " (" + status + ")";
    assert line[5..] == " (" + status + ")";
    assert |ActiveLabel| == 7 && |InactiveLabel| == 8;
    line
  }

  /**
    The list line is faithful: its first five characters read back as the
    alarm's hour and minute, and the line tells an active alarm from a disabled one.
   */
  lemma DescribeShowsAlarm(a: AlarmState)
    ensures ParseHHMM(Describe(a)[..5]) == Some(TruncateToMinute(a.time))
    ensures Describe(a) != Describe(a.(active := !a.active))
  {
    ParseFormat(a.time);
    assert |ActiveLabel| == 7 && |InactiveLabel| == 8;
    assert |Describe(a)| != |Describe(a.(active := !a.active))|;
  }
}
