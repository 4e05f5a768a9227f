/**
  The alarm book as the main screen keeps it: a list of `Alarm` objects whose
  fields are reassigned in place, and the "HH:MM" text field that adding reads
  from. Every operation is one of the screen's button handlers with its widget
  work removed; the popups' handlers keep the `Alarm` object they were opened
  for, so they are given that object rather than a position in the list.
 */
module AlarmScreen {
  import opened Wrappers
  import opened Clock
  import opened TimeFormat
  import opened AlarmRules

  /** One alarm: a time of day and whether it is enabled. */
  class Alarm {
    var time: TimeOfDay
    var active: bool

    constructor (time: TimeOfDay, active: bool)
      ensures this.time == time && this.active == active
    {
      this.time := time;
      this.active := active;
    }

    function State(): AlarmState
      reads this
    {
      AlarmState(time, active)
    }
  }

  /** The fields of each alarm of a list, in list order. */
  function StatesOf(s: seq<Alarm>): (r: seq<AlarmState>)
    reads s
    ensures |r| == |s| && forall i :: 0 <= i < |s| ==> r[i] == s[i].State()
  {
    if s == [] then [] else StatesOf(s[..|s| - 1]) + [s[|s| - 1].State()]
  }

  class MainScreen {
    /** The alarms, in the order they are listed and checked. */
    var alarms: seq<Alarm>
    /** The text of the "HH:MM" input field under the list. */
    var timeInput: string

    /** Each alarm object appears in the list once. */
    ghost predicate Valid()
      reads this
    {
      forall i, j :: 0 <= i < j < |alarms| ==> alarms[i] != alarms[j]
    }

    /** The list as values. */
    function States(): seq<AlarmState>
      reads this, alarms
    {
      StatesOf(alarms)
    }

    constructor ()
      ensures Valid() && alarms == [] && timeInput == ""
    {
      alarms := [];
      timeInput := "";
    }

    /**
      The "add" button: when the input field holds a valid `HH:MM`, append a new
      enabled alarm at that time (zero seconds) and clear the field; otherwise
      change nothing (the error popup is not modelled).
     */
    method AddAlarm() returns (added: bool)
      requires Valid()
      modifies this
      ensures Valid()
      ensures added <==> ParseHHMM(old(timeInput)).Some?
      ensures added ==> |alarms| == |old(alarms)| + 1 && alarms[..|old(alarms)|] == old(alarms) &&
                        fresh(alarms[|old(alarms)|]) && timeInput == "" &&
                        States() == old(States()) + [AlarmState(ParseHHMM(old(timeInput)).value, true)]
      ensures !added ==> alarms == old(alarms) && timeInput == old(timeInput)
    {
      var parsed := ParseHHMM(timeInput);
      if parsed.Some? {
        var alarm := new Alarm(parsed.value, true);
        alarms := alarms + [alarm];
        timeInput := "";
        added := true;
      } else {
        added := false;
      }
    }

    /** The "delete" button of row `index`: remove exactly that alarm, keeping the order of the rest. */
    method DeleteAlarm(index: nat)
      requires Valid() && index < |alarms|
      modifies this
      ensures Valid()
      ensures alarms == old(alarms[..index] + alarms[index + 1..])
      ensures States() == old(States()[..index] + States()[index + 1..])
      ensures timeInput == old(timeInput)
    {
      alarms := alarms[..index] + alarms[index + 1..];
    }

    /**
      The "edit" button of row `index`: the popup holds that alarm object, its
      time pre-filled as `HH:MM` and its enabled flag in the check box.
     */
    method OpenEditPopup(index: nat) returns (alarm: Alarm, text: string, checked: bool)
      requires index < |alarms|
      ensures alarm == alarms[index]
      ensures text == FormatHHMM(alarm.time) && checked == alarm.active
    {
      alarm := alarms[index];
      text := FormatHHMM(alarm.time);
      checked := alarm.active;
    }

    /**
      The edit popup's "save": when `text` parses, the alarm takes that time and
      the check box's flag; when it does not, neither field changes. Only this
      alarm changes, wherever it is in the list, and nothing in the list if it
      was deleted while the popup was open.
     */
    method SaveEdit(alarm: Alarm, text: string, checked: bool) returns (saved: bool)
      requires Valid()
      modifies alarm
      ensures saved <==> ParseHHMM(text).Some?
      ensures saved ==> alarm.time == ParseHHMM(text).value && alarm.active == checked
      ensures !saved ==> alarm.time == old(alarm.time) && alarm.active == old(alarm.active)
      ensures forall k :: 0 <= k < |alarms| && alarms[k] == alarm ==>
                States() == old(States())[k := alarm.State()]
      ensures alarm !in alarms ==> States() == old(States())
    {
      var parsed := ParseHHMM(text);
      if parsed.Some? {
        alarm.time := parsed.value;
        alarm.active := checked;
        saved := true;
      } else {
        saved := false;
      }
    }

    /**
      One tick of the once-a-second check at time of day `now`: the position of
      the first enabled alarm whose hour and minute are those of `now`, or None.
      Nothing is changed; the caller opens the alarm popup for that alarm.
     */
    method CheckAlarms(now: TimeOfDay) returns (fired: Option<nat>)
      ensures fired == FirstDue(States(), now)
    {
      fired := None;
      var i := 0;
      while i < |alarms|
        invariant 0 <= i <= |alarms|
        invariant forall j :: 0 <= j < i ==> !Due(alarms[j].State(), now)
      {
        var alarm := alarms[i];
        if alarm.active && alarm.time.hour == now.hour && alarm.time.minute == now.minute {
          fired := Some(i);
          FirstDueIsFirst(States(), now, i);
          break;
        }
        i := i + 1;
      }
    }

    /**
      The alarm popup's "snooze" pressed at `now`: the alarm's time becomes the
      time of day five minutes later; its enabled flag stays. Only this alarm changes.
     */
    method Snooze(alarm: Alarm, now: DateTime)
      requires Valid()
      modifies alarm
      ensures alarm.time == SnoozeTime(now) && alarm.active == old(alarm.active)
      ensures forall k :: 0 <= k < |alarms| && alarms[k] == alarm ==>
                States() == old(States())[k := alarm.State()]
      ensures alarm !in alarms ==> States() == old(States())
    {
      alarm.time := SnoozeTime(now);
    }

    /** The alarm popup's "dismiss": the alarm is disabled, its time kept. Only this alarm changes. */
    method Dismiss(alarm: Alarm)
      requires Valid()
      modifies alarm
      ensures !alarm.active && alarm.time == old(alarm.time)
      ensures forall k :: 0 <= k < |alarms| && alarms[k] == alarm ==>
                States() == old(States())[k := alarm.State()]
      ensures alarm !in alarms ==> States() == old(States())
    {
      alarm.active := false;
    }
  }

  /**
    A client of the "add" button: text written by `strftime("%H:%M")` is
    accepted, and the new alarm is enabled at that minute with zero seconds.
   */
  method AddFormattedScenario(t: TimeOfDay)
  {
    var screen := new MainScreen();
    screen.timeInput := FormatHHMM(t);
    ParseFormat(t);
    var added := screen.AddAlarm();
    assert added && screen.States() == [AlarmState(TruncateToMinute(t), true)];
    assert screen.timeInput == "";
  }

  /**
    A client of the check, for a screen listing one enabled alarm: it is
    selected on every tick of its minute, whatever the seconds, and on no tick
    of another minute of that hour.
   */
  method SelectedAllMinuteScenario(screen: MainScreen, t: TimeOfDay)
    requires screen.States() == [AlarmState(t, true)]
  {
    var fired := screen.CheckAlarms(Time(t.hour, t.minute, 0, 400000));
    assert fired == Some(0);
    fired := screen.CheckAlarms(Time(t.hour, t.minute, 59, 999999));
    assert fired == Some(0);
    var next: TimeOfDay := if t.minute < 59 then Time(t.hour, t.minute + 1, 0, 0) else Time(t.hour, 0, 0, 0);
    fired := screen.CheckAlarms(next);
    assert fired == None;
  }

  /**
    A client of the snooze button, for a screen listing one enabled 07:00
    alarm: a snooze at 07:00:10 moves it to 07:05:10 and keeps it enabled.
   */
  method SnoozeScenario(screen: MainScreen, alarm: Alarm)
    requires screen.Valid() && screen.alarms == [alarm]
    requires alarm.time == Time(7, 0, 0, 0) && alarm.active
    modifies alarm
  {
    var pressed := DateTime(738000, Time(7, 0, 10, 0));
    assert SnoozeTime(pressed) == Time(7, 5, 10, 0) by {
      SnoozeIgnoresDate(738000, 0, Time(7, 0, 10, 0));
      SnoozeMorningExample();
    }
    screen.Snooze(alarm, pressed);
    assert alarm.State() == AlarmState(Time(7, 5, 10, 0), true);
    assert screen.alarms[0] == alarm;
    assert screen.States() == [AlarmState(Time(7, 5, 10, 0), true)];
  }

  /**
    A client of the check, for a screen listing the alarm snoozed to 07:05:10:
    the rest of 07:00 is quiet and 07:05 selects it again.
   */
  method AfterSnoozeScenario(screen: MainScreen)
    requires screen.States() == [AlarmState(Time(7, 5, 10, 0), true)]
  {
    var fired := screen.CheckAlarms(Time(7, 0, 30, 0));
    FirstDueSingle(AlarmState(Time(7, 5, 10, 0), true), Time(7, 0, 30, 0));
    assert fired == None;
    fired := screen.CheckAlarms(Time(7, 5, 0, 0));
    FirstDueSingle(AlarmState(Time(7, 5, 10, 0), true), Time(7, 5, 0, 0));
    assert fired == Some(0);
  }

  /**
    A client of the edit popup, for a screen listing one alarm: re-saving it
    unedited keeps its hour, minute and flag and drops its seconds, so a
    snoozed alarm at 07:05:10 comes back as 07:05.
   */
  method ResaveScenario(screen: MainScreen, alarm: Alarm)
    requires screen.Valid() && screen.alarms == [alarm]
    modifies alarm
  {
    var before := alarm.State();
    var edited, text, checked := screen.OpenEditPopup(0);
    assert ParseHHMM(text) == Some(TruncateToMinute(before.time)) by { ParseFormat(edited.time); }
    var saved := screen.SaveEdit(edited, text, checked);
    assert saved && alarm.State() == AlarmState(TruncateToMinute(before.time), before.active);
    assert screen.States() == [AlarmState(TruncateToMinute(before.time), before.active)];
  }

  /** A client of the dismiss button, for a screen listing one enabled 07:05 alarm: 07:05 is then quiet. */
  method DismissScenario(screen: MainScreen, alarm: Alarm)
    requires screen.Valid() && screen.alarms == [alarm]
    requires alarm.time == Time(7, 5, 0, 0) && alarm.active
    modifies alarm
  {
    screen.Dismiss(alarm);
    assert screen.States() == [AlarmState(Time(7, 5, 0, 0), false)];
    var fired := screen.CheckAlarms(Time(7, 5, 0, 0));
    FirstDueSingle(AlarmState(Time(7, 5, 0, 0), false), Time(7, 5, 0, 0));
    assert fired == None;
  }
}
