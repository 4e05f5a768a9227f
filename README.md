# Smart alarm clock — the alarm book

A Dafny model of the in-memory alarm book of `main.py`, the Kivy alarm-clock
application. The widget code is stripped away; what remains is:

- the `Alarm` object, with a time of day and an enabled flag, and its list line
  `HH:MM (Активен)` / `HH:MM (Отключен)`;
- the main screen's alarm list and its "HH:MM" input field, with the handlers
  for the add button, a row's delete button, a row's edit button and the edit
  popup's save button;
- the once-a-second check, which selects the first enabled alarm whose hour and
  minute are those of the current time;
- the alarm popup's snooze button (the alarm's time becomes the time of day
  five minutes after now) and dismiss button (the alarm is disabled).

Modules:

| file | module | contents |
|---|---|---|
| `wrappers.dfy` | `Wrappers` | `Option` |
| `time_of_day.dfy` | `Clock` | `datetime.time` / naive `datetime.datetime`, adding minutes (not Kivy's `Clock` scheduler) |
| `time_format.dfy` | `TimeFormat` | `str.strip()`, `strptime(…, "%H:%M")`, `strftime("%H:%M")` |
| `alarm_rules.dfy` | `AlarmRules` | alarm values, the selection rule, the snooze time, the list line |
| `main_screen.dfy` | `AlarmScreen` | the `Alarm` and `MainScreen` classes and their handlers |

`Alarm` objects are a class whose fields the handlers reassign in place. The
edit popup and the alarm popup capture the `Alarm` object, not its position, so
`SaveEdit`, `Snooze` and `Dismiss` take that object. Their contracts cover both
cases: the object is still listed, at any position, or it was deleted while the
popup was open. The screen's list is a `seq<Alarm>` that add and delete
reassign. The check is a loop with an early exit, proved against the pure
selection rule `AlarmRules.FirstDue`.

The text grammar that `strptime(text.strip(), "%H:%M")` accepts is written out
in `TimeFormat`. The whole stripped text must match it:

    clock  ::= hour ":" minute
    hour   ::= digit | digit digit      (value 0 .. 23)
    minute ::= digit | digit digit      (value 0 .. 59)

`strip()` removes Python's `str.isspace` characters, listed by code point.

The clock is a parameter. The check receives the current time of day. Snooze
receives the current naive date and time, with the date as a day number.

`main.py` has no weekday schedule, no week-parity filter, no suppression of a
re-fire within the same minute and no per-alarm sound, and neither does the
model.

## Model

| member | source | states |
|---|---|---|
| Clock.FromSecondsOfDay | main.py:144 | the time of day `n` seconds after midnight has exactly `n` seconds of day and the given microseconds |
| Clock.SecondsOfDayRoundTrip | main.py:144 | converting a time of day to seconds since midnight and back gives the same time |
| Clock.SecondsOfDayInjective | main.py:144 | a time of day is determined by its seconds since midnight and its microseconds |
| Clock.AddMinutes | main.py:143 | `now + timedelta(minutes=m)` lies exactly `60*m` seconds later on the time line, microseconds kept |
| Clock.AddMinutesTimeOfDay | main.py:143-144 | the time part of `now + m minutes` is `(seconds of day + 60*m) mod 86400`, wrapping past midnight |
| Clock.AddMinutesTimeIgnoresDate | main.py:143-144 | the time part of `now + m minutes` does not depend on the date |
| TimeFormat.TrimStart | main.py:50 | `lstrip` result is a suffix, everything removed is whitespace, and it does not start with whitespace |
| TimeFormat.TrimEnd | main.py:50 | `rstrip` result is a prefix, everything removed is whitespace, and it does not end with whitespace |
| TimeFormat.StripIsFramed | main.py:50 | `strip()` keeps one contiguous window of the text with only whitespace around it and none at its ends |
| TimeFormat.StripWindow | main.py:50 | any such framed window is what `strip()` returns |
| TimeFormat.StripUnique | main.py:50 | a text has at most one framed window, so `strip()` is determined by that property |
| TimeFormat.StripUnpadded | main.py:50 | text without whitespace at either end is unchanged by `strip()` |
| TimeFormat.StripPadded | main.py:50 | adding whitespace before and after a text does not change its `strip()` |
| TimeFormat.ParseIgnoresPadding | main.py:50 | surrounding whitespace never changes whether or what the `HH:MM` field parses to |
| TimeFormat.Strip | main.py:50 | `str.strip()`: `rstrip` of `lstrip`; `StripIsFramed`, `StripWindow` and `StripUnique` characterise it without its body |
| TimeFormat.ParseHHMM | main.py:50 | a successful parse has zero seconds and microseconds (`strptime(...).time()` of an `%H:%M` text); which texts parse is `ParseGrammar` for stripped texts with a colon and `ParseNeedsColon` for those without |
| TimeFormat.ParseClock | main.py:50 | the `%H:%M` match on stripped text: a colon after a one- or two-character hour; `ClockGrammar` states it for every colon split |
| TimeFormat.FieldValue | main.py:50 | a field is read iff it is one or two decimal digits, and then as their decimal value, below 100 |
| TimeFormat.Fields | main.py:50 | an hour and a minute field give a time iff both are one or two digits with hour below 24 and minute below 60, and the time is that hour and minute with zero seconds |
| TimeFormat.ParseGrammar | main.py:50 | for a stripped text `h:m` split at any colon: it parses iff `h` and `m` are one or two digits with values below 24 and 60, and then to that hour and minute |
| TimeFormat.ClockGrammar | main.py:50 | the match on `h + ":" + m` is the reading of `h` and `m` as fields, whichever colon is the split |
| TimeFormat.ColonSplit | main.py:50 | splitting at a colon other than the one after the hour puts a colon in a field, so neither split parses |
| TimeFormat.ParseNeedsColon | main.py:50 | a stripped text without a colon is a `ValueError` |
| TimeFormat.ParseAccepts | main.py:50 | unpadded one- or two-digit fields in range are accepted with their values, leading zeros optional |
| TimeFormat.ParseOneDigitFields | main.py:50 | a single digit on each side of the colon (`7:5`) reads as that hour and minute |
| TimeFormat.ParseRejectsLongField | main.py:50 | a field of three or more characters (`007:05`, `12:345`) is a `ValueError` |
| TimeFormat.ParseRejectsSecondColon | main.py:50 | a second colon (`1:2:3`) is a `ValueError` |
| TimeFormat.TruncateToMinute | main.py:85-107 | the time an `HH:MM` round trip leaves is the start of the original time's minute: its seconds of day minus the seconds, with no microseconds |
| TimeFormat.FormatHHMM | main.py:23 | `strftime("%H:%M")` is five characters: two digits, a colon, two digits |
| TimeFormat.ParseFormat | main.py:85-107 | parsing the pre-filled `strftime("%H:%M")` text gives the same hour and minute with seconds and microseconds dropped |
| TimeFormat.ParseCanonical | main.py:85-107 | whatever parses is written out and parsed back unchanged |
| TimeFormat.FormatParse | main.py:50 | an accepted two-digit `HH:MM` text is exactly what formatting its parsed time writes |
| AlarmRules.Due | main.py:124 | an alarm is due at `now` when it is enabled and its hour and minute are those of `now`; seconds play no part |
| AlarmRules.FirstDue | main.py:121-126 | the selected index holds a due alarm (enabled, same hour and minute), no earlier alarm is due, and nothing is selected iff no alarm is due |
| AlarmRules.FirstDueIsFirst | main.py:121-126 | the first due position is the one selected, characterised without the scan |
| AlarmRules.InactiveNeverSelected | main.py:124 | a disabled alarm is never selected |
| AlarmRules.FirstDueIgnoresSeconds | main.py:121-126 | two times in the same hour and minute select the same alarm: the check has no memory, and a due alarm is selected on every tick of its minute |
| AlarmRules.FirstDueAppend | main.py:121-126 | an alarm appended by add is selected only when no earlier alarm is due and it is due itself |
| AlarmRules.DismissSelected | main.py:148-151 | after dismissing the selected alarm, the check selects the first due alarm after it, or nothing |
| AlarmRules.SnoozeTime | main.py:140-144 | the snoozed time of day is `(seconds of day of now + 300) mod 86400`, with the microseconds of now |
| AlarmRules.SnoozeMinuteOfDay | main.py:140-144 | in minutes of the day the snoozed time is `(now + 5) mod 1440`, so the snoozed alarm is not due in the minute it was snoozed |
| AlarmRules.SnoozeIgnoresDate | main.py:142-144 | the snoozed time does not depend on today's date |
| AlarmRules.SnoozeMorningExample | main.py:140-144 | 07:00:10 snoozes to 07:05:10 |
| AlarmRules.SnoozeMidnightExample | main.py:140-144 | 23:57:30.000250 snoozes to 00:02:30.000250, past midnight |
| AlarmRules.Describe | main.py:21-23 | the list line starts with the alarm's `strftime("%H:%M")` and ends with ` (Активен)` exactly when the alarm is enabled and ` (Отключен)` exactly when it is disabled |
| AlarmRules.DescribeShowsAlarm | main.py:21-23 | the line's first five characters parse back to the alarm's hour and minute, and an enabled alarm's line differs from the disabled one's |
| AlarmScreen.Alarm.constructor | main.py:17-19 | a new alarm holds the given time and flag |
| AlarmScreen.MainScreen.constructor | main.py:27-38 | the screen starts with no alarms and an empty input field |
| AlarmScreen.MainScreen.AddAlarm | main.py:48-58 | adds iff the stripped input parses; on success the list grows by one fresh enabled alarm at the parsed time, earlier alarms are unchanged and the field is cleared; on failure list and field are unchanged |
| AlarmScreen.MainScreen.DeleteAlarm | main.py:75-76 | removes exactly the alarm at `index`, keeping the order of the rest and the input field |
| AlarmScreen.MainScreen.OpenEditPopup | main.py:79-91 | the popup holds the alarm at `index`, its time pre-filled as `HH:MM` and its flag in the check box |
| AlarmScreen.MainScreen.SaveEdit | main.py:105-115 | saves iff the text parses; on success both time and flag are overwritten, on failure neither changes; no other alarm changes, and nothing listed changes when the alarm was deleted |
| AlarmScreen.MainScreen.CheckAlarms | main.py:121-126 | the loop returns exactly the selection rule's alarm and changes nothing |
| AlarmScreen.MainScreen.Snooze | main.py:140-146 | the alarm's time becomes the snoozed time of day, its flag is kept, and no other alarm changes |
| AlarmScreen.MainScreen.Dismiss | main.py:148-151 | the alarm is disabled with its time kept, and no other alarm changes |

## Left out

- Kivy layout, labels, buttons, popups, `ListProperty` and `update_alarm_list` are left out: they are widget work with no effect on the alarm book. The error popup for a bad time is left out too; the model reports it as a `false` result.
- Kivy's `Clock.schedule_interval` (main.py:46) is left out because it is the host scheduler; the model's `Clock` module is `datetime` arithmetic, not Kivy's clock. A single call to `CheckAlarms` stands for one tick.
- `datetime.now()` is left out because it reads the host clock; the current time is a parameter.
- Opening the alarm popup for the selected alarm (`show_alarm_popup`) is left out: `CheckAlarms` returns the alarm's position instead. Repeated popups stacking up for the whole minute are therefore only visible as `FirstDueIgnoresSeconds`.
- `plyer.notification` is left out: it is imported but never called.
- `parser.py` is not part of this model: it is an HTTP scrape of the week parity, and `main.py` does not use it.
- TimeFormat.ParseHHMM: only ASCII digits are accepted. Python's `\d` in `strptime` also accepts other Unicode decimal digits, which the model rejects.
- AlarmScreen.MainScreen.DeleteAlarm: requires `0 <= index < len`. Python's negative indices, which count from the end, are not modelled, because rows pass their `enumerate` position.
- Clock.AddMinutes: dates are a plain day number. The `datetime` range limits (years 1 to 9999, `OverflowError`) are not modelled.
