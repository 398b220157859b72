# Schedule templates and shift templates

This project models the logic in the volunteer planner's `scheduletemplates/models.py`.
A **schedule template** is a named group of shifts that belongs to one facility. A
**shift template** describes one recurring shift: its task, an optional workplace, the
number of volunteers needed (`slots`), a starting and an ending time of day, and `days`,
the number of days between the start and the end.

The model covers four pieces of logic:

- **Save-time roll-over** (`ShiftTemplate.save`). Before a shift is stored, a shift with
  `days == 0` whose start is not strictly before its end is changed to `days == 1`. Equal
  times count as overnight. The class `ScheduleTemplates.ShiftTemplate` has the record's
  fields. Its `Save` method may modify only `days`, and it is proved to match the pure
  function `Normalized`.
- **Duration** (`duration`). The start is placed on a reference day and the end `days`
  days later. The result is the distance between the two instants, in microseconds.
- **Ending-time label** (`localized_display_ending_time`). This is the localised ending
  time, a space, and a days phrase: empty, "the next day", or "after N days". Python's
  `.strip()` is applied to the whole string.
- **Display strings**. A schedule template displays as `name / facility`. A shift template
  displays as `schedule: slots x task[/workplace] from start to ending-label`.

Supporting modules model the Python built-ins these rely on:

- `Decimal`: `str()` of an integer.
- `Clock`: naive `datetime.time`. It covers the time's fields, Python's tuple ordering,
  `str()` (ISO form `HH:MM:SS[.ffffff]`) and `datetime.combine`.
- `Text`: `unicode.strip()`, with the whitespace set of Python 2, the version that `__unicode__` methods run under.

Each rendering has a reader that inverts it (`Decimal.Parse`, `Clock.ParseIso`), and the
round-trip lemmas prove that these renderings lose nothing. For a whole shift label,
`LabelFields` proves where each field sits, and `LabelReadsBack` proves that the slot count
and the starting time read back from their places. Names are copied into labels as they
are, so a name that itself contains " x " or " from " can make two labels look alike.

Modelling choices:

- A time of day is `Clock.TimeOfDay`: hour, minute, second and microsecond within their
  ranges. `Clock.Micros` gives microseconds since midnight, so one day is
  `86_400_000_000`.
- The comparison `starting_time >= ending_time` is Python's lexicographic tuple order,
  `Clock.NotBefore`. `Clock.CompareMatchesMicros` proves that this order agrees with the
  order of `Micros`.
- `datetime.today()` becomes the parameter `today`, a day ordinal. `Duration` is proved
  not to depend on it.
- `localize` is a function parameter of type `TimeOfDay -> string`. The plural rule is
  English: singular exactly when `days == 1`.
- Only the ending time goes through `localize`. The starting time is shown with `str()`,
  as the code does.
- The fields Django keeps in the database are the class's fields. `days` is a `nat`
  (`PositiveIntegerField`), and `slots` is an unbounded `int` (`IntegerField`, for which
  no check exists).

## Model

| member | source | states |
|---|---|---|
| `ScheduleTemplates.FirstSlashAfterName` | scheduletemplates/models.py:25-26 | when the name has no slash, the first slash of the label is the one just after the name |
| `ScheduleTemplates.ScheduleTemplateLabelUnambiguous` | scheduletemplates/models.py:24-26 | two schedule templates with the same label and slash-free names have the same name and the same facility name |
| `ScheduleTemplates.ShiftTemplate.constructor` | scheduletemplates/models.py:29-54 | a new shift template holds the given field values; `days` is 0 unless given |
| `ScheduleTemplates.ShiftTemplate.Save` | scheduletemplates/models.py:85-92 | only `days` may change; the new field values are `Normalized` of the old ones, so afterwards `days == 0` implies start < end |
| `ScheduleTemplates.Normalized` | scheduletemplates/models.py:85-88 | the result satisfies the post-save invariant; only `days` can differ and it never decreases; it changes exactly when `days == 0` and start >= end, and then it becomes exactly 1 |
| `ScheduleTemplates.NormalizedIdempotent` | scheduletemplates/models.py:87-88 | normalising twice gives the same as normalising once |
| `ScheduleTemplates.NormalizedFixedPoints` | scheduletemplates/models.py:87-88 | normalising leaves a shift unchanged if and only if it already satisfies the post-save invariant |
| `ScheduleTemplates.NormalizedExamples` | scheduletemplates/models.py:87-88 | 09:00-17:00 keeps `days == 0`; 22:00-06:00 and 09:00-09:00 roll over to 1; a shift with `days == 2` keeps 2 |
| `ScheduleTemplates.Duration` | scheduletemplates/models.py:58-65 | the duration is `abs(days * 24h + end - start)` in microseconds, the distance between the start on the reference day and the end `days` days later |
| `ScheduleTemplates.DurationClosedForm` | scheduletemplates/models.py:58-65 | the duration equals `abs(days * 24h + end - start)` in microseconds, and it is the same for every reference day |
| `ScheduleTemplates.DurationOfNormal` | scheduletemplates/models.py:59-65 | for a shift that satisfies the post-save invariant, the duration is `days * 24h + end - start` with no absolute value, and it is strictly positive |
| `ScheduleTemplates.DurationOfSavedSameDayShift` | scheduletemplates/models.py:58-65 | after saving, a same-day shift lasts `(end - start) mod 24h`, or a full 24h when start and end are equal |
| `ScheduleTemplates.DurationExamples` | scheduletemplates/models.py:58-65 | 22:00 to 06:00 with `days == 1` lasts 8h; 09:00 to 17:00 with `days == 0` lasts 8h; 22:00 to 06:00 with `days == 0` lasts 8h once saved |
| `ScheduleTemplates.DaysPhrase` | scheduletemplates/models.py:69-72 | the days phrase is empty exactly when `days == 0`; it is "the next day" for one day; for more days it is "after ", the day count and " days", and the count reads back as `days` |
| `ScheduleTemplates.DaysPhraseStripped` | scheduletemplates/models.py:69-72 | for `days >= 1` the days phrase is non-empty and has no whitespace at either end |
| `ScheduleTemplates.EndingLabel` | scheduletemplates/models.py:67-74 | the ending label never starts or ends with whitespace |
| `ScheduleTemplates.EndingLabelSameDay` | scheduletemplates/models.py:71-74 | with `days == 0` the ending label is the stripped localised ending time, with no suffix and no trailing space |
| `ScheduleTemplates.EndingLabelLaterDay` | scheduletemplates/models.py:69-74 | with `days >= 1` the ending label is the localised time without its leading whitespace, one space and the days phrase; if the localised time is blank, it is the days phrase alone |
| `ScheduleTemplates.EndingLabelCases` | scheduletemplates/models.py:68-74 | if the localised time is non-empty with no whitespace at its ends, the result is: just that time for 0 days, the time + " the next day" for 1 day, the time + " after N days" for N > 1 |
| `ScheduleTemplates.Label` | scheduletemplates/models.py:76-83 | the shift label begins with the schedule label and ": " and ends with " to " and the ending label |
| `ScheduleTemplates.WorkplaceSegment` | scheduletemplates/models.py:80-81 | the workplace segment is empty exactly when there is no workplace; otherwise it is "/" followed by the workplace's name |
| `ScheduleTemplates.LabelFields` | scheduletemplates/models.py:76-83 | the label is the schedule label and ": ", the slot count, " x " and the task name, the workplace segment and " from ", the starting time's `str()`, then " to " and the ending label, each at the place the earlier parts' lengths give |
| `ScheduleTemplates.LabelReadsBack` | scheduletemplates/models.py:76-83 | the slot count and the starting time read back from their places in the label as the shift's own values |
| `ScheduleTemplates.LabelWorkplaceInsertion` | scheduletemplates/models.py:80-81 | for two shifts that differ only in the workplace, where one has no workplace: the other's label is the first one with "/" + workplace name inserted right after the task name |
| `ScheduleTemplates.LabelAfterSave` | scheduletemplates/models.py:76-88 | saving changes a shift's label only when it rolls a same-day shift over, and the change is that " the next day" is appended (for a localised time with no whitespace at its ends) |
| `Clock.Micros` | scheduletemplates/models.py:47-51 | a time of day is fewer than 86 400 000 000 microseconds after midnight |
| `Clock.Compare` | scheduletemplates/models.py:87 | the tuple comparison of two times answers -1, 0 or 1, and 0 exactly when the times are equal |
| `Clock.CompareAntisymmetric` | scheduletemplates/models.py:87 | swapping the two times negates the comparison |
| `Clock.Before` | scheduletemplates/models.py:87 | a time is before another exactly when it is fewer microseconds after midnight |
| `Clock.NotBefore` | scheduletemplates/models.py:87 | `starting_time >= ending_time` holds exactly when the start is not before the end, that is, when the start is at least as many microseconds after midnight as the end |
| `Clock.CompareMatchesMicros` | scheduletemplates/models.py:87 | Python's tuple order on times gives the same answer as comparing microseconds since midnight; equal tuples are equal times |
| `Clock.Combine` | scheduletemplates/models.py:62-63 | combining a day with a time gives an instant within that day |
| `Clock.IsoFormat` | scheduletemplates/models.py:82 | `str()` of a time has 8 characters, or 15 when the microsecond field is not zero; colons sit at positions 2 and 5, and a point at 8 when there are microseconds |
| `Clock.ParseIsoFormat` | scheduletemplates/models.py:82 | reading back `str()` of a time gives the same time |
| `Clock.IsoFormatInjective` | scheduletemplates/models.py:82 | distinct starting times are shown differently |
| `Clock.IsoFormatHead` | scheduletemplates/models.py:82 | `str()` of a time starts with two-digit hour, minute and second fields separated by colons, and these fields read back as the time's fields |
| `Decimal.ShowNat` | scheduletemplates/models.py:77-78 | a natural number is written as at least one digit, with no leading zero unless the number is 0 |
| `Decimal.Show` | scheduletemplates/models.py:77-78 | an integer's numeral starts with '-' exactly when the integer is negative; otherwise it is all digits |
| `Decimal.ParseShow` | scheduletemplates/models.py:77-78 | reading back the numeral of the slot count or the day count gives the same integer |
| `Decimal.ShowInjective` | scheduletemplates/models.py:77-78 | distinct integers are written differently |
| `Decimal.ParseShowNat` | scheduletemplates/models.py:70-72 | reading back the numeral of a natural number gives the number |
| `Decimal.ZeroPad` | scheduletemplates/models.py:82 | padding a number with zeros to a width gives all digits, as many as the width or the number's own digits if there are more, and they read back as the number |
| `Decimal.ZeroPadParse` | scheduletemplates/models.py:82 | zero-padding a number below `10^width` gives exactly `width` digits, and they read back as the number |
| `Decimal.ShowNatLength` | scheduletemplates/models.py:82 | a number below `10^k` has at most k digits |
| `Text.StripLeft` | scheduletemplates/models.py:74 | `lstrip` returns a string no longer than its input, and its first character is not whitespace |
| `Text.StripRight` | scheduletemplates/models.py:74 | `rstrip` returns a string no longer than its input, and its last character is not whitespace |
| `Text.StripLeftRemovesLeadingSpace` | scheduletemplates/models.py:74 | `lstrip` keeps a suffix of its input and removes only whitespace |
| `Text.StripRightRemovesTrailingSpace` | scheduletemplates/models.py:74 | `rstrip` keeps a prefix of its input and removes only whitespace |
| `Text.Strip` | scheduletemplates/models.py:74 | the result of `strip` has no whitespace at either end |
| `Text.StripStripped` | scheduletemplates/models.py:74 | a string with no whitespace at either end is left unchanged |
| `Text.StripIdempotent` | scheduletemplates/models.py:74 | stripping twice gives the same as stripping once |
| `Text.StripLeftEmpty` | scheduletemplates/models.py:74 | `lstrip` returns the empty string exactly when the input is all whitespace, which is also exactly when `strip` returns the empty string |
| `Text.StripLeftAppend` | scheduletemplates/models.py:74 | `lstrip` of a concatenation is `lstrip` of the first part followed by the second part, or `lstrip` of the second part when the first part is all whitespace |
| `Text.StripTrailingSpace` | scheduletemplates/models.py:74 | appending a space does not change the result of `strip` |
| `Text.StripJoin` | scheduletemplates/models.py:73-74 | stripping `s + " " + p`, where `p` is non-empty and already stripped, gives `p` when `s` is blank and otherwise `lstrip(s) + " " + p` |

## Left out

- Persistence: `super().save(...)` is not modelled. `Save` models only the in-memory correction done before the write. If a caller passes `update_fields` without `days`, the corrected value is not written, and this model does not capture that.
- Django field declarations, `ForeignKey` relations, `Meta` (ordering, verbose names) and `db_index`. This is the schema of the storage layer, not logic. Facilities, tasks and workplaces are modelled only through their `name`.
- `managers.ShiftTemplateManager` is not part of this model. It is a query-layer wrapper whose file is not available.
- Translation: `ugettext_lazy` and `ungettext_lazy` are modelled with English strings and English plural rules. Catalogues for other languages are not modelled.
- `localize` is a call into Django's formatting code and is left abstract, as a function parameter.
- `datetime.today()` reads the clock, so it is a parameter. Only the date matters, because `datetime.combine` drops the time of day.
- Duration: a large `days` makes Python raise `OverflowError`, and the model does not. `timedelta(days=self.days)` (scheduletemplates/models.py:61) raises when `days` is above 999 999 999. `today + days` (scheduletemplates/models.py:63) raises once the end date passes 9999-12-31, about 2.9 million days from now. `Duration` and `DurationClosedForm` ignore both limits. In the source, the duration is the same for every reference day only below these bounds.
- `Duration` returns the timedelta's value in microseconds. It does not model the `(days, seconds, microseconds)` representation of `timedelta`.
- The database's upper bound on `days` and on `slots` (32-bit columns) is not modelled. The source validates neither field, and this model does not either.
- Python 2's byte-string versus Unicode conversions are not modelled. The model treats text as sequences of characters.
