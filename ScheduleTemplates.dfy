/**
 * The schedule templates of a facility and the shift templates they group: the
 * save-time roll-over of overnight shifts, the length of a shift, and the labels
 * both records display.
 */
module ScheduleTemplates {
  import opened Wrappers
  import Decimal
  import Clock
  import Text

  /** The organisation records a template refers to; only their names are read here. */
  datatype Facility = Facility(name: string)
  datatype Task = Task(name: string)
  datatype Workplace = Workplace(name: string)

  /** A named group of shift templates belonging to one facility. */
  datatype ScheduleTemplate = ScheduleTemplate(name: string, facility: Facility)

  /** The label of a schedule template: its name, a slash set off by spaces, and the facility's name. */
  function ScheduleTemplateLabel(t: ScheduleTemplate): (r: string)
    ensures |r| == |t.name| + 3 + |t.facility.name|
    ensures r[..|t.name|] == t.name && r[|t.name|..|t.name| + 3] == " / " && r[|t.name| + 3..] == t.facility.name
  {
    t.name + " / " + t.facility.name
  }

  /** The field values of one shift template. */
  datatype Shift = Shift(
    scheduleTemplate: ScheduleTemplate,
    slots: int,
    task: Task,
    workplace: Option<Workplace>,
    startingTime: Clock.TimeOfDay,
    endingTime: Clock.TimeOfDay,
    days: nat)

  /** What saving guarantees: a shift that ends on the day it starts ends strictly after it starts. */
  predicate Normal(s: Shift) {
    s.days == 0 ==> Clock.Before(s.startingTime, s.endingTime)
  }

  /**
   * The correction applied before a shift template is stored: a same-day shift whose
   * start is not before its end (equal times included) is taken to end the next day.
   */
  function Normalized(s: Shift): (r: Shift)
    ensures Normal(r)
    ensures r == s.(days := r.days) && r.days >= s.days
    ensures r.days != s.days <==> s.days == 0 && Clock.NotBefore(s.startingTime, s.endingTime)
    ensures r.days != s.days ==> r.days == 1
  {
    if s.days == 0 && Clock.NotBefore(s.startingTime, s.endingTime) then s.(days := 1) else s
  }

  /** Saving twice is saving once. */
  lemma NormalizedIdempotent(s: Shift)
    ensures Normalized(Normalized(s)) == Normalized(s)
  {
  }

  /** Saving leaves a shift exactly as it is if and only if it already satisfies the invariant. */
  lemma NormalizedFixedPoints(s: Shift)
    ensures Normalized(s) == s <==> Normal(s)
  {
  }

  function Abs(x: int): (r: nat)
    ensures r == x || r == -x
  {
    if x < 0 then -x else x
  }

  /**
   * `duration`: the start instant is taken on the reference day `today` (a day
   * ordinal), the end instant `days` days later; the result is the distance between
   * them in microseconds.
   */
  function Duration(s: Shift, today: int): (d: nat)
    ensures d == Abs(s.days * Clock.MicrosPerDay + Clock.Micros(s.endingTime) - Clock.Micros(s.startingTime))
  {
    var start := Clock.Combine(today, s.startingTime);
    var end := Clock.Combine(today + s.days, s.endingTime);
    if end > start then end - start else start - end
  }

  /** The duration is `|days * 24h + (end - start)|`, whatever day is taken as reference. */
  lemma DurationClosedForm(s: Shift, today: int)
    ensures Duration(s, today)
            == Abs(s.days * Clock.MicrosPerDay + Clock.Micros(s.endingTime) - Clock.Micros(s.startingTime))
    ensures Duration(s, today) == Duration(s, 0)
  {
  }

  /** On a saved shift the end comes strictly after the start, so no absolute value is needed. */
  lemma DurationOfNormal(s: Shift, today: int)
    requires Normal(s)
    ensures Duration(s, today)
            == s.days * Clock.MicrosPerDay + Clock.Micros(s.endingTime) - Clock.Micros(s.startingTime)
    ensures Duration(s, today) > 0
  {
    Clock.CompareMatchesMicros(s.startingTime, s.endingTime);
  }

  /**
   * A same-day shift, once saved, lasts from its start to the next time the clock
   * shows its end: the difference of the two clock readings modulo 24 hours, and a
   * full day when they are equal.
   */
  lemma DurationOfSavedSameDayShift(s: Shift, today: int)
    requires s.days == 0
    ensures Duration(Normalized(s), today)
            == if s.startingTime == s.endingTime then Clock.MicrosPerDay
               else (Clock.Micros(s.endingTime) - Clock.Micros(s.startingTime)) % Clock.MicrosPerDay
  {
    var st, en := Clock.Micros(s.startingTime), Clock.Micros(s.endingTime);
    Clock.CompareMatchesMicros(s.startingTime, s.endingTime);
    DurationOfNormal(Normalized(s), today);
    if st < en {
      assert Normalized(s).days == 0;
      assert (en - st) % Clock.MicrosPerDay == en - st;
    } else {
      assert Normalized(s).days == 1;
      if en < st {
        assert (en - st) % Clock.MicrosPerDay == en - st + Clock.MicrosPerDay;
      }
    }
  }

  /** The suffix of the ending time: nothing, "the next day", or "after N days" (English plural rule). */
  function DaysPhrase(days: nat): (r: string)
    ensures r == [] <==> days == 0
    ensures days == 1 ==> r == "the next day"
    ensures days > 1 ==> 11 < |r| && r[..6] == "after " && r[|r| - 5..] == " days"
                         && Decimal.Parse(r[6..|r| - 5]) == Some(days)
  {
    Decimal.ParseShow(days);
    Framed("after ", Decimal.Show(days), " days");
    if days == 0 then ""
    else if days == 1 then "the next day"
    else "after " + Decimal.Show(days) + " days"
  }

  /** A string between two others can be cut back out of the concatenation. */
  lemma Framed(a: string, b: string, c: string)
    ensures var r := a + b + c;
            r[..|a|] == a && r[|a|..|r| - |c|] == b && r[|r| - |c|..] == c
  {
  }

  /** `localized_display_ending_time`: the localised ending time, a space and the days phrase, stripped. */
  function EndingLabel(s: Shift, localize: Clock.TimeOfDay -> string): (r: string)
    ensures Text.Stripped(r)
  {
    Text.Strip(localize(s.endingTime) + " " + DaysPhrase(s.days))
  }

  /** A non-empty days phrase has no whitespace at either end. */
  lemma DaysPhraseStripped(days: nat)
    requires days >= 1
    ensures DaysPhrase(days) != [] && Text.Stripped(DaysPhrase(days))
  {
    var p := DaysPhrase(days);
    if days > 1 {
      assert p[0] == 'a' && p[|p| - 1] == 's';
    }
  }

  /** With no day offset the label is the localised time alone: no suffix and no trailing space. */
  lemma EndingLabelSameDay(s: Shift, localize: Clock.TimeOfDay -> string)
    requires s.days == 0
    ensures EndingLabel(s, localize) == Text.Strip(localize(s.endingTime))
  {
    assert localize(s.endingTime) + " " + DaysPhrase(s.days) == localize(s.endingTime) + " ";
    Text.StripTrailingSpace(localize(s.endingTime));
  }

  /**
   * With a day offset the phrase follows the localised time after one space; only
   * the time's leading whitespace is stripped, and a blank time leaves the phrase alone.
   */
  lemma EndingLabelLaterDay(s: Shift, localize: Clock.TimeOfDay -> string)
    requires s.days >= 1
    ensures EndingLabel(s, localize)
            == if Text.Strip(localize(s.endingTime)) == [] then DaysPhrase(s.days)
               else Text.StripLeft(localize(s.endingTime)) + " " + DaysPhrase(s.days)
  {
    DaysPhraseStripped(s.days);
    Text.StripJoin(localize(s.endingTime), DaysPhrase(s.days));
  }

  /** When the localised time has no surrounding whitespace, the three cases of the ending label. */
  lemma EndingLabelCases(s: Shift, localize: Clock.TimeOfDay -> string)
    requires localize(s.endingTime) != [] && Text.Stripped(localize(s.endingTime))
    ensures s.days == 0 ==> EndingLabel(s, localize) == localize(s.endingTime)
    ensures s.days == 1 ==> EndingLabel(s, localize) == localize(s.endingTime) + " the next day"
    ensures s.days > 1 ==> EndingLabel(s, localize)
                           == localize(s.endingTime) + " after " + Decimal.Show(s.days) + " days"
  {
    Text.StripStripped(localize(s.endingTime));
    if s.days == 0 {
      EndingLabelSameDay(s, localize);
    } else {
      EndingLabelLaterDay(s, localize);
    }
  }

  /** The workplace part of a shift label: a slash and the workplace's name, or nothing. */
  function WorkplaceSegment(w: Option<Workplace>): (r: string)
    ensures r == [] <==> w.None?
    ensures w.Some? ==> |r| == 1 + |w.value.name| && r[0] == '/' && r[1..] == w.value.name
  {
    if w.Some? then "/" + w.value.name else ""
  }

  /** The part of a shift label before the workplace: schedule label, slot count and task. */
  function LabelHead(s: Shift): string
  {
    ScheduleTemplateLabel(s.scheduleTemplate) + ": " + Decimal.Show(s.slots) + " x " + s.task.name
  }

  /** The part of a shift label after the workplace: the starting time as `str()` writes it and the ending label. */
  function LabelTail(s: Shift, localize: Clock.TimeOfDay -> string): string
  {
    " from " + Clock.IsoFormat(s.startingTime) + " to " + EndingLabel(s, localize)
  }

  /** The label of a shift template. */
  function Label(s: Shift, localize: Clock.TimeOfDay -> string): (r: string)
    ensures var prefix := ScheduleTemplateLabel(s.scheduleTemplate) + ": ";
            |prefix| <= |r| && r[..|prefix|] == prefix
    ensures var suffix := " to " + EndingLabel(s, localize);
            |suffix| <= |r| && r[|r| - |suffix|..] == suffix
  {
    LabelShapedEnds(LabelHead(s), LabelTail(s, localize),
                    ScheduleTemplateLabel(s.scheduleTemplate) + ": ", Decimal.Show(s.slots), s.task.name,
                    WorkplaceSegment(s.workplace), Clock.IsoFormat(s.startingTime), EndingLabel(s, localize));
    LabelHead(s) + (WorkplaceSegment(s.workplace) + LabelTail(s, localize))
  }

  /**
   * `r` is laid out as a shift label: `lead`, the slot count `slots`, " x " and `task`,
   * the workplace segment `w` and " from ", the starting time `start`, then " to " and
   * the ending label `ending`, each at the place the lengths of the earlier parts give.
   */
  predicate LaidOut(r: string, lead: string, slots: string, task: string, w: string, start: string, ending: string)
  {
    var i := |lead|;
    var j := i + |slots|;
    var k := j + 3 + |task|;
    var m := k + |w| + 6;
    var n := m + |start|;
    n <= |r|
    && r[..i] == lead && r[i..j] == slots && r[j..k] == " x " + task
    && r[k..m] == w + " from " && r[m..n] == start && r[n..] == " to " + ending
  }

  /** A head, a workplace segment and a tail of the label's form are laid out as a label. */
  lemma LabelShapedSlices(head: string, tail: string,
                          lead: string, slots: string, task: string, w: string, start: string, ending: string)
    requires head == lead + slots + " x " + task
    requires tail == " from " + start + " to " + ending
    ensures LaidOut(head + (w + tail), lead, slots, task, w, start, ending)
  {
    var r := (lead + slots + " x " + task) + (w + (" from " + start + " to " + ending));
    var k := |lead| + |slots| + 3 + |task|;
    var m := k + |w| + 6;
    assert r == lead + slots + (" x " + task) + ((w + " from ") + start + (" to " + ending));
    assert r[k..m] == w + " from ";
    assert r[m..] == start + (" to " + ending);
  }

  /** A label-shaped string begins with its lead and ends with " to " and its ending. */
  lemma LabelShapedEnds(head: string, tail: string,
                        lead: string, slots: string, task: string, w: string, start: string, ending: string)
    requires head == lead + slots + " x " + task
    requires tail == " from " + start + " to " + ending
    ensures var r := head + (w + tail);
            var suffix := " to " + ending;
            |lead| <= |r| && r[..|lead|] == lead
            && |suffix| <= |r| && r[|r| - |suffix|..] == suffix
  {
    LabelShapedSlices(head, tail, lead, slots, task, w, start, ending);
  }

  /**
   * Every field of a shift's label sits at a fixed place: cut at these places the label
   * gives back the schedule label and ": ", the slot count, " x " and the task, the
   * workplace segment and " from ", the starting time, and " to " and the ending label.
   */
  lemma LabelFields(s: Shift, localize: Clock.TimeOfDay -> string)
    ensures LaidOut(Label(s, localize), ScheduleTemplateLabel(s.scheduleTemplate) + ": ", Decimal.Show(s.slots),
                    s.task.name, WorkplaceSegment(s.workplace), Clock.IsoFormat(s.startingTime), EndingLabel(s, localize))
  {
    LabelShapedSlices(LabelHead(s), LabelTail(s, localize),
                      ScheduleTemplateLabel(s.scheduleTemplate) + ": ", Decimal.Show(s.slots), s.task.name,
                      WorkplaceSegment(s.workplace), Clock.IsoFormat(s.startingTime), EndingLabel(s, localize));
  }

  /** In a string laid out as a label, the slot count and the starting time read back. */
  lemma LaidOutReadsBack(r: string, lead: string, slots: int, task: string, w: string, start: Clock.TimeOfDay,
                         ending: string)
    requires LaidOut(r, lead, Decimal.Show(slots), task, w, Clock.IsoFormat(start), ending)
    ensures var i := |lead|;
            var j := i + |Decimal.Show(slots)|;
            var m := j + 3 + |task| + |w| + 6;
            var n := m + |Clock.IsoFormat(start)|;
            n <= |r|
            && Decimal.Parse(r[i..j]) == Some(slots)
            && Clock.ParseIso(r[m..n]) == Some(start)
  {
    Decimal.ParseShow(slots);
    Clock.ParseIsoFormat(start);
  }

  /**
   * The slot count and the starting time can be read back from their places in the
   * label, so the label determines both.
   */
  lemma LabelReadsBack(s: Shift, localize: Clock.TimeOfDay -> string)
    ensures var r := Label(s, localize);
            var i := |ScheduleTemplateLabel(s.scheduleTemplate) + ": "|;
            var j := i + |Decimal.Show(s.slots)|;
            var m := j + 3 + |s.task.name| + |WorkplaceSegment(s.workplace)| + 6;
            var n := m + |Clock.IsoFormat(s.startingTime)|;
            n <= |r|
            && Decimal.Parse(r[i..j]) == Some(s.slots)
            && Clock.ParseIso(r[m..n]) == Some(s.startingTime)
  {
    LabelFields(s, localize);
    LaidOutReadsBack(Label(s, localize), ScheduleTemplateLabel(s.scheduleTemplate) + ": ", s.slots, s.task.name,
                     WorkplaceSegment(s.workplace), s.startingTime, EndingLabel(s, localize));
  }

  lemma SplitAt(head: string, tail: string)
    ensures (head + tail)[..|head|] == head && (head + tail)[|head|..] == tail
  {
  }

  /** Without a workplace the label is its head followed by its tail. */
  lemma LabelWithoutWorkplace(s: Shift, localize: Clock.TimeOfDay -> string)
    requires s.workplace == None
    ensures Label(s, localize) == LabelHead(s) + LabelTail(s, localize)
  {
  }

  /** The head and the tail of a label do not read the workplace. */
  lemma LabelPartsIgnoreWorkplace(a: Shift, b: Shift, localize: Clock.TimeOfDay -> string)
    requires b == a.(workplace := b.workplace)
    ensures LabelHead(a) == LabelHead(b) && LabelTail(a, localize) == LabelTail(b, localize)
  {
  }

  /**
   * Of two shifts that differ only in their workplace, one without and one with a
   * workplace: the second label is the first with "/name" inserted right after the task name.
   */
  lemma LabelWorkplaceInsertion(bare: Shift, placed: Shift, localize: Clock.TimeOfDay -> string)
    requires bare.workplace == None && placed.workplace.Some?
    requires placed == bare.(workplace := placed.workplace)
    ensures var k := |LabelHead(bare)|;
            k <= |Label(bare, localize)|
            && Label(placed, localize)
               == Label(bare, localize)[..k] + ("/" + placed.workplace.value.name) + Label(bare, localize)[k..]
  {
    LabelWithoutWorkplace(bare, localize);
    LabelPartsIgnoreWorkplace(bare, placed, localize);
    SplitAt(LabelHead(bare), LabelTail(bare, localize));
  }

  /**
   * Saving changes a shift's label only by rolling a same-day shift over: then
   * " the next day" is appended (for a localised time without surrounding whitespace).
   */
  lemma LabelAfterSave(s: Shift, localize: Clock.TimeOfDay -> string)
    requires localize(s.endingTime) != [] && Text.Stripped(localize(s.endingTime))
    ensures Label(Normalized(s), localize)
            == if Normalized(s).days != s.days then Label(s, localize) + " the next day" else Label(s, localize)
  {
    var n := Normalized(s);
    if n.days != s.days {
      EndingLabelCases(s, localize);
      EndingLabelCases(n, localize);
    }
  }

  /** The first slash of a schedule label is the one after the name, when the name has none. */
  lemma FirstSlashAfterName(t: ScheduleTemplate)
    requires '/' !in t.name
    ensures ScheduleTemplateLabel(t)[|t.name| + 1] == '/'
    ensures forall i :: 0 <= i <= |t.name| ==> ScheduleTemplateLabel(t)[i] != '/'
  {
    var l := ScheduleTemplateLabel(t);
    forall i | 0 <= i <= |t.name| ensures l[i] != '/' {
      if i < |t.name| {
        assert l[i] == l[..|t.name|][i] == t.name[i];
      } else {
        assert l[i] == l[|t.name|..|t.name| + 3][0];
      }
    }
    assert l[|t.name| + 1] == l[|t.name|..|t.name| + 3][1];
  }

  /** A schedule label shows where its name ends when the name contains no slash. */
  lemma ScheduleTemplateLabelUnambiguous(a: ScheduleTemplate, b: ScheduleTemplate)
    requires '/' !in a.name && '/' !in b.name
    requires ScheduleTemplateLabel(a) == ScheduleTemplateLabel(b)
    ensures a.name == b.name && a.facility.name == b.facility.name
  {
    FirstSlashAfterName(a);
    FirstSlashAfterName(b);
    if |a.name| < |b.name| {
      assert false;
    } else if |b.name| < |a.name| {
      assert false;
    }
  }

  /** A shift template as stored: its fields are assigned in place and `Save` corrects `days`. */
  class ShiftTemplate {
    var scheduleTemplate: ScheduleTemplate
    var slots: int
    var task: Task
    var workplace: Option<Workplace>
    var startingTime: Clock.TimeOfDay
    var endingTime: Clock.TimeOfDay
    var days: nat

    constructor (scheduleTemplate: ScheduleTemplate, slots: int, task: Task, workplace: Option<Workplace>,
                 startingTime: Clock.TimeOfDay, endingTime: Clock.TimeOfDay, days: nat := 0)
      ensures Value() == Shift(scheduleTemplate, slots, task, workplace, startingTime, endingTime, days)
    {
      this.scheduleTemplate := scheduleTemplate;
      this.slots := slots;
      this.task := task;
      this.workplace := workplace;
      this.startingTime := startingTime;
      this.endingTime := endingTime;
      this.days := days;
    }

    /** The current field values. */
    function Value(): Shift
      reads this
    {
      Shift(scheduleTemplate, slots, task, workplace, startingTime, endingTime, days)
    }

    /** `save`, up to the write to storage: the roll-over correction of `days`. */
    method Save()
      modifies this`days
      ensures Value() == Normalized(old(Value()))
      ensures Normal(Value())
    {
      if days == 0 && Clock.NotBefore(startingTime, endingTime) {
        days := 1;
      }
    }
  }

  /** A shift of the given template with its times given as hour and minute. */
  function ExampleShift(startHour: nat, startMinute: nat, endHour: nat, endMinute: nat, days: nat): Shift
    requires startHour < 24 && startMinute < 60 && endHour < 24 && endMinute < 60
  {
    Shift(ScheduleTemplate("Weekday", Facility("Hall")), 2, Task("Kitchen"), None,
          Clock.Time(startHour, startMinute, 0, 0), Clock.Time(endHour, endMinute, 0, 0), days)
  }

  /** Saving 09:00-17:00 keeps day 0; 22:00-06:00 and 09:00-09:00 roll over to the next day. */
  lemma NormalizedExamples()
    ensures Normalized(ExampleShift(9, 0, 17, 0, 0)).days == 0
    ensures Normalized(ExampleShift(22, 0, 6, 0, 0)).days == 1
    ensures Normalized(ExampleShift(9, 0, 9, 0, 0)).days == 1
    ensures Normalized(ExampleShift(22, 0, 6, 0, 2)).days == 2
  {
  }

  /** 22:00 to 06:00 on the next day and 09:00 to 17:00 on the same day both last eight hours. */
  lemma DurationExamples(today: int)
    ensures Duration(ExampleShift(22, 0, 6, 0, 1), today) == 8 * Clock.MicrosPerHour
    ensures Duration(ExampleShift(9, 0, 17, 0, 0), today) == 8 * Clock.MicrosPerHour
    ensures Duration(Normalized(ExampleShift(22, 0, 6, 0, 0)), today) == 8 * Clock.MicrosPerHour
  {
  }

  /** A caller's view of `Save`: an overnight shift is rolled over once, and a second save keeps it. */
  method SaveScenarios()
  {
    var weekday := ScheduleTemplate("Weekday", Facility("Hall"));
    var night := new ShiftTemplate(weekday, 3, Task("Watch"), None, Clock.Time(22, 0, 0, 0), Clock.Time(6, 0, 0, 0));
    assert night.days == 0;
    night.Save();
    assert night.days == 1 && night.slots == 3 && night.startingTime == Clock.Time(22, 0, 0, 0);
    night.Save();
    assert night.days == 1;
    var day := new ShiftTemplate(weekday, 2, Task("Kitchen"), Some(Workplace("Stove")),
                                 Clock.Time(9, 0, 0, 0), Clock.Time(17, 0, 0, 0));
    day.Save();
    assert day.days == 0 && night.days == 1;
  }
}
