/*
 * The booking form (core/forms.py): the fixed weekly timetable, the list of
 * start times the form offers, and the checks `PrenotazioneForm.clean` runs
 * on a request before `PrenotazioneForm.save` stamps the computed start on
 * the new lesson.
 */
module Forms {
  import opened Models

  /** A wall-clock time written `hh:mm`, as minutes after midnight. */
  function HM(h: int, m: int): int {
    60 * h + m
  }

  /**
   * `ORARI_SETTIMANALI`: for each weekday with lessons, the start times the
   * form accepts. Saturday (5) and Sunday (6) have no entry.
   */
  const Timetable: map<int, seq<int>> := map[
    0 := [HM(14, 30), HM(15, 0), HM(15, 30), HM(16, 0), HM(16, 30),
          HM(17, 0), HM(17, 30), HM(18, 0), HM(18, 30), HM(19, 0)],
    1 := [HM(9, 0), HM(9, 30), HM(10, 0), HM(10, 30), HM(11, 0),
          HM(11, 30), HM(14, 0), HM(14, 30), HM(15, 0), HM(15, 30)],
    2 := [HM(14, 30), HM(15, 0), HM(15, 30), HM(16, 0), HM(16, 30),
          HM(17, 0), HM(17, 30), HM(18, 0), HM(18, 30)],
    3 := [HM(14, 30), HM(15, 0), HM(15, 30), HM(16, 0), HM(16, 30),
          HM(17, 0), HM(17, 30), HM(18, 0), HM(18, 30)],
    4 := [HM(14, 30), HM(15, 0), HM(15, 30), HM(16, 0), HM(16, 30),
          HM(17, 0), HM(17, 30), HM(18, 0)]
  ]

  /** The weekdays of the timetable in the dictionary's order. */
  const TimetableDays: seq<int> := [0, 1, 2, 3, 4]

  lemma TimetableDaysAreItsKeys()
    ensures forall d :: d in Timetable <==> d in TimetableDays
  {
  }

  predicate StrictlyIncreasing(s: seq<int>) {
    forall i, j :: 0 <= i < j < |s| ==> s[i] < s[j]
  }

  /** A list rising at each step rises throughout. */
  lemma {:induction false} StepwiseIncreasing(s: seq<int>)
    requires forall i :: 0 <= i < |s| - 1 ==> s[i] < s[i + 1]
    ensures StrictlyIncreasing(s)
    decreases |s|
  {
    if |s| > 1 {
      StepwiseIncreasing(s[1..]);
      forall j | 0 < j < |s| ensures s[0] < s[j] {
        assert s[1..][j - 1] == s[j];
        if j > 1 {
          assert s[1..][0] < s[1..][j - 1];
        }
      }
    }
  }

  /** A weekday's times: ascending, on the half hour, between 9:00 and 19:00. */
  predicate WellFormedDay(times: seq<int>) {
    && StrictlyIncreasing(times)
    && forall t :: t in times ==> t % 30 == 0 && HM(9, 0) <= t <= HM(19, 0)
  }

  lemma WellFormedByIndex(times: seq<int>)
    requires forall i :: 0 <= i < |times| - 1 ==> times[i] < times[i + 1]
    requires forall i :: 0 <= i < |times| ==> times[i] % 30 == 0 && HM(9, 0) <= times[i] <= HM(19, 0)
    ensures WellFormedDay(times)
  {
    StepwiseIncreasing(times);
  }

  lemma DayIsWellFormed(d: int)
    requires d in Timetable
    ensures WellFormedDay(Timetable[d])
  {
    WellFormedByIndex(Timetable[d]);
  }

  /** Lessons on Monday to Friday only, and every weekday's list is well formed. */
  lemma TimetableShape()
    ensures forall d :: d in Timetable <==> 0 <= d < 5
    ensures forall d :: d in Timetable ==> WellFormedDay(Timetable[d])
  {
    forall d | d in Timetable ensures WellFormedDay(Timetable[d]) {
      DayIsWellFormed(d);
    }
  }

  /** All the lists of `days`, one after the other. */
  function Flatten(days: seq<int>): (r: seq<int>)
    requires forall i :: 0 <= i < |days| ==> days[i] in Timetable
    ensures forall t :: t in r <==> exists d :: d in days && d in Timetable && t in Timetable[d]
  {
    if days == [] then []
    else Timetable[days[0]] + Flatten(days[1..])
  }

  /** Inserts `x` into a strictly increasing list unless it is already there. */
  function InsertUnique(x: int, s: seq<int>): (r: seq<int>)
    requires StrictlyIncreasing(s)
    ensures StrictlyIncreasing(r)
    ensures forall y :: y in r <==> y == x || y in s
    ensures |s| > 0 && |r| > 0 ==> r[0] == if x < s[0] then x else s[0]
  {
    if s == [] then [x]
    else if x < s[0] then [x] + s
    else if x == s[0] then s
    else [s[0]] + InsertUnique(x, s[1..])
  }

  /** `sorted(list(set(s)))` */
  function SortUnique(s: seq<int>): (r: seq<int>)
    ensures StrictlyIncreasing(r)
    ensures forall y :: y in r <==> y in s
  {
    if s == [] then [] else InsertUnique(s[0], SortUnique(s[1..]))
  }

  /**
   * `TUTTI_ORARI`: every start time of any weekday, sorted, each once (the
   * source sorts `hh:mm` strings; zero-padded, their order is that of the
   * minutes). `SCELTE_ORARI` pairs each with itself as the choice label, so
   * the form's `ora` field accepts exactly these values.
   */
  const AllTimes: seq<int> := SortUnique(Flatten(TimetableDays))

  /** `TUTTI_ORARI` is the sorted, duplicate-free union of the weekday lists. */
  lemma AllTimesIsSortedUnion()
    ensures StrictlyIncreasing(AllTimes)
    ensures forall t :: t in AllTimes <==> exists d :: d in Timetable && t in Timetable[d]
  {
    TimetableDaysAreItsKeys();
  }

  /** A start time of some weekday is one of the form's choices. */
  lemma OfferedIsAChoice(t: int, d: int)
    requires d in Timetable && t in Timetable[d]
    ensures t in AllTimes
  {
    AllTimesIsSortedUnion();
  }

  /** The `ora` field (a choice field over `SCELTE_ORARI`): `None` when the value is not a choice. */
  function OraField(raw: int): (ora: Option<int>)
    ensures ora.Some? <==> exists d :: d in Timetable && raw in Timetable[d]
    ensures ora.Some? ==> ora.value == raw
  {
    AllTimesIsSortedUnion();
    if raw in AllTimes then Some(raw) else None
  }

  /** The most tenths `durata_ore` holds: `max_digits=3, decimal_places=1` allow at most 99.9 hours either way. */
  const MaxTenths: int := 999

  /**
   * The form's `durata_ore` field, derived from the model's `DecimalField`: a
   * value with more than two digits before the point is a field error.
   */
  function DurataField(tenths: int): (durata: Option<int>)
    ensures durata.Some? <==> -MaxTenths <= tenths <= MaxTenths
    ensures durata.Some? ==> durata.value == tenths
  {
    if -MaxTenths <= tenths <= MaxTenths then Some(tenths) else None
  }

  // ------------------------------------------------------------ clean()

  /** Why `clean` refuses a request (its `ValidationError` messages). */
  datatype Refusal =
    | InThePast                      // "Non puoi prenotare nel passato!"
    | NoLessonsThatWeekday           // "In questo giorno non faccio lezione."
    | TimeNotOffered(time: int)      // "Alle hh:mm non sono disponibile."
    | Busy(from: int, until: int)    // "Orario occupato (hh:mm - hh:mm)."

  /**
   * The outcome of `clean`: refused, or passed with the computed start
   * (`data_inizio_calcolata`), which is absent when the checks were skipped.
   */
  datatype Checked = Refused(why: Refusal) | Passed(start: Option<int>)

  /** `inizio_richiesto < fine_lezione and fine_richiesta > lezione.data_inizio` */
  predicate Overlaps(from: int, until: int, l: Lesson) {
    from < End(l) && until > l.start
  }

  /**
   * The conflict query's filter: active lessons that start before the
   * requested end (the query returns them newest first, see `NewestFirstOf`).
   */
  function Conflicts(lessons: seq<Lesson>, until: int): (r: seq<Lesson>)
    ensures forall l :: l in r <==> l in lessons && IsActive(l) && l.start < until
  {
    if lessons == [] then []
    else (if IsActive(lessons[0]) && lessons[0].start < until then [lessons[0]] else [])
         + Conflicts(lessons[1..], until)
  }

  /** Some lesson of the table that still holds its time overlaps the interval. */
  predicate Clashes(lessons: seq<Lesson>, from: int, until: int) {
    exists l :: l in lessons && IsActive(l) && Overlaps(from, until, l)
  }

  /**
   * The pre-filter `data_inizio < fine_richiesta` never changes the outcome:
   * a lesson overlapping the request already starts before its end.
   */
  lemma PrefilterIsHarmless(lessons: seq<Lesson>, from: int, until: int)
    ensures (exists l :: l in NewestFirstOf(Conflicts(lessons, until)) && Overlaps(from, until, l))
            <==> Clashes(lessons, from, until)
  {
  }

  /**
   * The loop over the conflict query: the first lesson, in newest-first
   * order, that overlaps the request, which is then the latest-starting one.
   */
  method FirstClash(conflicts: seq<Lesson>, from: int, until: int) returns (clash: Option<Lesson>)
    requires NewestFirst(conflicts)
    ensures clash.None? <==> forall l :: l in conflicts ==> !Overlaps(from, until, l)
    ensures clash.Some? ==> clash.value in conflicts && Overlaps(from, until, clash.value)
    ensures clash.Some? ==> forall l :: l in conflicts && Overlaps(from, until, l) ==> l.start <= clash.value.start
  {
    for i := 0 to |conflicts|
      invariant forall k :: 0 <= k < i ==> !Overlaps(from, until, conflicts[k])
    {
      var l := conflicts[i];
      if from < End(l) && until > l.start {
        forall l' | l' in conflicts && Overlaps(from, until, l') ensures l'.start <= l.start {
          var m :| 0 <= m < |conflicts| && conflicts[m] == l';
        }
        return Some(l);
      }
    }
    return None;
  }

  /**
   * What the loop over the conflict query reports, stated over the whole
   * table: a clash is found exactly when the table has one, and the one found
   * is an active overlapping lesson starting no earlier than any other.
   */
  lemma ClashReport(lessons: seq<Lesson>, from: int, until: int, clash: Option<Lesson>)
    requires var conflicts := NewestFirstOf(Conflicts(lessons, until));
      && (clash.None? <==> forall l :: l in conflicts ==> !Overlaps(from, until, l))
      && (clash.Some? ==> clash.value in conflicts && Overlaps(from, until, clash.value))
      && (clash.Some? ==> forall l :: l in conflicts && Overlaps(from, until, l) ==> l.start <= clash.value.start)
    ensures clash.Some? <==> Clashes(lessons, from, until)
    ensures clash.Some? ==> clash.value in lessons && IsActive(clash.value) && Overlaps(from, until, clash.value)
    ensures clash.Some? ==> forall l :: l in lessons && IsActive(l) && Overlaps(from, until, l) ==>
                              l.start <= clash.value.start
  {
    PrefilterIsHarmless(lessons, from, until);
  }

  /** The guard of the checks: date, time and duration present, and the duration not 0 (a zero `Decimal` is false). */
  predicate Complete(data: Option<int>, ora: Option<int>, durata: Option<int>) {
    data.Some? && ora.Some? && durata.Some? && durata.value != 0
  }

  /**
   * `PrenotazioneForm.clean`. `data` is the day, `ora` the start time, `durata`
   * the duration in tenths of an hour (`None` when the field is missing),
   * `lessons` the `Lezione` table and `now` the current instant. The checks
   * run in order and stop at the first failure.
   */
  method Clean(data: Option<int>, ora: Option<int>, durata: Option<int>, lessons: seq<Lesson>, now: int)
    returns (r: Checked)
    ensures !Complete(data, ora, durata) ==> r == Passed(None)
    ensures Complete(data, ora, durata) ==>
      var from := At(data.value, ora.value);
      var until := from + MinutesPerTenth * durata.value;
      var wd := Weekday(data.value);
      && (from < now ==> r == Refused(InThePast))
      && (from >= now && wd !in Timetable ==> r == Refused(NoLessonsThatWeekday))
      && (from >= now && wd in Timetable && ora.value !in Timetable[wd] ==>
            r == Refused(TimeNotOffered(ora.value)))
      && (from >= now && wd in Timetable && ora.value in Timetable[wd] ==>
            && (r.Refused? <==> Clashes(lessons, from, until))
            && (r.Refused? ==>
                  && (exists l :: l in lessons && IsActive(l) && Overlaps(from, until, l) &&
                        r.why == Busy(l.start, End(l)))
                  && r.why.Busy?
                  && (forall l :: l in lessons && IsActive(l) && Overlaps(from, until, l) ==>
                        l.start <= r.why.from))
            && (r.Passed? ==> r == Passed(Some(from))))
  {
    if !Complete(data, ora, durata) {
      return Passed(None);
    }
    var from := At(data.value, ora.value);
    var until := from + MinutesPerTenth * durata.value;
    if from < now {
      return Refused(InThePast);
    }
    var wd := Weekday(data.value);
    if wd !in Timetable {
      return Refused(NoLessonsThatWeekday);
    }
    if ora.value !in Timetable[wd] {
      return Refused(TimeNotOffered(ora.value));
    }
    var conflicts := NewestFirstOf(Conflicts(lessons, until));
    var clash := FirstClash(conflicts, from, until);
    ClashReport(lessons, from, until, clash);
    if clash.Some? {
      var l := clash.value;
      return Refused(Busy(l.start, End(l)));
    }
    r := Passed(Some(from));
  }

  /** The outcome of `PrenotazioneForm.save`: the unsaved lesson, or the crash when `clean` computed no start. */
  datatype Saved = Built(lesson: Lesson) | MissingStart

  /**
   * `PrenotazioneForm.save(commit=False)`: a new lesson with the form's
   * fields whose start is exactly the start `clean` computed. Without one
   * (the checks were skipped) the lookup of `data_inizio_calcolata` fails.
   */
  function FormSave(student: nat, tenths: int, place: Place, note: string, checked: Checked): (r: Saved)
    requires checked.Passed?
    ensures r.Built? <==> checked.start.Some?
    ensures r.Built? ==> r.lesson.start == checked.start.value
    ensures r.Built? ==> r.lesson == NewLesson(student, checked.start.value, Some(tenths), Some(place), note)
  {
    if checked.start.Some?
    then Built(NewLesson(student, checked.start.value, Some(tenths), Some(place), note))
    else MissingStart
  }
}
