/*
 * The request handlers of core/views.py that carry logic: the free start
 * times of a date (`get_orari_disponibili`), a student's booking (`prenota`),
 * the tutor's actions on a lesson (`gestisci_lezione`), the weekly window
 * upsert of `dashboard_docente`, the amount a student owes (`dashboard`) and
 * the row filter of `export_lezioni_csv`. Queries are filters over the
 * tables' sequences; the responses are values instead of HTML.
 */
module Views {
  import opened Models
  import opened Forms

  // ------------------------------------------------ get_orari_disponibili

  /** The `data` query parameter: absent, not a `YYYY-MM-DD` date, or a day number. */
  datatype DateParam = Missing | Malformed | Date(day: int)

  /** The options `get_orari_disponibili` answers with. */
  datatype SlotsReply =
    | ChooseDateFirst              // "Seleziona prima una data"
    | InvalidDate                  // "Data non valida"
    | Closed(reason: string)       // "Non disponibile: <motivo or 'Chiuso'>"
    | NoLessonsThatDay             // "Nessuna lezione in questo giorno"
    | ManyWindows                  // `Disponibilita.objects.get` raises MultipleObjectsReturned
    | FullyBooked                  // "Tutto occupato!"
    | Slots(times: seq<int>)       // one option per free start time

  predicate Covers(c: Closure, day: int) {
    c.first <= day <= c.last
  }

  /** The first closure (in table order) whose inclusive range covers the day. */
  function ClosureOn(closures: seq<Closure>, day: int): (r: Option<Closure>)
    ensures r.None? <==> forall c :: c in closures ==> !Covers(c, day)
    ensures r.Some? ==> r.value in closures && Covers(r.value, day)
  {
    if closures == [] then None
    else if Covers(closures[0], day) then Some(closures[0])
    else ClosureOn(closures[1..], day)
  }

  /** `chiusura.motivo or 'Chiuso'` */
  function ClosedReason(c: Closure): (s: string)
    ensures s != []
    ensures c.reason != [] ==> s == c.reason
    ensures c.reason == [] ==> s == "Chiuso"
  {
    if c.reason == [] then "Chiuso" else c.reason
  }

  /** The windows declared for a weekday. */
  function WindowsOn(table: seq<Availability>, weekday: int): (r: seq<Availability>)
    ensures forall w :: w in r <==> w in table && w.day == weekday
    ensures |r| <= |table|
  {
    if table == [] then []
    else (if table[0].day == weekday then [table[0]] else []) + WindowsOn(table[1..], weekday)
  }

  /** A table holding no window of a weekday yields none for it. */
  lemma {:induction false} NoneOfDay(table: seq<Availability>, day: int)
    requires forall w :: w in table ==> w.day != day
    ensures WindowsOn(table, day) == []
  {
    if table != [] {
      assert table[0] in table;
      assert forall w :: w in table[1..] ==> w in table;
      NoneOfDay(table[1..], day);
    }
  }

  /** In a table with one window per weekday, the rows after the first hold no window of its weekday. */
  lemma TailHasOtherDays(table: seq<Availability>)
    requires UniqueDays(table) && table != []
    ensures UniqueDays(table[1..])
    ensures forall w :: w in table[1..] ==> w.day != table[0].day
  {
    forall w | w in table[1..] ensures w.day != table[0].day {
      var j :| 0 <= j < |table[1..]| && table[1..][j] == w;
      assert table[j + 1] == w;
    }
  }

  /** With one window per weekday, a weekday has at most one window. */
  lemma {:induction false} UniqueWindow(table: seq<Availability>, weekday: int)
    requires UniqueDays(table)
    ensures |WindowsOn(table, weekday)| <= 1
  {
    if table != [] {
      TailHasOtherDays(table);
      if table[0].day == weekday {
        NoneOfDay(table[1..], weekday);
      } else {
        UniqueWindow(table[1..], weekday);
      }
    }
  }

  /** Candidate start times: every 30 minutes from `t`, while strictly before `until`. */
  function Candidates(t: int, until: int): (r: seq<int>)
    ensures forall x :: x in r ==> t <= x < until
    ensures r != [] <==> t < until
    ensures r != [] ==> r[0] == t
    decreases until - t
  {
    if t < until then [t] + Candidates(t + 30, until) else []
  }

  /** The candidates are exactly `from + 30k` below `until`, in ascending order. */
  lemma {:induction false} CandidatesAre(from: int, until: int)
    ensures StrictlyIncreasing(Candidates(from, until))
    ensures forall k :: 0 <= k < |Candidates(from, until)| ==> Candidates(from, until)[k] == from + 30 * k
    ensures forall k: nat :: from + 30 * k < until <==> k < |Candidates(from, until)|
    decreases until - from
  {
    if from < until {
      CandidatesAre(from + 30, until);
      var rest := Candidates(from + 30, until);
      assert Candidates(from, until) == [from] + rest;
      forall k: nat
        ensures from + 30 * k < until <==> k < |Candidates(from, until)|
      {
        if k > 0 {
          assert from + 30 * k == (from + 30) + 30 * (k - 1);
        }
      }
    } else {
      forall k: nat
        ensures from + 30 * k < until <==> k < |Candidates(from, until)|
      {
        assert from + 30 * k >= from;
      }
    }
  }

  /** Which lessons the slot check reads: the active lessons starting on that date. */
  function ActiveOn(lessons: seq<Lesson>, day: int): (r: seq<Lesson>)
    ensures forall l :: l in r <==> l in lessons && IsActive(l) && DayOf(l.start) == day
  {
    if lessons == [] then []
    else (if IsActive(lessons[0]) && DayOf(lessons[0].start) == day then [lessons[0]] else [])
         + ActiveOn(lessons[1..], day)
  }

  /** `float(durata_ore) if durata_ore else 1.0`: the slot check reads a zero duration as one hour. */
  function SlotTenths(l: Lesson): (t: int)
    ensures t != 0
    ensures l.tenths != 0 ==> t == l.tenths
    ensures l.tenths == 0 ==> t == 10
  {
    if l.tenths == 0 then 10 else l.tenths
  }

  /** `lezione_inizio <= inizio_slot < lezione_fine`: the lesson holds that instant. */
  predicate Holds(l: Lesson, instant: int) {
    l.start <= instant < l.start + MinutesPerTenth * SlotTenths(l)
  }

  predicate Taken(lessons: seq<Lesson>, instant: int) {
    exists l :: l in lessons && Holds(l, instant)
  }

  /** The candidates that no lesson of `dayLessons` holds, in their order. */
  function FreeAmong(cands: seq<int>, day: int, dayLessons: seq<Lesson>): (r: seq<int>)
    ensures |r| <= |cands|
    ensures forall x :: x in r ==> x in cands
  {
    if cands == [] then []
    else
      var last := cands[|cands| - 1];
      FreeAmong(cands[..|cands| - 1], day, dayLessons)
        + (if Taken(dayLessons, At(day, last)) then [] else [last])
  }

  /** Extending the candidates by one time extends the free times by it unless a lesson holds it. */
  lemma FreeAmongSnoc(cands: seq<int>, t: int, day: int, dayLessons: seq<Lesson>)
    ensures FreeAmong(cands + [t], day, dayLessons)
              == FreeAmong(cands, day, dayLessons) + (if Taken(dayLessons, At(day, t)) then [] else [t])
  {
    assert (cands + [t])[..|cands|] == cands;
  }

  /** A candidate is listed exactly when no lesson of the day holds its instant. */
  lemma {:induction false} FreeAmongMembers(cands: seq<int>, day: int, dayLessons: seq<Lesson>)
    ensures forall t :: t in FreeAmong(cands, day, dayLessons) <==>
                          t in cands && !Taken(dayLessons, At(day, t))
  {
    if cands != [] {
      var init := cands[..|cands| - 1];
      var last := cands[|cands| - 1];
      FreeAmongMembers(init, day, dayLessons);
      assert cands == init + [last];
      forall t ensures t in cands <==> t in init || t == last {
      }
    }
  }

  /** The free times keep the candidates' ascending order. */
  lemma {:induction false} FreeAmongAscends(cands: seq<int>, day: int, dayLessons: seq<Lesson>)
    requires StrictlyIncreasing(cands)
    ensures StrictlyIncreasing(FreeAmong(cands, day, dayLessons))
  {
    if cands != [] {
      var init := cands[..|cands| - 1];
      var last := cands[|cands| - 1];
      assert StrictlyIncreasing(init);
      FreeAmongAscends(init, day, dayLessons);
      FreeAmongMembers(init, day, dayLessons);
      var head := FreeAmong(init, day, dayLessons);
      forall t | t in head ensures t < last {
        var i :| 0 <= i < |init| && init[i] == t;
        assert cands[i] == t;
      }
      var tail: seq<int> := if Taken(dayLessons, At(day, last)) then [] else [last];
      assert FreeAmong(cands, day, dayLessons) == head + tail;
      forall i, j | 0 <= i < j < |head + tail| ensures (head + tail)[i] < (head + tail)[j] {
        if j >= |head| {
          assert (head + tail)[i] in head;
        }
      }
    }
  }

  /**
   * What `get_orari_disponibili` answers for a date, given the closures, the
   * weekly windows and the lessons: a closure wins, then a weekday window is
   * needed, then the candidates no same-day active lesson holds are listed.
   */
  function SlotsFor(date: DateParam, closures: seq<Closure>, table: seq<Availability>, lessons: seq<Lesson>): (r: SlotsReply)
    ensures r == ChooseDateFirst <==> date.Missing?
    ensures r == InvalidDate <==> date.Malformed?
    ensures r.Closed? <==> date.Date? && exists c :: c in closures && Covers(c, date.day)
    ensures r.Closed? ==> date.Date? && exists c :: c in closures && Covers(c, date.day) && r.reason == ClosedReason(c)
    ensures r == NoLessonsThatDay <==>
              date.Date? && ClosureOn(closures, date.day).None? &&
              forall w :: w in table ==> w.day != Weekday(date.day)
    ensures r.Slots? ==> r.times != []
  {
    match date
    case Missing => ChooseDateFirst
    case Malformed => InvalidDate
    case Date(day) =>
      var closure := ClosureOn(closures, day);
      if closure.Some? then Closed(ClosedReason(closure.value))
      else
        var windows := WindowsOn(table, Weekday(day));
        if |windows| == 0 then NoLessonsThatDay
        else
          assert windows[0] in windows;
          if |windows| > 1 then ManyWindows
          else
            var free := FreeAmong(Candidates(windows[0].from, windows[0].until), day, ActiveOn(lessons, day));
            if free == [] then FullyBooked else Slots(free)
  }

  /** The inner loop with `break`: does some lesson of the day hold the instant? */
  method Occupied(dayLessons: seq<Lesson>, instant: int) returns (occupied: bool)
    ensures occupied <==> Taken(dayLessons, instant)
  {
    occupied := false;
    var j := 0;
    while j < |dayLessons|
      invariant 0 <= j <= |dayLessons|
      invariant forall k :: 0 <= k < j ==> !Holds(dayLessons[k], instant)
    {
      var l := dayLessons[j];
      var durata := if l.tenths != 0 then l.tenths else 10;
      if l.start <= instant < l.start + MinutesPerTenth * durata {
        assert Holds(l, instant) && l in dayLessons;
        occupied := true;
        break;
      }
      j := j + 1;
    }
    if !occupied {
      forall l | l in dayLessons ensures !Holds(l, instant) {
        var k :| 0 <= k < |dayLessons| && dayLessons[k] == l;
      }
    }
  }

  /** `get_orari_disponibili` */
  method FreeSlots(date: DateParam, closures: seq<Closure>, table: seq<Availability>, lessons: seq<Lesson>)
    returns (r: SlotsReply)
    ensures r == SlotsFor(date, closures, table, lessons)
  {
    if date.Missing? {
      return ChooseDateFirst;
    }
    if date.Malformed? {
      return InvalidDate;
    }
    var day := date.day;
    var closure := ClosureOn(closures, day);
    if closure.Some? {
      return Closed(ClosedReason(closure.value));
    }
    var windows := WindowsOn(table, Weekday(day));
    if |windows| == 0 {
      return NoLessonsThatDay;
    } else if |windows| > 1 {
      return ManyWindows;
    }
    var window := windows[0];
    var candidates := [];
    var t := window.from;
    while t < window.until
      invariant candidates + Candidates(t, window.until) == Candidates(window.from, window.until)
      decreases window.until - t
    {
      candidates := candidates + [t];
      t := t + 30;
    }
    assert candidates == Candidates(window.from, window.until);
    var dayLessons := ActiveOn(lessons, day);
    var free := [];
    for i := 0 to |candidates|
      invariant free == FreeAmong(candidates[..i], day, dayLessons)
    {
      var occupied := Occupied(dayLessons, At(day, candidates[i]));
      assert candidates[..i + 1][..i] == candidates[..i];
      if !occupied {
        free := free + [candidates[i]];
      }
    }
    assert candidates[..|candidates|] == candidates;
    if free == [] {
      return FullyBooked;
    }
    r := Slots(free);
  }

  /** A date inside a closure range yields no slots, whatever the windows and lessons. */
  lemma ClosureWins(day: int, closures: seq<Closure>, table: seq<Availability>, lessons: seq<Lesson>, c: Closure)
    requires c in closures && Covers(c, day)
    ensures SlotsFor(Date(day), closures, table, lessons).Closed?
    ensures SlotsFor(Date(day), closures, table, lessons).reason != []
    ensures exists c' :: c' in closures && Covers(c', day) && SlotsFor(Date(day), closures, table, lessons).reason == ClosedReason(c')
  {
    var first := ClosureOn(closures, day).value;
    assert first in closures && Covers(first, day);
  }

  /**
   * The listing, when it lists: times of the weekday's window, 30 minutes
   * apart from its start, ascending, none held by an active lesson of that
   * date, and every such time is listed.
   */
  lemma {:induction false} ListedSlots(day: int, closures: seq<Closure>, table: seq<Availability>, lessons: seq<Lesson>)
    requires SlotsFor(Date(day), closures, table, lessons).Slots?
    ensures var w := WindowsOn(table, Weekday(day))[0];
            var times := SlotsFor(Date(day), closures, table, lessons).times;
            && w in table && w.day == Weekday(day)
            && StrictlyIncreasing(times)
            && forall t :: t in times <==>
                 (exists k: nat :: t == w.from + 30 * k && t < w.until) &&
                 forall l :: l in lessons && IsActive(l) && DayOf(l.start) == day ==> !Holds(l, At(day, t))
  {
    var w := WindowsOn(table, Weekday(day))[0];
    var cands := Candidates(w.from, w.until);
    var dayLessons := ActiveOn(lessons, day);
    CandidatesAre(w.from, w.until);
    FreeAmongMembers(cands, day, dayLessons);
    FreeAmongAscends(cands, day, dayLessons);
    forall t ensures t in cands <==> exists k: nat :: t == w.from + 30 * k && t < w.until {
      if t in cands {
        var k :| 0 <= k < |cands| && cands[k] == t;
        assert t == w.from + 30 * k;
      }
      if exists k: nat :: t == w.from + 30 * k && t < w.until {
        var k: nat :| t == w.from + 30 * k && t < w.until;
        assert cands[k] == t;
      }
    }
  }

  /**
   * With no closure and one window, "Tutto occupato!" is answered exactly when
   * every candidate time of the window is held by an active lesson of that date.
   */
  lemma {:induction false} FullyBookedSlots(day: int, closures: seq<Closure>, table: seq<Availability>, lessons: seq<Lesson>)
    requires ClosureOn(closures, day).None? && |WindowsOn(table, Weekday(day))| == 1
    ensures var w := WindowsOn(table, Weekday(day))[0];
            SlotsFor(Date(day), closures, table, lessons) == FullyBooked <==>
              forall t :: t in Candidates(w.from, w.until) ==>
                exists l :: l in lessons && IsActive(l) && DayOf(l.start) == day && Holds(l, At(day, t))
  {
    var w := WindowsOn(table, Weekday(day))[0];
    var cands := Candidates(w.from, w.until);
    var dayLessons := ActiveOn(lessons, day);
    var free := FreeAmong(cands, day, dayLessons);
    FreeAmongMembers(cands, day, dayLessons);
    if free != [] {
      var t := free[0];
      assert t in free;
    }
  }

  /**
   * The listing is the weaker test on lessons of non-zero length. A request
   * of positive length that passes the clash check starts at an instant that
   * no active lesson of non-zero length holds. Its start can still be absent
   * from the listing: a zero-length lesson holds an hour in the listing but
   * nothing in the clash check (`ZeroLengthLessonHidesAStart`), a closure
   * empties the listing, and the listing reads the `Disponibilita` window
   * while the form reads the fixed timetable.
   */
  lemma PassedStartIsNotHeld(lessons: seq<Lesson>, from: int, tenths: int)
    requires tenths > 0
    requires !Clashes(lessons, from, from + MinutesPerTenth * tenths)
    ensures forall l :: l in lessons && IsActive(l) && l.tenths != 0 ==> !Holds(l, from)
  {
  }

  /**
   * A confirmed lesson of zero length at 15:00 does not clash with a
   * 15:00-16:00 request, yet the listing counts it as holding 15:00.
   */
  lemma ZeroLengthLessonHidesAStart()
    ensures var z := Lesson(1, At(7, HM(15, 0)), 0, Base, Confermata, Some(0), false, "");
            && !Clashes([z], At(7, HM(15, 0)), At(7, HM(16, 0)))
            && Taken([z], At(7, HM(15, 0)))
  {
    var z := Lesson(1, At(7, HM(15, 0)), 0, Base, Confermata, Some(0), false, "");
    assert Holds(z, At(7, HM(15, 0)));
  }

  /**
   * The converse fails: 15:30 is listed beside a 16:00-17:00 lesson, but a
   * 90-minute request at 15:30 clashes with it.
   */
  lemma ListedStartCanStillClash()
    ensures var l := Lesson(1, At(7, HM(16, 0)), 10, Base, Confermata, Some(1000), false, "");
            && !Taken([l], At(7, HM(15, 30)))
            && Clashes([l], At(7, HM(15, 30)), At(7, HM(15, 30)) + MinutesPerTenth * 15)
  {
    var l := Lesson(1, At(7, HM(16, 0)), 10, Base, Confermata, Some(1000), false, "");
    assert Overlaps(At(7, HM(15, 30)), At(7, HM(15, 30)) + MinutesPerTenth * 15, l);
  }

  /** The lesson of the Monday scenario below: confirmed, 15:00-16:00 on day 7. */
  const MondayLesson: Lesson := Lesson(1, At(7, HM(15, 0)), 10, Base, Confermata, Some(1000), false, "")

  lemma MondayTaken(t: int)
    requires t in [870, 900, 930, 960, 990, 1020, 1050, 1080, 1110]
    ensures Taken([MondayLesson], At(7, t)) <==> t == 900 || t == 930
  {
    if t == 900 || t == 930 {
      assert Holds(MondayLesson, At(7, t));
    }
  }

  /** An ascending list starts with its least element, and its tail holds every other element. */
  lemma AscendingHead(a: seq<int>)
    requires StrictlyIncreasing(a) && a != []
    ensures StrictlyIncreasing(a[1..])
    ensures forall x :: x in a ==> a[0] <= x
    ensures forall x :: x in a[1..] <==> x in a && x != a[0]
  {
    forall x | x in a ensures a[0] <= x {
      var k :| 0 <= k < |a| && a[k] == x;
    }
    forall x ensures x in a[1..] <==> x in a && x != a[0] {
      if x in a && x != a[0] {
        var k :| 0 <= k < |a| && a[k] == x;
        assert a[1..][k - 1] == x;
      }
      if x in a[1..] {
        var k :| 0 <= k < |a[1..]| && a[1..][k] == x;
        assert a[k + 1] == x;
      }
    }
  }

  lemma EmptyBySet(a: seq<int>, b: seq<int>)
    requires forall x :: x in a <==> x in b
    ensures a == [] <==> b == []
  {
    if a != [] {
      var y := a[0];
      assert y in a;
    }
    if b != [] {
      var y := b[0];
      assert y in b;
    }
  }

  /** Two ascending lists with the same elements are the same list. */
  lemma {:induction false} AscendingBySet(a: seq<int>, b: seq<int>)
    requires StrictlyIncreasing(a) && StrictlyIncreasing(b)
    requires forall x :: x in a <==> x in b
    ensures a == b
    decreases |a|
  {
    EmptyBySet(a, b);
    if a != [] {
      AscendingHead(a);
      AscendingHead(b);
      var x, y := a[0], b[0];
      assert x in a && y in b;
      assert x == y;
      AscendingBySet(a[1..], b[1..]);
      assert a == [a[0]] + a[1..] && b == [b[0]] + b[1..];
    }
  }

  lemma MondayFree(c: seq<int>, expected: seq<int>)
    requires c == [870, 900, 930, 960, 990, 1020, 1050, 1080, 1110]
    requires expected == [870, 960, 990, 1020, 1050, 1080, 1110]
    ensures FreeAmong(c, 7, [MondayLesson]) == expected
  {
    var f := FreeAmong(c, 7, [MondayLesson]);
    FreeAmongMembers(c, 7, [MondayLesson]);
    FreeAmongAscends(c, 7, [MondayLesson]);
    forall x ensures x in f <==> x in expected {
      if x in c {
        MondayTaken(x);
      }
    }
    AscendingBySet(f, expected);
  }

  /**
   * With a Monday window 14:30-19:00 and a confirmed 15:00-16:00 lesson, the
   * listing of that Monday leaves out 15:00 and 15:30 only.
   */
  lemma MondayListing()
    ensures SlotsFor(Date(7), [], [Availability(0, HM(14, 30), HM(19, 0))], [MondayLesson])
              == Slots([HM(14, 30), HM(16, 0), HM(16, 30), HM(17, 0), HM(17, 30), HM(18, 0), HM(18, 30)])
  {
    var table := [Availability(0, HM(14, 30), HM(19, 0))];
    assert WindowsOn(table, Weekday(7)) == table;
    assert ActiveOn([MondayLesson], 7) == [MondayLesson];
    assert Candidates(HM(14, 30), HM(19, 0)) == [870, 900, 930, 960, 990, 1020, 1050, 1080, 1110];
    MondayFree([870, 900, 930, 960, 990, 1020, 1050, 1080, 1110], [870, 960, 990, 1020, 1050, 1080, 1110]);
  }

  // --------------------------------------------------------------- prenota

  /** Why a booking request fails. */
  datatype BookingError =
    | NotAChoice                  // `ora` is not one of `SCELTE_ORARI`: a field error
    | BadDuration                 // `durata_ore` has more than two whole digits: a field error
    | Invalid(why: Refusal)       // `clean` raised a `ValidationError`
    | NoComputedStart             // zero duration: `save` finds no `data_inizio_calcolata`

  datatype Booked = BookedOk(id: nat) | BookedErr(error: BookingError)

  /** Two lessons holding overlapping time. */
  predicate Collide(a: Lesson, b: Lesson) {
    Overlaps(a.start, End(a), b)
  }

  /** No two distinct rows of the table that hold their time overlap. */
  predicate NoDoubleBooking(lessons: seq<Lesson>) {
    forall i, j :: 0 <= i < j < |lessons| && IsActive(lessons[i]) && IsActive(lessons[j]) ==>
      !Collide(lessons[i], lessons[j])
  }

  /**
   * `prenota`: a student asks for a lesson on `day` at `time`, lasting
   * `tenths` tenths of an hour, at `place`. The form is validated against the
   * table at instant `now`; when it passes, the lesson is created in state
   * RICHIESTA for that student and saved (which prices it).
   */
  method Book(db: Ledger, student: nat, day: int, time: int, tenths: int, place: Place, note: string, now: int)
    returns (r: Booked)
    requires db.Valid()
    modifies db
    ensures db.Valid()
    ensures db.availability == old(db.availability) && db.closures == old(db.closures)
    ensures r.BookedErr? ==> db.lessons == old(db.lessons)
    ensures r.BookedOk? ==>
      var from := At(day, time);
      && r.id == |old(db.lessons)|
      && db.lessons == old(db.lessons) + [Priced(NewLesson(student, from, Some(tenths), Some(place), note))]
      && from >= now
      && Weekday(day) in Timetable && time in Timetable[Weekday(day)]
      && !Clashes(old(db.lessons), from, from + MinutesPerTenth * tenths)
    ensures r == BookedErr(NotAChoice) <==> time !in AllTimes
    ensures r == BookedErr(BadDuration) <==> time in AllTimes && !(-MaxTenths <= tenths <= MaxTenths)
    ensures r == BookedErr(NoComputedStart) <==> time in AllTimes && tenths == 0
    ensures r.BookedOk? ==> -MaxTenths <= tenths <= MaxTenths
    ensures time in AllTimes && tenths != 0 && -MaxTenths <= tenths <= MaxTenths ==>
      var from := At(day, time);
      (r.BookedOk? <==>
         && from >= now
         && Weekday(day) in Timetable && time in Timetable[Weekday(day)]
         && !Clashes(old(db.lessons), from, from + MinutesPerTenth * tenths))
    ensures NoDoubleBooking(old(db.lessons)) ==> NoDoubleBooking(db.lessons)
  {
    var ora := OraField(time);
    if ora.None? {
      return BookedErr(NotAChoice);
    }
    var durata := DurataField(tenths);
    if durata.None? {
      return BookedErr(BadDuration);
    }
    var checked := Clean(Some(day), ora, durata, db.lessons, now);
    if checked.Refused? {
      return BookedErr(Invalid(checked.why));
    }
    var built := FormSave(student, tenths, place, note, checked);
    if built.MissingStart? {
      return BookedErr(NoComputedStart);
    }
    ghost var before := db.lessons;
    var id := db.Save(None, built.lesson);
    NewLessonCollidesWithNone(before, built.lesson, Priced(built.lesson));
    r := BookedOk(id);
  }

  /**
   * A lesson that passed the clash check collides with no active row, and
   * appending it (priced) keeps the table free of double bookings.
   */
  lemma NewLessonCollidesWithNone(lessons: seq<Lesson>, l: Lesson, saved: Lesson)
    requires !Clashes(lessons, l.start, End(l))
    requires saved == Priced(l)
    ensures NoDoubleBooking(lessons) ==> NoDoubleBooking(lessons + [saved])
  {
    if NoDoubleBooking(lessons) {
      var all := lessons + [saved];
      forall i, j | 0 <= i < j < |all| && IsActive(all[i]) && IsActive(all[j])
        ensures !Collide(all[i], all[j])
      {
        if j == |lessons| {
          assert all[i] in lessons;
          assert !Overlaps(l.start, End(l), all[i]);
        }
      }
    }
  }

  // ------------------------------------------------------ gestisci_lezione

  /** The `azione` path segment of `gestisci_lezione`. */
  datatype Action = Accetta | Rifiuta | Pagata | Other

  /** The state an action moves a lesson to, if it moves it. */
  function Target(a: Action): (s: Option<Status>)
    ensures s.Some? <==> a == Accetta || a == Rifiuta
    ensures s.Some? ==> s.value != Richiesta
    ensures a == Accetta ==> s == Some(Confermata)
    ensures a == Rifiuta ==> s == Some(Rifiutata)
  {
    match a
    case Accetta => Some(Confermata)
    case Rifiuta => Some(Rifiutata)
    case _ => None
  }

  /** The mail `gestisci_lezione` sends: for `accetta`/`rifiuta`, whenever the student has an address. */
  function ActionNotice(a: Action, hasEmail: bool): (n: Option<Notice>)
    ensures n.Some? <==> hasEmail && Target(a).Some?
    ensures n == Some(ConfirmationMail) <==> hasEmail && a == Accetta
  {
    if !hasEmail then None
    else match a
      case Accetta => Some(ConfirmationMail)
      case Rifiuta => Some(RejectionMail)
      case _ => None
  }

  /** The row after the action (before `save` reprices it). */
  function Acted(l: Lesson, a: Action): (r: Lesson)
    ensures Target(a).Some? ==> r == l.(status := Target(a).value)
    ensures a == Pagata ==> r == l.(paid := true)
    ensures a == Other ==> r == l
  {
    match a
    case Accetta => l.(status := Confermata)
    case Rifiuta => l.(status := Rifiutata)
    case Pagata => l.(paid := true)
    case Other => l
  }

  datatype Managed = Done(notice: Option<Notice>) | NoSuchLesson

  /**
   * `gestisci_lezione`: `accetta` and `rifiuta` set the state whatever it
   * was, `pagata` marks the lesson paid, any other action changes nothing.
   * An unknown id is `Lezione.DoesNotExist`.
   */
  method Manage(db: Ledger, id: nat, action: Action, hasEmail: bool) returns (r: Managed)
    requires db.Valid()
    modifies db
    ensures db.Valid()
    ensures db.availability == old(db.availability) && db.closures == old(db.closures)
    ensures id >= |old(db.lessons)| ==> r == NoSuchLesson && db.lessons == old(db.lessons)
    ensures id < |old(db.lessons)| ==>
      && r == Done(ActionNotice(action, hasEmail))
      && db.lessons == old(db.lessons)[id := Acted(old(db.lessons)[id], action)]
  {
    if id >= |db.lessons| {
      return NoSuchLesson;
    }
    var lezione := db.lessons[id];
    if action == Accetta {
      lezione := lezione.(status := Confermata);
      var _ := db.Save(Some(id), lezione);
    } else if action == Rifiuta {
      lezione := lezione.(status := Rifiutata);
      var _ := db.Save(Some(id), lezione);
    } else if action == Pagata {
      lezione := lezione.(paid := true);
      var _ := db.Save(Some(id), lezione);
    }
    assert lezione == Acted(old(db.lessons)[id], action);
    r := Done(ActionNotice(action, hasEmail));
  }

  /**
   * `accetta` has no guard on the prior state: it re-activates a rejected
   * lesson without any overlap check, so it can leave two active lessons on
   * the same time.
   */
  lemma AcceptingARejectedLessonCanDoubleBook()
    ensures var a := Priced(Lesson(1, 900, 10, Base, Confermata, None, false, ""));
            var b := Priced(Lesson(2, 900, 10, Base, Rifiutata, None, false, ""));
            && NoDoubleBooking([a, b])
            && !NoDoubleBooking([a, b][1 := Acted(b, Accetta)])
  {
    var a := Priced(Lesson(1, 900, 10, Base, Confermata, None, false, ""));
    var b := Priced(Lesson(2, 900, 10, Base, Rifiutata, None, false, ""));
    var after := [a, b][1 := Acted(b, Accetta)];
    assert IsActive(after[0]) && IsActive(after[1]) && Collide(after[0], after[1]);
  }

  // ------------------------------------------------ amount due (dashboard)

  /** Counted by `da_pagare`: the student's confirmed, unpaid lessons. */
  predicate Owed(l: Lesson, student: nat) {
    l.student == student && l.status == Confermata && !l.paid
  }

  /** `Sum('prezzo')` over the owed lessons, `or 0`: a missing price adds nothing. */
  function Due(lessons: seq<Lesson>, student: nat): (total: int)
    ensures (forall l :: l in lessons ==> !Owed(l, student) || l.price.None?) ==> total == 0
  {
    if lessons == [] then 0
    else
      var last := lessons[|lessons| - 1];
      Due(lessons[..|lessons| - 1], student)
        + (if Owed(last, student) && last.price.Some? then last.price.value else 0)
  }

  /** `da_pagare` in `dashboard` */
  method AmountDue(lessons: seq<Lesson>, student: nat) returns (due: int)
    ensures due == Due(lessons, student)
  {
    due := 0;
    for i := 0 to |lessons|
      invariant due == Due(lessons[..i], student)
    {
      assert lessons[..i + 1][..i] == lessons[..i];
      var l := lessons[i];
      if l.student == student && l.status == Confermata && !l.paid && l.price.Some? {
        due := due + l.price.value;
      }
    }
    assert lessons[..|lessons|] == lessons;
  }

  /** Replacing one row changes the total by the difference of its contributions. */
  lemma {:induction false} DueAfterUpdate(lessons: seq<Lesson>, student: nat, id: nat, l: Lesson)
    requires id < |lessons|
    ensures var old_ := lessons[id];
            var part := (x: Lesson) => if Owed(x, student) && x.price.Some? then x.price.value else 0;
            Due(lessons[id := l], student) == Due(lessons, student) - part(old_) + part(l)
    decreases |lessons|
  {
    var n := |lessons|;
    var after := lessons[id := l];
    assert after[..n - 1] == if id < n - 1 then lessons[..n - 1][id := l] else lessons[..n - 1];
    if id < n - 1 {
      DueAfterUpdate(lessons[..n - 1], student, id, l);
    }
  }

  /** `pagata` settles exactly that lesson's share of what its student owes. */
  lemma MarkingPaidSettlesDue(lessons: seq<Lesson>, id: nat)
    requires id < |lessons|
    ensures var l := lessons[id];
            Due(lessons[id := Acted(l, Pagata)], l.student) ==
              Due(lessons, l.student) - (if Owed(l, l.student) && l.price.Some? then l.price.value else 0)
  {
    DueAfterUpdate(lessons, lessons[id].student, id, Acted(lessons[id], Pagata));
  }

  /** What is owed is never negative when every price is. */
  lemma {:induction false} DueNonNegative(lessons: seq<Lesson>, student: nat)
    requires forall l :: l in lessons && l.price.Some? ==> l.price.value >= 0
    ensures Due(lessons, student) >= 0
  {
    if lessons != [] {
      assert forall l :: l in lessons[..|lessons| - 1] ==> l in lessons;
      DueNonNegative(lessons[..|lessons| - 1], student);
      assert lessons[|lessons| - 1] in lessons;
    }
  }

  // ----------------------------------------------- upsert of weekly window

  /** `update_or_create(giorno=...)` on a table: replace that weekday's window, or add one. */
  function Upserted(table: seq<Availability>, day: int, from: int, until: int): (r: seq<Availability>)
    ensures forall w :: w in r ==> w == Availability(day, from, until) || w in table
  {
    if table == [] then [Availability(day, from, until)]
    else if table[0].day == day then [Availability(day, from, until)] + table[1..]
    else [table[0]] + Upserted(table[1..], day, from, until)
  }

  /** The upsert leaves the windows of every other weekday as they were. */
  lemma {:induction false} UpsertedKeepsOtherDays(table: seq<Availability>, day: int, from: int, until: int, d: int)
    requires d != day
    ensures WindowsOn(Upserted(table, day, from, until), d) == WindowsOn(table, d)
  {
    var w := Availability(day, from, until);
    if table == [] {
      assert WindowsOn([w], d) == [] + WindowsOn([], d);
    } else if table[0].day == day {
      assert ([w] + table[1..])[1..] == table[1..];
    } else {
      UpsertedKeepsOtherDays(table[1..], day, from, until, d);
      assert ([table[0]] + Upserted(table[1..], day, from, until))[1..] == Upserted(table[1..], day, from, until);
    }
  }

  /** After the upsert the weekday has exactly the new window. */
  lemma {:induction false} UpsertedSetsDay(table: seq<Availability>, day: int, from: int, until: int)
    requires UniqueDays(table)
    ensures WindowsOn(Upserted(table, day, from, until), day) == [Availability(day, from, until)]
  {
    var w := Availability(day, from, until);
    if table == [] {
      assert WindowsOn([w], day) == [w] + WindowsOn([], day);
    } else {
      TailHasOtherDays(table);
      if table[0].day == day {
        NoneOfDay(table[1..], day);
        assert ([w] + table[1..])[1..] == table[1..];
      } else {
        UpsertedSetsDay(table[1..], day, from, until);
        assert ([table[0]] + Upserted(table[1..], day, from, until))[1..] == Upserted(table[1..], day, from, until);
      }
    }
  }

  /** The upsert keeps one window per weekday. */
  lemma {:induction false} UpsertedStaysUnique(table: seq<Availability>, day: int, from: int, until: int)
    requires UniqueDays(table)
    ensures UniqueDays(Upserted(table, day, from, until))
  {
    var w := Availability(day, from, until);
    var r := Upserted(table, day, from, until);
    if table != [] {
      TailHasOtherDays(table);
      if table[0].day == day {
        forall i, j | 0 <= i < j < |r| ensures r[i].day != r[j].day {
          if i == 0 {
            assert r[j] in table[1..];
          } else {
            assert r[i] == table[i] && r[j] == table[j];
          }
        }
      } else {
        UpsertedStaysUnique(table[1..], day, from, until);
        var rest := Upserted(table[1..], day, from, until);
        forall i, j | 0 <= i < j < |r| ensures r[i].day != r[j].day {
          if i == 0 {
            assert r[j] in rest;
          } else {
            assert r[i] == rest[i - 1] && r[j] == rest[j - 1];
          }
        }
      }
    }
  }

  /** The position of a weekday's window in the table, or -1. */
  method FindDay(table: seq<Availability>, day: int) returns (i: int)
    ensures -1 <= i < |table|
    ensures i == -1 <==> forall w :: w in table ==> w.day != day
    ensures i >= 0 ==> table[i].day == day && forall k :: 0 <= k < i ==> table[k].day != day
  {
    i := 0;
    while i < |table|
      invariant 0 <= i <= |table|
      invariant forall k :: 0 <= k < i ==> table[k].day != day
    {
      if table[i].day == day {
        return;
      }
      i := i + 1;
    }
    i := -1;
  }

  /** The first row of the weekday found by a scan is where the upsert writes. */
  lemma {:induction false} UpsertedAt(table: seq<Availability>, day: int, from: int, until: int, i: int)
    requires -1 <= i < |table|
    requires i == -1 ==> forall w :: w in table ==> w.day != day
    requires i >= 0 ==> table[i].day == day && forall k :: 0 <= k < i ==> table[k].day != day
    ensures Upserted(table, day, from, until) ==
              if i == -1 then table + [Availability(day, from, until)]
              else table[i := Availability(day, from, until)]
  {
    if table != [] {
      if table[0].day == day {
        assert i == 0;
      } else {
        assert forall w :: w in table[1..] ==> w in table;
        UpsertedAt(table[1..], day, from, until, if i == -1 then -1 else i - 1);
        if i != -1 {
          assert [table[0]] + table[1..][i - 1 := Availability(day, from, until)]
              == table[i := Availability(day, from, until)];
        } else {
          assert [table[0]] + (table[1..] + [Availability(day, from, until)])
              == table + [Availability(day, from, until)];
        }
      }
    }
  }

  /** The weekly-window form of `dashboard_docente` (`update_or_create` on `giorno`). */
  method UpsertAvailability(db: Ledger, day: int, from: int, until: int)
    requires db.Valid()
    modifies db
    ensures db.Valid()
    ensures db.availability == Upserted(old(db.availability), day, from, until)
    ensures WindowsOn(db.availability, day) == [Availability(day, from, until)]
    ensures forall d :: d != day ==> WindowsOn(db.availability, d) == WindowsOn(old(db.availability), d)
    ensures db.lessons == old(db.lessons) && db.closures == old(db.closures)
  {
    var i := FindDay(db.availability, day);
    UpsertedAt(db.availability, day, from, until, i);
    UpsertedStaysUnique(db.availability, day, from, until);
    UpsertedSetsDay(db.availability, day, from, until);
    forall d | d != day
      ensures WindowsOn(Upserted(db.availability, day, from, until), d) == WindowsOn(db.availability, d)
    {
      UpsertedKeepsOtherDays(db.availability, day, from, until, d);
    }
    if i == -1 {
      db.availability := db.availability + [Availability(day, from, until)];
    } else {
      db.availability := db.availability[i := Availability(day, from, until)];
    }
  }

  // ------------------------------------------------- export_lezioni_csv

  /** The rows the export keeps: confirmed lessons whose date is within the optional bounds. */
  predicate Exportable(l: Lesson, since: Option<int>, until: Option<int>) {
    && l.status == Confermata
    && (since.Some? ==> DayOf(l.start) >= since.value)
    && (until.Some? ==> DayOf(l.start) <= until.value)
  }

  function Selected(lessons: seq<Lesson>, since: Option<int>, until: Option<int>): (r: seq<Lesson>)
    ensures multiset(r) <= multiset(lessons)
    ensures forall l :: multiset(r)[l] == if Exportable(l, since, until) then multiset(lessons)[l] else 0
    ensures forall l :: l in r <==> l in lessons && Exportable(l, since, until)
  {
    if lessons == [] then []
    else
      var rest := Selected(lessons[1..], since, until);
      assert lessons == [lessons[0]] + lessons[1..];
      if Exportable(lessons[0], since, until) then [lessons[0]] + rest else rest
  }

  /** The rows `export_lezioni_csv` writes, newest first (`order_by('-data_inizio')`). */
  function Exported(lessons: seq<Lesson>, since: Option<int>, until: Option<int>): (r: seq<Lesson>)
    ensures NewestFirst(r)
    ensures forall l :: l in r <==> l in lessons && Exportable(l, since, until)
    ensures multiset(r) <= multiset(lessons)
    ensures forall l :: multiset(r)[l] == if Exportable(l, since, until) then multiset(lessons)[l] else 0
  {
    var r := NewestFirstOf(Selected(lessons, since, until));
    assert forall l :: l in r <==> l in multiset(r);
    r
  }
}
