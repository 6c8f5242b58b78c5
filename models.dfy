/*
 * The data of the tutoring app (core/models.py): the lesson record `Lezione`
 * with its location and state enumerations, the price rule applied by
 * `Lezione.save`, the weekly availability and closure records, and the
 * tables themselves, held by a `Ledger`.
 *
 * Representation: an instant is an integer count of minutes; a date is an
 * integer day number counted from a Monday, so that day 0 is a Monday and
 * `d % 7` is Python's `date.weekday()` (0 = Monday .. 6 = Sunday); a time of
 * day is minutes after midnight. A duration `durata_ore` is a decimal with one
 * decimal place, held as an integer count of tenths of an hour (6 minutes
 * each). Money is held in integer cents.
 */
module Models {

  datatype Option<T> = None | Some(value: T)

  const MinutesPerDay: int := 1440
  const MinutesPerTenth: int := 6

  /** The date an instant falls on. */
  function DayOf(instant: int): int {
    instant / MinutesPerDay
  }

  /** Python's `weekday()` of a day number: 0 = Monday .. 6 = Sunday. */
  function Weekday(day: int): (w: int)
    ensures 0 <= w < 7
  {
    day % 7
  }

  /** `datetime.combine(date, time)`: the instant of a time of day on a date. */
  function At(day: int, time: int): int {
    day * MinutesPerDay + time
  }

  /** `Lezione.LUOGO_SCELTE` */
  datatype Place = Base | Rufina | Fascia15 | Fascia30 | Altro

  /** `Lezione.STATO_SCELTE`: the only three values `stato` can take. */
  datatype Status = Richiesta | Confermata | Rifiutata

  /** The e-mails the app sends to a student when a lesson's state changes. */
  datatype Notice = ConfirmationMail | RejectionMail

  /**
   * One row of the `Lezione` table. `tenths` is `durata_ore` in tenths of an
   * hour, `price` is `prezzo` in cents (`None` until the first save), `note`
   * is the free text (an absent note is the empty string).
   */
  datatype Lesson = Lesson(
    student: nat,
    start: int,
    tenths: int,
    place: Place,
    status: Status,
    price: Option<int>,
    paid: bool,
    note: string)

  /** A `Disponibilita` row: the lesson window of one weekday. */
  datatype Availability = Availability(day: int, from: int, until: int)

  /** A `GiornoChiusura` row: dates `first..last` (inclusive) are closed. */
  datatype Closure = Closure(first: int, last: int, reason: string)

  /** The lessons that still hold their time: state RICHIESTA or CONFERMATA. */
  predicate IsActive(l: Lesson) {
    l.status == Richiesta || l.status == Confermata
  }

  /** The end of a lesson: its start plus `durata_ore` hours. */
  function End(l: Lesson): int {
    l.start + MinutesPerTenth * l.tenths
  }

  /**
   * A new, unsaved lesson: the fields given, and the declared defaults for
   * those left out (one hour, BASE, RICHIESTA, not paid, no price yet).
   */
  function NewLesson(student: nat, start: int, tenths: Option<int>, place: Option<Place>, note: string): (l: Lesson)
    ensures l.status == Richiesta && !l.paid && l.price == None
    ensures IsActive(l)
    ensures l.tenths == (if tenths.Some? then tenths.value else 10)
    ensures l.place == (if place.Some? then place.value else Base)
    ensures l.student == student && l.start == start && l.note == note
  {
    Lesson(student, start, if tenths.Some? then tenths.value else 10,
           if place.Some? then place.value else Base, Richiesta, None, false, note)
  }

  // ---------------------------------------------------------------- pricing

  /** `TARIFFA_BASE`, 10.00 per hour, in cents. */
  const TariffCents: int := 1000

  /** The travel surcharge of a location, in cents. */
  function Surcharge(p: Place): (c: int)
    ensures c == 0 <==> p == Base || p == Altro
    ensures 0 <= c <= 800
  {
    match p
    case Rufina => 200
    case Fascia15 => 400
    case Fascia30 => 800
    case _ => 0
  }

  /**
   * The price `Lezione.save` stores: tariff times hours plus the surcharge.
   * The tariff is a whole number of cents divisible by ten, so the division
   * by ten (tenths to hours) is exact.
   */
  function Price(tenths: int, place: Place): (p: int)
    ensures 10 * p == TariffCents * tenths + 10 * Surcharge(place)
    ensures p == 100 * tenths + Surcharge(place)
  {
    assert TariffCents * tenths == 10 * (100 * tenths);
    TariffCents * tenths / 10 + Surcharge(place)
  }

  /** The row as it is after `Lezione.save` recomputes its price. */
  function Priced(l: Lesson): (r: Lesson)
    ensures r.price.Some?
    ensures r.(price := l.price) == l
  {
    l.(price := Some(Price(l.tenths, l.place)))
  }

  predicate HasOwnPrice(l: Lesson) {
    l.price == Some(Price(l.tenths, l.place))
  }

  /** A lesson of non-negative length never costs less than its surcharge, nor less than zero. */
  lemma PriceNonNegative(tenths: int, place: Place)
    requires tenths >= 0
    ensures Price(tenths, place) >= Surcharge(place) >= 0
  {
  }

  /** A longer lesson at the same place costs more: 1.00 per extra tenth of an hour. */
  lemma PriceMonotone(t1: int, t2: int, place: Place)
    requires t1 <= t2
    ensures Price(t2, place) - Price(t1, place) == 100 * (t2 - t1)
    ensures Price(t1, place) <= Price(t2, place)
  {
  }

  /** Farther zones are never cheaper: BASE = ALTRO < RUFINA < FASCIA_15 < FASCIA_30. */
  lemma SurchargeGrowsWithDistance(tenths: int)
    ensures Price(tenths, Base) == Price(tenths, Altro)
    ensures Price(tenths, Base) < Price(tenths, Rufina) < Price(tenths, Fascia15) < Price(tenths, Fascia30)
  {
  }

  /**
   * `durata_ore` has at most three digits (|d| <= 99.9), `prezzo` at most six
   * with two decimals (|p| <= 9999.99): every price the rule produces fits.
   */
  lemma PriceFitsColumn(tenths: int, place: Place)
    requires -999 <= tenths <= 999
    ensures -999999 <= Price(tenths, place) <= 999999
  {
  }

  /** Saving twice with unchanged fields gives the same row as saving once. */
  lemma SaveIsIdempotent(l: Lesson)
    ensures Priced(Priced(l)) == Priced(l)
    ensures HasOwnPrice(Priced(l))
  {
  }

  /** Saving overwrites whatever price the row held before. */
  lemma SaveOverwritesPrice(l: Lesson, p: Option<int>)
    ensures Priced(l.(price := p)) == Priced(l)
  {
  }

  // --------------------------------------------------------------- ordering

  predicate NewestFirst(s: seq<Lesson>) {
    forall i, j :: 0 <= i < j < |s| ==> s[i].start >= s[j].start
  }

  /** In a newest-first list, the head starts no earlier than any later row. */
  lemma HeadIsNewest(s: seq<Lesson>)
    requires NewestFirst(s) && s != []
    ensures NewestFirst(s[1..])
    ensures forall y :: y in s[1..] ==> s[0].start >= y.start
  {
    forall y | y in s[1..] ensures s[0].start >= y.start {
      var k :| 0 <= k < |s[1..]| && s[1..][k] == y;
      assert s[k + 1] == y;
    }
  }

  lemma PrependNewest(x: Lesson, s: seq<Lesson>)
    requires NewestFirst(s)
    requires forall y :: y in s ==> x.start >= y.start
    ensures NewestFirst([x] + s)
  {
    forall i, j | 0 <= i < j < |[x] + s| ensures ([x] + s)[i].start >= ([x] + s)[j].start {
      if i == 0 {
        assert ([x] + s)[j] in s;
      } else {
        assert ([x] + s)[i] == s[i - 1] && ([x] + s)[j] == s[j - 1];
      }
    }
  }

  /** Places a lesson in a newest-first list, before the first one that starts no later. */
  function InsertNewestFirst(l: Lesson, s: seq<Lesson>): (r: seq<Lesson>)
    ensures multiset(r) == multiset(s) + multiset{l}
  {
    if s == [] || l.start >= s[0].start then [l] + s
    else
      assert s == [s[0]] + s[1..];
      [s[0]] + InsertNewestFirst(l, s[1..])
  }

  lemma {:induction false} InsertKeepsNewestFirst(l: Lesson, s: seq<Lesson>)
    requires NewestFirst(s)
    ensures NewestFirst(InsertNewestFirst(l, s))
  {
    if s == [] {
    } else if l.start >= s[0].start {
      HeadIsNewest(s);
      PrependNewest(l, s);
    } else {
      HeadIsNewest(s);
      var rest := InsertNewestFirst(l, s[1..]);
      InsertKeepsNewestFirst(l, s[1..]);
      forall y | y in rest ensures s[0].start >= y.start {
        assert y in multiset(rest);
        assert y == l || y in multiset(s[1..]);
      }
      PrependNewest(s[0], rest);
    }
  }

  /** The rows in the table's default order, `ordering = ['-data_inizio']`: newest first. */
  function NewestFirstOf(s: seq<Lesson>): (r: seq<Lesson>)
    ensures NewestFirst(r)
    ensures multiset(r) == multiset(s)
    ensures forall x :: x in r <==> x in s
  {
    if s == [] then []
    else
      assert s == [s[0]] + s[1..];
      InsertKeepsNewestFirst(s[0], NewestFirstOf(s[1..]));
      var r := InsertNewestFirst(s[0], NewestFirstOf(s[1..]));
      assert forall x :: x in r <==> x in multiset(r);
      r
  }

  // ----------------------------------------------------------------- tables

  predicate UniqueDays(table: seq<Availability>) {
    forall i, j :: 0 <= i < j < |table| ==> table[i].day != table[j].day
  }

  predicate AllPriced(lessons: seq<Lesson>) {
    forall i :: 0 <= i < |lessons| ==> HasOwnPrice(lessons[i])
  }

  /**
   * The persisted tables: `Lezione` (a lesson's id is its index),
   * `Disponibilita` and `GiornoChiusura`.
   */
  class Ledger {
    var lessons: seq<Lesson>
    var availability: seq<Availability>
    var closures: seq<Closure>

    /** At most one window per weekday; every stored lesson carries the price its fields give. */
    ghost predicate Valid()
      reads this
      ensures Valid() ==> forall i :: 0 <= i < |lessons| ==> lessons[i].price.Some?
      ensures Valid() ==> forall i, j :: 0 <= i < j < |availability| ==> availability[i].day != availability[j].day
    {
      UniqueDays(availability) && AllPriced(lessons)
    }

    constructor ()
      ensures Valid()
      ensures lessons == [] && availability == [] && closures == []
    {
      lessons, availability, closures := [], [], [];
    }

    /**
     * `Lezione.save`: recompute the price from the duration and the place,
     * then write the row; an id naming a stored row updates it, no id (or an
     * unknown one) inserts a new row.
     */
    method Save(id: Option<nat>, l: Lesson) returns (saved: nat)
      requires Valid()
      modifies this
      ensures Valid()
      ensures lessons == if id.Some? && id.value < |old(lessons)|
                         then old(lessons)[id.value := Priced(l)]
                         else old(lessons) + [Priced(l)]
      ensures saved < |lessons| && lessons[saved] == Priced(l)
      ensures saved == if id.Some? && id.value < |old(lessons)| then id.value else |old(lessons)|
      ensures availability == old(availability) && closures == old(closures)
    {
      var extra := 0;
      if l.place == Rufina {
        extra := 200;
      } else if l.place == Fascia15 {
        extra := 400;
      } else if l.place == Fascia30 {
        extra := 800;
      } else if l.place == Altro {
        extra := 0;
      }
      var cost := TariffCents * l.tenths / 10;
      var row := l.(price := Some(cost + extra));
      assert row == Priced(l);
      if id.Some? && id.value < |lessons| {
        saved := id.value;
        lessons := lessons[saved := row];
      } else {
        saved := |lessons|;
        lessons := lessons + [row];
      }
    }
  }
}
