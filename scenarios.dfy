/*
 * Client code: requests issued to a fresh ledger, showing what callers can
 * conclude from the contracts alone.
 */
module Scenarios {
  import opened Models
  import opened Forms
  import opened Views
  import Admin

  /**
   * Monday (day 7) 14:30 for 1.5 hours at BASE costs 15.00. The closure of
   * that Monday does not stop it: the form never reads the closures.
   */
  method BookingOnAClosedMonday() {
    var db := new Ledger();
    db.closures := [Closure(7, 7, "Ferie")];
    var t := HM(14, 30);
    assert t in Timetable[0];
    OfferedIsAChoice(t, 0);
    assert DurataField(15) == Some(15);
    var booked := Book(db, 1, 7, t, 15, Base, "", 0);
    assert booked == BookedOk(0);
    var l := db.lessons[0];
    assert l == Priced(NewLesson(1, At(7, t), Some(15), Some(Base), ""));
    assert l.price == Some(1500) && l.status == Richiesta && !l.paid;
  }

  /** With that lesson stored, a one-hour request at 15:00 overlaps it and is refused. */
  method OverlappingRequestIsRefused() {
    var db := new Ledger();
    var l := Priced(NewLesson(1, At(7, HM(14, 30)), Some(15), Some(Base), ""));
    db.lessons := [l];
    var t := HM(15, 0);
    assert t in Timetable[0];
    OfferedIsAChoice(t, 0);
    assert DurataField(10) == Some(10);
    assert l in db.lessons && IsActive(l) && Overlaps(At(7, t), At(7, t) + 60, l);
    var second := Book(db, 2, 7, t, 10, Base, "", 0);
    assert second.BookedErr? && db.lessons == [l];
  }

  /** A hundred-hour request is a field error whatever the table holds. */
  method HundredHoursIsAFieldError() {
    var db := new Ledger();
    var t := HM(14, 30);
    assert t in Timetable[0];
    OfferedIsAChoice(t, 0);
    var r := Book(db, 1, 7, t, 1000, Base, "", 0);
    assert r == BookedErr(BadDuration) && db.lessons == [];
  }

  /** A one-hour Tuesday lesson at RUFINA costs 10.00 plus the 2.00 surcharge. */
  method BookingAtRufina() {
    var db := new Ledger();
    var t := HM(9, 0);
    assert Weekday(8) == 1 && t in Timetable[1];
    OfferedIsAChoice(t, 1);
    assert DurataField(10) == Some(10);
    assert !Clashes(db.lessons, At(8, t), At(8, t) + 60);
    var booked := Book(db, 3, 8, t, 10, Rufina, "", 0);
    assert booked == BookedOk(0);
    var l := db.lessons[0];
    assert l == Priced(NewLesson(3, At(8, t), Some(10), Some(Rufina), ""));
    assert l.price == Some(1200) && l.status == Richiesta;
  }

  /** Accepting a request mails the student; marking it paid keeps it confirmed and its price. */
  method ConfirmAndPay() {
    var db := new Ledger();
    var request := Priced(NewLesson(3, At(8, HM(9, 0)), Some(10), Some(Rufina), ""));
    db.lessons := [request];
    var accepted := Manage(db, 0, Accetta, true);
    assert accepted == Done(Some(ConfirmationMail));
    assert db.lessons[0].status == Confermata && db.lessons[0].price == request.price;
    var paid := Manage(db, 0, Pagata, true);
    assert paid == Done(None);
    assert db.lessons[0].paid && db.lessons[0].status == Confermata;
  }

  /** Saving a confirmed lesson as confirmed again from the admin sends nothing; an action on an unknown id changes nothing. */
  method AdminReconfirmation() {
    var db := new Ledger();
    var l := Priced(Lesson(3, 11580, 10, Base, Confermata, None, false, ""));
    db.lessons := [l];
    var mail := Admin.SaveModel(db, Some(0), l, true, true);
    assert mail == None;
    var missing := Manage(db, 5, Rifiuta, true);
    assert missing == NoSuchLesson;
  }
}
