/*
 * The lesson admin (core/admin.py): `LezioneAdmin.save_model` compares the
 * stored state of an edited lesson with the new one to decide which e-mail,
 * if any, goes to the student, and then always saves the lesson.
 */
module Admin {
  import opened Models
  import Views

  /**
   * The mail `save_model` sends. `change` is true for an edit, `previous` is
   * the stored state (`None` when the old record is missing or on creation),
   * `current` the submitted state, `hasEmail` whether the student has an
   * address.
   */
  function Notification(change: bool, previous: Option<Status>, current: Status, hasEmail: bool): (n: Option<Notice>)
    ensures n.Some? ==> change && previous.Some? && hasEmail
  {
    if change && previous.Some? && hasEmail then
      if previous.value != Confermata && current == Confermata then Some(ConfirmationMail)
      else if previous.value != Rifiutata && current == Rifiutata then Some(RejectionMail)
      else None
    else None
  }

  /** A mail goes out exactly when an edit moves the lesson into a state other than RICHIESTA that it was not in. */
  lemma NotificationOnEntry(change: bool, previous: Option<Status>, current: Status, hasEmail: bool)
    ensures Notification(change, previous, current, hasEmail).Some? <==>
              change && previous.Some? && hasEmail && previous.value != current && current != Richiesta
    ensures Notification(change, previous, current, hasEmail) == Some(ConfirmationMail) ==> current == Confermata
    ensures Notification(change, previous, current, hasEmail) == Some(RejectionMail) ==> current == Rifiutata
  {
  }

  /** No mail on creation, for a missing old record, for a student without address, or when the state is unchanged. */
  lemma NoNotificationWithoutChange(change: bool, previous: Option<Status>, current: Status, hasEmail: bool)
    requires !change || previous.None? || !hasEmail || previous == Some(current)
    ensures Notification(change, previous, current, hasEmail) == None
  {
  }

  /** The stored state `save_model` compares against: looked up only for an edit. */
  function Previous(lessons: seq<Lesson>, change: bool, id: Option<nat>): (s: Option<Status>)
    ensures s.Some? <==> change && id.Some? && id.value < |lessons|
    ensures s.Some? ==> s.value == lessons[id.value].status
  {
    if change && id.Some? && id.value < |lessons| then Some(lessons[id.value].status) else None
  }

  /**
   * `LezioneAdmin.save_model`: decide the mail from the old and new state,
   * then save the submitted lesson whichever branch was taken.
   */
  method SaveModel(db: Ledger, id: Option<nat>, obj: Lesson, change: bool, hasEmail: bool) returns (n: Option<Notice>)
    requires db.Valid()
    modifies db
    ensures db.Valid()
    ensures n == Notification(change, Previous(old(db.lessons), change, id), obj.status, hasEmail)
    ensures db.lessons == if id.Some? && id.value < |old(db.lessons)|
                          then old(db.lessons)[id.value := Priced(obj)]
                          else old(db.lessons) + [Priced(obj)]
    ensures db.availability == old(db.availability) && db.closures == old(db.closures)
  {
    n := None;
    if change {
      var previous: Option<Status> := None;
      if id.Some? && id.value < |db.lessons| {
        previous := Some(db.lessons[id.value].status);
      }
      if previous.Some? && hasEmail {
        if previous.value != Confermata && obj.status == Confermata {
          n := Some(ConfirmationMail);
        } else if previous.value != Rifiutata && obj.status == Rifiutata {
          n := Some(RejectionMail);
        }
      }
    }
    var _ := db.Save(id, obj);
  }

  /**
   * The two ways of confirming disagree on a lesson that is already
   * confirmed: the `accetta` action mails the student again, the admin does
   * not.
   */
  lemma ReconfirmingMailsOnlyThroughTheView()
    ensures Views.ActionNotice(Views.Accetta, true) == Some(ConfirmationMail)
    ensures Notification(true, Some(Confermata), Confermata, true) == None
  {
  }
}
