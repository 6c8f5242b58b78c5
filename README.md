# fg-ripetizioni lesson booking, modelled in Dafny

A private tutor's booking app. Students ask for lessons (`Lezione`) at a
date, a start time, a duration (`durata_ore`, in hours with one decimal) and
a location (`luogo`). A request starts in state RICHIESTA. The tutor moves
it to CONFERMATA or RIFIUTATA, or marks it paid (`pagata`). Each save of a
lesson recomputes its price (`prezzo`) from the duration and a location
surcharge. The tutor also keeps one weekly window per weekday
(`Disponibilita`) and closure periods (`GiornoChiusura`). Students see the
free start times of a date and the total they still owe.

The project holds five modules:

- `Models` (`models.dfy`): the lesson row, the price rule of `Lezione.save`,
  the default newest-first order, and the `Ledger` class. A `Ledger` holds the
  three tables as sequences. Its `Valid()` says there is at most one window
  per weekday and every stored lesson carries the price its own fields give.
- `Forms` (`forms.dfy`): the fixed weekly timetable `ORARI_SETTIMANALI`, the
  choice list `TUTTI_ORARI`, and the checks of `PrenotazioneForm.clean` and
  `save`.
- `Views` (`views.dfy`): `get_orari_disponibili` (free start times),
  `prenota` (booking), `gestisci_lezione` (tutor actions), the weekly window
  upsert of `dashboard_docente`, the amount due of `dashboard`, and the row
  selection of `export_lezioni_csv`.
- `Admin` (`admin.dfy`): `LezioneAdmin.save_model`, which picks the mail to
  send from the old and new state.
- `Scenarios` (`scenarios.dfy`): client methods that issue requests to a fresh
  `Ledger` and assert what the contracts guarantee about the outcome.

Representation. An instant is an integer number of minutes. A date is an
integer day number; day 0 is a Monday, so `day % 7` is Python's `weekday()`.
A time of day is minutes after midnight, so `'14:30'` is 870. A duration is
an integer count of tenths of an hour (6 minutes each); `1.5` hours is 15.
Money is integer cents. A student is a `nat` id. A lesson's id is its index
in the `Lezione` table. E-mails are returned as a `Notice` value instead of
being sent.

The model follows the code, including these behaviours that are easy to
misread:

- The price is recomputed on every save with a hard-coded tariff of 10.00
  per hour. The configurable `tariffa_base` setting is never read, and a
  saved price is not kept as a snapshot.
- Besides refusing a start in the past, the booking form reads only the
  fixed timetable and the active lessons. It never reads `GiornoChiusura` or `Disponibilita`, and it never
  checks that a lesson ends inside the window. So a closed day can be booked
  (`Scenarios.BookingOnAClosedMonday`).
- A duration of 0 is false in Python, so `clean` skips every check. `save`
  then fails on the missing computed start. `Book` reports this as
  `NoComputedStart`.
- The `min`/`max` bounds on the duration exist only in the HTML widget. The
  server enforces only the column's digits (at most 99.9 hours either way).
  It accepts negative durations, and then the price is negative.
- `accetta` and `rifiuta` have no guard on the prior state.
  `accetta` can re-activate a rejected lesson on top of another one
  (`Views.AcceptingARejectedLessonCanDoubleBook`).
- The `accetta` view mails the student every time. The admin mails only when
  the state changes (`Admin.ReconfirmingMailsOnlyThroughTheView`).
- The conflict query uses the table's default order, newest first. So the
  "Orario occupato" message names the overlapping lesson that starts latest.
- The free-slot listing tests only whether a lesson holds the slot's start
  instant. The form tests overlap of the whole interval. A listed start can
  still be refused (`Views.ListedStartCanStillClash`). A start that passes
  the form is held by no active lesson of non-zero length
  (`Views.PassedStartIsNotHeld`). It can still be missing from the listing
  in three cases:
  - a zero-length lesson holds an hour in the listing but nothing in the
    form (`Views.ZeroLengthLessonHidesAStart`);
  - a closure empties the listing;
  - the listing reads the `Disponibilita` window, while the form reads the
    fixed timetable.

The model classes `Disponibilita` and `GiornoChiusura` are not part of this
model. Their fields (`giorno`, `ora_inizio`, `ora_fine`; `data_inizio`,
`data_fine`, `motivo`) are taken from their uses in `core/views.py`.

## Model

| member | source | states |
|---|---|---|
| Models.NewLesson | core/models.py:15-31 | a new lesson has the given student, start and note; the duration and place given, or the declared defaults (1 hour, BASE); state RICHIESTA, unpaid, no price; and it is active |
| Models.Surcharge | core/models.py:36-44 | the surcharge is 0 exactly for BASE and ALTRO, and never above 8.00 |
| Models.Priced | core/models.py:46-48 | saving always sets a price and changes no other field |
| Models.Price | core/models.py:34-48 | the price is exactly 10.00 per hour plus the surcharge, with no rounding (1.00 per tenth of an hour) |
| Models.PriceNonNegative | core/models.py:47-48 | a lesson of non-negative length costs at least its surcharge, which is at least 0 |
| Models.PriceMonotone | core/models.py:47-48 | at a fixed place, each extra tenth of an hour adds exactly 1.00, so longer never costs less |
| Models.SurchargeGrowsWithDistance | core/models.py:36-44 | BASE and ALTRO cost the same; RUFINA < FASCIA_15 < FASCIA_30 at every duration |
| Models.PriceFitsColumn | core/models.py:18-29 | every duration the `durata_ore` column can hold gives a price the `prezzo` column can hold |
| Models.SaveIsIdempotent | core/models.py:33-50 | saving twice gives the same row as saving once, and a saved row carries its own price |
| Models.SaveOverwritesPrice | core/models.py:33-50 | the price held before a save has no effect on the saved row |
| Models.InsertKeepsNewestFirst | core/models.py:57 | inserting a lesson into a newest-first list keeps it newest first |
| Models.NewestFirstOf | core/models.py:57 | the default order is newest first and a permutation of the rows |
| Models.Ledger.Valid | core/models.py:33-50 | in a valid ledger every stored lesson has a price, and no two availability rows share a weekday |
| Models.Ledger.Save | core/models.py:33-50 | the row is stored priced, updating the row of a known id or appending otherwise; the returned index holds it; other tables unchanged; the ledger stays valid |
| Forms.TimetableShape | core/forms.py:10-16 | `ORARI_SETTIMANALI` has lessons on Monday to Friday only, and each weekday's times ascend on the half hour between 9:00 and 19:00 |
| Forms.Flatten | core/forms.py:18 | the flattened lists hold exactly the times of the given weekdays |
| Forms.SortUnique | core/forms.py:18 | `sorted(set(...))` is strictly increasing and keeps exactly the same members |
| Forms.AllTimesIsSortedUnion | core/forms.py:18-19 | `TUTTI_ORARI` is strictly increasing and holds exactly the times offered on some weekday |
| Forms.OfferedIsAChoice | core/forms.py:18-19 | every time of a weekday's list is one of the form's choices |
| Forms.OraField | core/forms.py:40-44 | the `ora` field accepts a value exactly when some weekday offers it, and keeps it unchanged |
| Forms.DurataField | core/models.py:18-19 | the form's `durata_ore` field accepts exactly the durations of at most 99.9 hours either way, and keeps them unchanged |
| Forms.Conflicts | core/forms.py:78-81 | the conflict query returns exactly the active lessons starting before the requested end |
| Forms.PrefilterIsHarmless | core/forms.py:78-85 | the query's pre-filter loses no clash: an overlapping row is found in the ordered query exactly when the table has one |
| Forms.FirstClash | core/forms.py:83-87 | the loop finds a lesson exactly when one overlaps; the one found is in the query, overlaps, and starts no earlier than any other overlapping one |
| Forms.ClashReport | core/forms.py:78-87 | over the whole table: a clash is reported exactly when an active lesson overlaps, and the one reported is active, overlapping, and starts no earlier than any other |
| Forms.Clean | core/forms.py:55-91 | incomplete data or zero duration skips the checks; otherwise in order: past start, weekday without lessons, time not offered that weekday, then refused exactly when an active lesson overlaps, naming the latest-starting one; a pass carries the computed start |
| Forms.FormSave | core/forms.py:93-98 | a lesson is built exactly when `clean` computed a start, and it starts there with the form's fields; otherwise the save fails |
| Views.ClosureOn | core/views.py:81-84 | a closure is found exactly when some closure range covers the date, and the one found covers it |
| Views.ClosedReason | core/views.py:86-87 | the reason shown is never empty: the closure's own when it has one, "Chiuso" otherwise |
| Views.WindowsOn | core/views.py:91-94 | the windows of a weekday are exactly the table rows of that weekday |
| Views.UniqueWindow | core/views.py:91-94 | with one window per weekday in the table, the lookup finds at most one |
| Views.Candidates | core/views.py:96-102 | every candidate lies in the window; there are candidates exactly when the window is not empty, and the first is its start |
| Views.CandidatesAre | core/views.py:96-102 | the candidate times are window start + 30k, ascending, for exactly the k where that is before the window end |
| Views.ActiveOn | core/views.py:104-107 | the lessons read are exactly the active lessons starting on that date |
| Views.SlotTenths | core/views.py:116 | the slot check treats a zero duration as one hour and keeps any other |
| Views.Occupied | core/views.py:110-121 | the inner loop reports occupied exactly when some lesson of the day holds the instant |
| Views.FreeAmong | core/views.py:109-125 | the free times are drawn from the candidates and are no more numerous |
| Views.FreeAmongMembers | core/views.py:109-125 | a candidate is listed exactly when no lesson of the day holds its instant |
| Views.FreeAmongAscends | core/views.py:109-125 | the listed times keep the candidates' ascending order |
| Views.SlotsFor | core/views.py:71-130 | the answer is "choose a date" exactly for a missing date, "invalid" exactly for a malformed one, "closed" exactly when a closure covers the date, with the reason of one such closure, "no lessons" exactly when no closure applies and the weekday has no window; a listing is never empty |
| Views.FreeSlots | core/views.py:71-130 | the handler answers what `SlotsFor` describes: missing date, invalid date, closed, no window, several windows, fully booked, or the free times |
| Views.ClosureWins | core/views.py:81-87 | a date inside any closure range is answered as closed, whatever the windows and lessons, with the reason of a closure covering that date: its `motivo`, or "Chiuso" when that is empty |
| Views.ListedSlots | core/views.py:96-130 | when times are listed, they are ascending, and a time is listed exactly when it is window start + 30k before the window end and no active lesson of that date holds it |
| Views.FullyBookedSlots | core/views.py:104-128 | with no closure and one window, "Tutto occupato!" is answered exactly when every candidate time is held by an active lesson of that date |
| Views.PassedStartIsNotHeld | core/views.py:114-121 | the start of a request of positive length that passed the clash check is held by no active lesson of non-zero length |
| Views.ZeroLengthLessonHidesAStart | core/views.py:114-121 | a zero-length confirmed lesson does not clash with a request at its start, yet the listing counts it as holding that start |
| Views.ListedStartCanStillClash | core/views.py:119 | a start time that the listing shows can still be refused by the form's overlap check |
| Views.MondayListing | core/views.py:96-130 | a Monday window 14:30-19:00 with a confirmed 15:00-16:00 lesson lists every half hour but 15:00 and 15:30 |
| Views.Book | core/views.py:34-51 | a time that is not a choice, a duration over 99.9 hours either way, a zero duration, or a refusal by `clean` leaves the table unchanged; otherwise exactly one priced RICHIESTA lesson is appended; for an offered time and a non-zero duration within the field's digits, acceptance happens exactly when the start is not past, the weekday offers the time and no active lesson overlaps; no double booking is created |
| Views.NewLessonCollidesWithNone | core/forms.py:78-89 | appending a lesson that passed the clash check keeps every pair of active lessons apart |
| Views.Target | core/views.py:242-262 | only `accetta` and `rifiuta` change the state: `accetta` to CONFERMATA, `rifiuta` to RIFIUTATA, never back to RICHIESTA |
| Views.ActionNotice | core/views.py:248-270 | a mail goes out exactly for `accetta`/`rifiuta` with a student address; a confirmation exactly for `accetta` |
| Views.Acted | core/views.py:242-275 | `accetta`/`rifiuta` set the state whatever it was, `pagata` sets paid only, other actions change nothing |
| Views.Manage | core/views.py:238-278 | an unknown id changes nothing; otherwise only that row changes, by the action, and the mail is the action's |
| Views.AcceptingARejectedLessonCanDoubleBook | core/views.py:242-244 | accepting a rejected lesson can turn a table without double bookings into one with two active lessons at the same time |
| Views.Due | core/views.py:26 | a student with no confirmed, unpaid, priced lesson owes 0 |
| Views.AmountDue | core/views.py:26 | the total is the sum of prices of the student's confirmed unpaid lessons |
| Views.DueAfterUpdate | core/views.py:26 | changing one row changes the total by exactly the difference of that row's share |
| Views.MarkingPaidSettlesDue | core/views.py:273-275 | `pagata` lowers what the student owes by exactly that lesson's share |
| Views.DueNonNegative | core/views.py:26 | with non-negative prices, the amount due is never negative |
| Views.Upserted | core/views.py:178-184 | every window after the upsert is the new one or was already there |
| Views.UpsertedKeepsOtherDays | core/views.py:178-184 | the upsert leaves every other weekday's windows unchanged |
| Views.UpsertedSetsDay | core/views.py:178-184 | after the upsert the weekday has exactly the new window |
| Views.UpsertedStaysUnique | core/views.py:178-184 | the upsert keeps one window per weekday |
| Views.FindDay | core/views.py:178-184 | the scan returns -1 exactly when no row has the weekday, otherwise the first row that has it |
| Views.UpsertedAt | core/views.py:178-184 | the upsert writes over the first row of the weekday, or appends when there is none |
| Views.UpsertAvailability | core/views.py:174-184 | the weekday's window becomes exactly the new one, other weekdays and tables are unchanged, and the ledger stays valid |
| Views.Selected | core/views.py:295-300 | the export keeps exactly the confirmed lessons whose date is within the given bounds, each as often as it is stored, and nothing else |
| Views.Exported | core/views.py:295-302 | the exported rows are those, with the same multiplicities, newest first |
| Admin.Notification | core/admin.py:43-69 | a mail is sent only on an edit, with a stored old record and a student address |
| Admin.NotificationOnEntry | core/admin.py:50-69 | a mail goes out exactly when the edit moves the lesson into CONFERMATA or RIFIUTATA from another state; a confirmation only into CONFERMATA, a rejection only into RIFIUTATA |
| Admin.NoNotificationWithoutChange | core/admin.py:43-50 | no mail on creation, without an old record, without an address, or when the state is unchanged |
| Admin.Previous | core/admin.py:43-48 | the old state is looked up only for an edit of a stored row, and is that row's state |
| Admin.SaveModel | core/admin.py:42-71 | the mail is the one `Notification` gives for the stored and the submitted state, and the lesson is saved in every case |
| Admin.ReconfirmingMailsOnlyThroughTheView | core/admin.py:53 | re-confirming a confirmed lesson mails the student through `accetta` but not through the admin |

## Left out

- Sending e-mail (`invia_email_custom` in `core/utils.py`): the model returns the mail kind as a `Notice`. Its contents, templates, recipients and failures are not modelled. The mail `prenota` sends to the tutor on every booking is not modelled.
- HTML rendering, flash messages, redirects, login and staff checks: the handlers return values instead.
- The database itself: transactions, concurrency, and the race between the conflict check and the insert are not modelled. Two simultaneous requests can both pass `clean`.
- `Models.Ledger.Save`: an id that names no stored row appends the row at the next index. Django would insert it under that primary key.
- `Views.Manage`: an unknown id is a `NoSuchLesson` result. The view raises `Lezione.DoesNotExist` (a server error).
- `Models.Ledger.Valid`: the one-window-per-weekday part holds for the upsert of `dashboard_docente`. A second window added through the admin site is not modelled; `SlotsFor` answers `ManyWindows` for it, as `Disponibilita.objects.get` would raise.
- Time zones, daylight saving, and `strptime` parsing: dates, times and instants are plain integers. A malformed date is given as `Malformed`.
- The decimal digit limits of `durata_ore` and `prezzo` are modelled only for the booking form (`Forms.DurataField`). The admin's change form refuses such durations too. `Admin.SaveModel` takes the submitted row as already validated and does not model that check. A row written by `save()` from code is not limited. `Models.PriceFitsColumn` shows the price fits whenever the duration does.
- `Views.Exported`: the CSV text (date formats, comma decimals, "SI"/"NO") is not modelled, only which rows are written and their order.
- The dashboard queries `richieste`, `future`, `guadagno` and `chiusure_future` are plain filters whose results are only displayed; not modelled.
- Editing the tariff setting (`Impostazioni`), adding closures (`ChiusuraForm`), and deleting windows or closures (`elimina_disponibilita`, `elimina_chiusura`): not modelled. The tariff is never read by the price rule. Their validation is not modelled.
- `RegistrazioneForm`, `registrazione` and `profilo_view`: account management, not lesson booking.
- `get_google_calendar_url` and the forms `ProfiloForm`, `ChiusuraForm`, `DisponibilitaForm` and `ImpostazioniForm` are not modelled.
