# GoBarber appointment controller, modelled in Dafny

This project models the booking rules of GoBarber's `AppointmentController`:
customers book appointments with service providers, list their own active
appointments page by page, and cancel them.

- `dates.dfy` (module `Dates`): the date-fns helpers the controller uses, on
  timestamps in milliseconds. `StartOfHour(t)` is `t - t % 3600000`.
  `SubHours(t, h)` is `t - h * 3600000`. `isBefore(a, b)` is `a < b`.
- `appointments.dfy` (module `Appointments`): the appointment row, the
  notification, the cancellation-mail job, the request body, the rules a
  request can break with their HTTP status, and the ordered rejection chains
  of booking (`StoreRejection`) and cancellation (`CancelRejection`). It also
  holds the filter, date order and page window used by the listing, and the
  lemmas about these rules.
- `controller.dfy` (module `Controller`): class `AppointmentController` with
  the in-memory store: the appointment table, the set of provider user ids,
  the notification log and the job queue. `Store` and `Delete` are methods
  that change this state. `Index` is a function that reads it. A client
  method, `BookAndCancel`, books tomorrow at 10:00 and then tries to cancel one
  hour before and three hours before. After the second attempt cancels the
  appointment, another customer books the freed 10:00 slot of the same provider.

The caller's id (set by the authentication middleware) and the current time
are parameters of every operation.

The class invariant `Valid()` says two things. Ids are the table positions
plus one: ids auto-increment and rows are never deleted. And no provider has
two active appointments at the same on-the-hour instant. `Store` and `Delete`
keep it.

Behaviour of the code that the model keeps as written:

- The availability check (lines 85-98) is meant to keep one active appointment
  per provider and hour. It compares stored dates with the start of the
  requested hour, but the insert (lines 100-104) stores the raw requested date.
  So active appointments stay unique per provider only for dates exactly on
  the hour. `OffHourDoubleBooking` exhibits two accepted bookings of provider 2
  at 10:30 that leave two active appointments at the same instant.
  `SameHourDoubleBooking` exhibits bookings of provider 2 at 10:30 and then at
  10:00: the second check looks for a stored 10:00, finds none, and both go
  through in the same hour.
- The past-date check compares the start of the requested hour with now. A
  date later in the current hour is rejected once that hour has started
  (`LaterInCurrentHourRejected`).
- Cancellation is allowed when `now <= date - 2h`. The code rejects only when
  `date - 2h` is strictly before now, so the boundary instant is accepted.
  Both cancellation rejections answer 401.
- Cancellation does not look at `canceled_at`. An appointment already canceled
  can be canceled again; this overwrites `canceledAt` and queues a second mail
  (`CanceledAppointmentCancelable`).

## Model

| member | source | states |
|---|---|---|
| `Dates.StartOfHour` | src/app/controllers/AppointmentController.js:76 | the start of the hour is an hour boundary not after the date and less than an hour before it |
| `Dates.StartOfHourIsUnique` | src/app/controllers/AppointmentController.js:76 | that boundary is the only hour boundary in the hour ending at the date |
| `Dates.StartOfHourFixesHourBoundaries` | src/app/controllers/AppointmentController.js:76 | truncating is idempotent and leaves a date unchanged exactly when it is on the hour |
| `Dates.SameHour` | src/app/controllers/AppointmentController.js:76-79 | two dates have the same start of hour exactly when the second lies within the first's hour |
| `Appointments.Status` | src/app/controllers/AppointmentController.js:54-145 | each broken rule answers 400 or 401; 400 exactly for an invalid body, a past hour and a taken slot |
| `Appointments.InvalidBodyRejected` | src/app/controllers/AppointmentController.js:49-56 | a body missing provider_id or date is rejected as an invalid body with 400, whatever the table, provider set, caller or time |
| `Appointments.SelfBookingRejected` | src/app/controllers/AppointmentController.js:64-68 | a valid body whose provider is the caller is rejected as self-booking with 401, whatever the provider flag, date, table or time |
| `Appointments.NonProviderRejected` | src/app/controllers/AppointmentController.js:60-74 | a target user without the provider flag is rejected with 401 |
| `Appointments.PastHourRejected` | src/app/controllers/AppointmentController.js:76-83 | when the start of the requested hour is before now, the booking is rejected with 400 |
| `Appointments.LaterInCurrentHourRejected` | src/app/controllers/AppointmentController.js:76-83 | a date later in the current hour is rejected as past once now has passed the start of that hour |
| `Appointments.TakenSlotRejected` | src/app/controllers/AppointmentController.js:85-98 | an active appointment of the provider stored at the start of the requested hour makes the booking fail with 400 |
| `Appointments.StoreRejection` | src/app/controllers/AppointmentController.js:54-98 | the answer is None exactly when no booking check is broken; otherwise it is the first check, in the order invalid body, self-booking, not a provider, past hour, slot taken, that the request breaks |
| `Appointments.NewAppointment` | src/app/controllers/AppointmentController.js:100-104 | the inserted row is active, belongs to the caller and the requested provider, carries the raw requested date, and takes the next id |
| `Appointments.StoreAcceptedIff` | src/app/controllers/AppointmentController.js:54-98 | a booking goes through if and only if the body is valid, the provider is not the caller, is a provider, the hour has not started and no active appointment of the provider sits at that start of hour |
| `Appointments.SecondBookingOfHourRejected` | src/app/controllers/AppointmentController.js:85-104 | after a booking on the hour went through, every later request for that provider and any date in that hour fails, with SlotTaken when the earlier checks pass |
| `Appointments.StoreKeepsOnHourSlotsUnique` | src/app/controllers/AppointmentController.js:85-104 | an accepted booking keeps active on-the-hour appointments unique per provider |
| `Appointments.OffHourDoubleBooking` | src/app/controllers/AppointmentController.js:85-104 | because the raw date is stored, two bookings of one provider at 10:30 both go through and clash |
| `Appointments.SameHourDoubleBooking` | src/app/controllers/AppointmentController.js:85-104 | bookings of one provider at 10:30 and then at 10:00 both go through and share a start of hour, while on-the-hour uniqueness still holds |
| `Dates.SubHours` | src/app/controllers/AppointmentController.js:142 | subtracting hours moves a date back by exactly that many whole hours and moves its start of hour back by the same amount |
| `Appointments.CancelRejection` | src/app/controllers/AppointmentController.js:136-146 | the answer is None exactly when neither cancellation check is broken; otherwise it is the first one broken, ownership before the two-hour window |
| `Appointments.CancelAcceptedIff` | src/app/controllers/AppointmentController.js:136-146 | a cancellation goes through if and only if the caller owns the appointment and now is not after two hours before its date |
| `Appointments.NotOwnerRejectedFirst` | src/app/controllers/AppointmentController.js:136-140 | a caller who is not the owner gets NotOwner and 401, even when it is also too late |
| `Appointments.TooLateRejected` | src/app/controllers/AppointmentController.js:142-146 | the owner canceling with less than two hours left gets TooLateToCancel and 401 |
| `Appointments.CanceledAppointmentCancelable` | src/app/controllers/AppointmentController.js:120-146 | an appointment already canceled is accepted for cancellation again |
| `Appointments.Canceled` | src/app/controllers/AppointmentController.js:148-150 | canceling sets only that row's canceledAt to now; every other field and row is unchanged |
| `Appointments.CancelKeepsOnHourSlotsUnique` | src/app/controllers/AppointmentController.js:148-150 | canceling keeps active on-the-hour appointments unique per provider |
| `Appointments.CancelFreesSlot` | src/app/controllers/AppointmentController.js:148-150 | after an active on-the-hour appointment is canceled, its provider has no active appointment at that instant |
| `Appointments.OwnActive` | src/app/controllers/AppointmentController.js:17-20 | the listing's filter keeps exactly the caller's appointments whose canceledAt is null, each as many times as it occurs in the table, and drops every other row |
| `Appointments.SortByDate` | src/app/controllers/AppointmentController.js:22 | the listing's order is by date ascending and a permutation of the filtered rows |
| `Appointments.InsertByDate` | src/app/controllers/AppointmentController.js:22 | inserting into a date-ordered list keeps it ordered and adds exactly that entry |
| `Appointments.Paginate` | src/app/controllers/AppointmentController.js:23-24 | a page holds at most 20 entries, those from position offset on, and stays ordered |
| `Appointments.PageOffset` | src/app/controllers/AppointmentController.js:14-24 | the page offset is 0 when no page is given and (page-1)*20 otherwise: a non-negative multiple of 20 whose quotient by 20 is page-1 |
| `Controller.AppointmentController.Index` | src/app/controllers/AppointmentController.js:13-45 | a page has at most 20 entries, all the caller's and not canceled, ordered by date, as many as remain after (page-1)*20 of them |
| `Controller.EveryActiveAppointmentListed` | src/app/controllers/AppointmentController.js:14-24 | every active appointment of the caller appears on some page |
| `Controller.PagesInDateOrder` | src/app/controllers/AppointmentController.js:22-24 | entries of a later page are never dated before entries of an earlier page |
| `Controller.AppointmentController.Store` | src/app/controllers/AppointmentController.js:48-118 | a rejected booking answers the first broken rule with its status and changes nothing; an accepted one appends one active appointment with the next id and the raw date and one notification to the provider, and nothing else changes |
| `Controller.AppointmentController.Delete` | src/app/controllers/AppointmentController.js:120-155 | a rejected cancellation answers NotOwner or TooLateToCancel with 401 and changes nothing; an accepted one sets only that appointment's canceledAt to now and queues one cancellation mail carrying the canceled appointment |

## Left out

- Request validation is not the Yup schema. A body field that is missing or fails its schema type is `None`. The JSON type of `provider_id` is not modelled, so a numeric string that would slip past the strict comparison at line 64 cannot be expressed.
- `parseISO`, time zones and locales are not modelled. Dates are millisecond integers, and hour boundaries are multiples of one hour since the epoch.
- Notification content is not modelled: a notification is its recipient (the provider) and the booking customer. The customer lookup at line 107 is assumed to succeed.
- Error messages are not modelled. A `Rule` names the failed check, and the message text is not kept.
- The `include`/`attributes` projections of the queries and the virtual `past`/`cancelable` fields are not modelled, because their definitions live in model files that are not part of this model. `Index` and `Delete` return whole rows.
- The `!appointments` branch of the listing (lines 41-43) is not modelled: `findAll` always returns an array, so the branch is unreachable.
- Controller.AppointmentController.Index: page numbers below 1 are excluded by its precondition. The negative offset they produce is handled by the database, which is not part of this model. The page is an integer here; a non-integer page such as `1.5` (offset 10) or a non-numeric one in the query string is not modelled.
- Controller.AppointmentController.Index: appointments sharing a date are ordered by the database as it chooses. The model fixes one such order, and its contract holds for any date order.
- Controller.AppointmentController.Delete: an id with no appointment is excluded by its precondition. The handler dereferences the lookup result without a check, so no answer is defined for it.
- The queue and the `CancellationMail` job are not modelled beyond an append-only sequence of jobs, each carrying its appointment.
- The Express request/response objects and the async/await plumbing are not modelled.
- Concurrency is not modelled. Two concurrent bookings can both pass the availability check before either insert; the model runs requests one at a time.
