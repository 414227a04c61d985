/**
 The appointment controller over an in-memory store: the appointment table,
 the set of users flagged as providers, the notification log and the job
 queue. `Store` books, `Delete` cancels and `Index` lists one page of the
 caller's active appointments. The caller's id and the current time are
 parameters.
 */
module Controller {
  import opened Dates
  import opened Appointments

  class AppointmentController {
    var appointments: seq<Appointment>
    var providers: set<UserId>
    var notifications: seq<Notification>
    var jobs: seq<Job>

    /** Ids follow table positions, and no provider has two active appointments at one on-the-hour instant. */
    ghost predicate Valid()
      reads this
    {
      IdsArePositions(appointments) && OnHourSlotsUnique(appointments)
    }

    constructor (providers: set<UserId>)
      ensures Valid()
      ensures appointments == [] && this.providers == providers
      ensures notifications == [] && jobs == []
    {
      appointments := [];
      this.providers := providers;
      notifications := [];
      jobs := [];
    }

    /**
     GET /appointments: the caller's active appointments by date, page `page`
     (1 when absent) of PAGE_SIZE.
     */
    function Index(caller: UserId, page: Option<int>): (r: seq<Appointment>)
      reads this
      requires page.Some? ==> page.value >= 1
      ensures |r| <= PAGE_SIZE
      ensures forall x | x in r :: x in appointments && x.userId == caller && x.Active()
      ensures SortedByDate(r)
      ensures |r| == Min(PAGE_SIZE, Max(0, |OwnActive(appointments, caller)| - PageOffset(page)))
    {
      var own := OwnActive(appointments, caller);
      var sorted := SortByDate(own);
      var r := Paginate(sorted, PageOffset(page));
      ListedAreOwnActive(appointments, caller, PageOffset(page));
      assert |r| <= PAGE_SIZE && |sorted| == |own|;
      r
    }

    /**
     POST /appointments: the five checks in order; when all pass, one active
     appointment at the raw requested date and one notification to the
     provider. A rejected request changes nothing.
     */
    method Store(caller: UserId, body: StoreBody, now: int) returns (r: Response<Appointment>)
      requires Valid()
      modifies this
      ensures Valid()
      ensures providers == old(providers) && jobs == old(jobs)
      ensures match StoreRejection(old(appointments), old(providers), caller, body, now)
        case Some(rule) =>
          && r == Err(Status(rule), rule)
          && appointments == old(appointments) && notifications == old(notifications)
        case None =>
          var a := NewAppointment(old(appointments), caller, body);
          && r == Ok(a)
          && appointments == old(appointments) + [a]
          && notifications == old(notifications) + [Notification(a.providerId, caller)]
    {
      if !ValidBody(body) {
        return Err(Status(InvalidBody), InvalidBody);
      }
      var providerId, date := body.providerId.value, body.date.value;
      // the provider lookup runs before the self-booking check, but only the order of the answers matters
      var isProvider := providerId in providers;
      if providerId == caller {
        return Err(Status(SelfBooking), SelfBooking);
      }
      if !isProvider {
        return Err(Status(NotProvider), NotProvider);
      }
      var hourStart := StartOfHour(date);
      if hourStart < now {
        return Err(Status(PastDate), PastDate);
      }
      var checkAvailability := SlotBooked(appointments, providerId, hourStart);
      if checkAvailability {
        return Err(Status(SlotTaken), SlotTaken);
      }
      StoreKeepsOnHourSlotsUnique(appointments, providers, caller, body, now);
      var appointment := Appointment(|appointments| + 1, caller, providerId, date, None);
      appointments := appointments + [appointment];
      notifications := notifications + [Notification(providerId, caller)];
      r := Ok(appointment);
    }

    /**
     DELETE /appointments/:id: ownership, then the two-hour window; when both
     pass, the appointment's `canceledAt` becomes `now` and one cancellation
     mail carrying it is queued. A rejected request changes nothing. The id
     must exist: the handler uses the lookup result without checking it.
     */
    method Delete(caller: UserId, id: nat, now: int) returns (r: Response<Appointment>)
      requires Valid()
      requires 1 <= id <= |appointments|
      modifies this
      ensures Valid()
      ensures providers == old(providers) && notifications == old(notifications)
      ensures old(appointments)[id - 1].id == id
      ensures var a := old(appointments)[id - 1];
        match CancelRejection(a, caller, now)
        case Some(rule) =>
          && r == Err(Status(rule), rule)
          && appointments == old(appointments) && jobs == old(jobs)
        case None =>
          var canceled := a.(canceledAt := Some(now));
          && r == Ok(canceled)
          && appointments == Canceled(old(appointments), id - 1, now)
          && jobs == old(jobs) + [CancellationMail(canceled)]
    {
      var appointment := appointments[id - 1];
      if appointment.userId != caller {
        return Err(Status(NotOwner), NotOwner);
      }
      var dataWithSub := SubHours(appointment.date, 2);
      if dataWithSub < now {
        return Err(Status(TooLateToCancel), TooLateToCancel);
      }
      CancelKeepsOnHourSlotsUnique(appointments, id - 1, now);
      appointment := appointment.(canceledAt := Some(now));
      appointments := appointments[id - 1 := appointment];
      jobs := jobs + [CancellationMail(appointment)];
      r := Ok(appointment);
    }
  }

  // ---------------------------------------------------------------------------
  // Properties of the listing

  /** Position `k` of the date-ordered list is on page k / PAGE_SIZE + 1. */
  lemma {:induction false} PageOfPosition(sorted: seq<Appointment>, k: nat)
    requires k < |sorted|
    ensures sorted[k] in Paginate(sorted, PageOffset(Some(k / PAGE_SIZE + 1)))
  {
    var offset := PageOffset(Some(k / PAGE_SIZE + 1));
    assert offset == (k / PAGE_SIZE) * PAGE_SIZE;
    assert offset <= k < offset + PAGE_SIZE;
    assert Paginate(sorted, offset)[k - offset] == sorted[k];
  }

  /** Every active appointment of the caller is on some page of the listing. */
  lemma {:induction false} EveryActiveAppointmentListed(c: AppointmentController, caller: UserId, x: Appointment)
    requires x in c.appointments && x.userId == caller && x.Active()
    ensures exists page: int | page >= 1 :: x in c.Index(caller, Some(page))
  {
    var sorted := SortByDate(OwnActive(c.appointments, caller));
    assert x in multiset(sorted);
    var k :| 0 <= k < |sorted| && sorted[k] == x;
    PageOfPosition(sorted, k);
    assert x in c.Index(caller, Some(k / PAGE_SIZE + 1));
  }

  /** Later pages never hold an earlier date than earlier pages. */
  lemma {:induction false} PagesInDateOrder(c: AppointmentController, caller: UserId, page1: int, page2: int, x: Appointment, y: Appointment)
    requires 1 <= page1 < page2
    requires x in c.Index(caller, Some(page1)) && y in c.Index(caller, Some(page2))
    ensures x.date <= y.date
  {
    var sorted := SortByDate(OwnActive(c.appointments, caller));
    var page1Entries, page2Entries := c.Index(caller, Some(page1)), c.Index(caller, Some(page2));
    assert page1Entries == Paginate(sorted, PageOffset(Some(page1)));
    assert page2Entries == Paginate(sorted, PageOffset(Some(page2)));
    var i :| 0 <= i < |page1Entries| && page1Entries[i] == x;
    var j :| 0 <= j < |page2Entries| && page2Entries[j] == y;
    assert PageOffset(Some(page1)) + PAGE_SIZE <= PageOffset(Some(page2));
    assert x == sorted[PageOffset(Some(page1)) + i] && y == sorted[PageOffset(Some(page2)) + j];
  }

  // ---------------------------------------------------------------------------
  // A booking and two cancellation attempts by the same customer

  method BookAndCancel() {
    var tomorrowAtTen := 34 * MS_PER_HOUR;
    var controller := new AppointmentController({2});
    var booked := controller.Store(1, StoreBody(Some(2), Some(tomorrowAtTen)), 0);
    assert booked == Ok(Appointment(1, 1, 2, tomorrowAtTen, None));

    var tooLate := controller.Delete(1, 1, tomorrowAtTen - MS_PER_HOUR);
    assert tooLate == Err(401, TooLateToCancel);
    assert controller.appointments[0].canceledAt == None;

    var canceled := controller.Delete(1, 1, tomorrowAtTen - 3 * MS_PER_HOUR);
    assert canceled == Ok(booked.value.(canceledAt := Some(tomorrowAtTen - 3 * MS_PER_HOUR)));
    assert controller.jobs == [CancellationMail(canceled.value)];

    var rebooked := controller.Store(3, StoreBody(Some(2), Some(tomorrowAtTen)), 0);
    assert rebooked.Ok?;
  }
}
