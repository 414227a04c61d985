/**
 The booking rules of the appointment controller, stated on values: the
 appointment record, the ordered chain of rejections of a booking request and
 of a cancellation, the state each successful request leaves behind, and the
 filter and order the listing applies. The class in module Controller performs
 these steps on its table; the lemmas here are what the rules guarantee.
 */
module Appointments {
  import opened Dates

  datatype Option<T> = None | Some(value: T)

  type UserId = int

  /** A row of the appointment table; `canceledAt` is null while the appointment is active. */
  datatype Appointment = Appointment(id: nat, userId: UserId, providerId: UserId, date: int, canceledAt: Option<int>)
  {
    predicate Active() {
      canceledAt.None?
    }
  }

  /** A notification to a provider that `customer` booked them (the message text is not modelled). */
  datatype Notification = Notification(recipient: UserId, customer: UserId)

  /** A background job: the cancellation mail, carrying the canceled appointment. */
  datatype Job = CancellationMail(appointment: Appointment)

  /** The body of a booking request; a field that is missing or not of its schema type is None. */
  datatype StoreBody = StoreBody(providerId: Option<UserId>, date: Option<int>)

  /** The rule a request broke. */
  datatype Rule =
    | InvalidBody      // the body does not match the schema
    | SelfBooking      // a user books themself
    | NotProvider      // the target user is not a provider
    | PastDate         // the requested hour has already started
    | SlotTaken        // the provider already has an active appointment at that hour
    | NotOwner         // someone other than the customer cancels
    | TooLateToCancel  // fewer than two hours remain before the appointment

  /** What a handler answers: the appointment it created or canceled, or an error status. */
  datatype Response<T> = Ok(value: T) | Err(status: int, rule: Rule)

  /** The HTTP status the controller answers for each broken rule. */
  function Status(rule: Rule): (status: int)
    ensures status == 400 || status == 401
    ensures status == 400 <==> rule in {InvalidBody, PastDate, SlotTaken}
  {
    match rule
    case InvalidBody => 400
    case SelfBooking => 401
    case NotProvider => 401
    case PastDate => 400
    case SlotTaken => 400
    case NotOwner => 401
    case TooLateToCancel => 401
  }

  // ---------------------------------------------------------------------------
  // Booking

  /** The schema: both fields are required. */
  predicate ValidBody(body: StoreBody) {
    body.providerId.Some? && body.date.Some?
  }

  /** The availability query: is there an active appointment of `providerId` stored at exactly `date`? */
  predicate SlotBooked(apps: seq<Appointment>, providerId: UserId, date: int) {
    exists i | 0 <= i < |apps| :: apps[i].Active() && apps[i].providerId == providerId && apps[i].date == date
  }

  /** The booking checks, in the order the controller runs them. */
  const BOOKING_CHECKS: seq<Rule> := [InvalidBody, SelfBooking, NotProvider, PastDate, SlotTaken]

  /** Does a booking request break `rule`, judged on that rule alone? */
  predicate BookingBreaks(rule: Rule, apps: seq<Appointment>, providers: set<UserId>, caller: UserId, body: StoreBody, now: int) {
    match rule
    case InvalidBody => !ValidBody(body)
    case SelfBooking => body.providerId == Some(caller)
    case NotProvider => body.providerId.Some? && body.providerId.value !in providers
    case PastDate => body.date.Some? && StartOfHour(body.date.value) < now
    case SlotTaken => ValidBody(body) && SlotBooked(apps, body.providerId.value, StartOfHour(body.date.value))
    case _ => false
  }

  /**
   The first rule a booking request breaks, in the order the controller checks
   them, or None when the booking goes through.
   */
  function StoreRejection(apps: seq<Appointment>, providers: set<UserId>, caller: UserId, body: StoreBody, now: int): (r: Option<Rule>)
    ensures r.None? <==> forall k | 0 <= k < |BOOKING_CHECKS| :: !BookingBreaks(BOOKING_CHECKS[k], apps, providers, caller, body, now)
    ensures r.Some? ==> exists k | 0 <= k < |BOOKING_CHECKS| ::
      && BOOKING_CHECKS[k] == r.value
      && BookingBreaks(r.value, apps, providers, caller, body, now)
      && forall j | 0 <= j < k :: !BookingBreaks(BOOKING_CHECKS[j], apps, providers, caller, body, now)
  {
    assert |BOOKING_CHECKS| == 5 && BOOKING_CHECKS[0] == InvalidBody && BOOKING_CHECKS[1] == SelfBooking
      && BOOKING_CHECKS[2] == NotProvider && BOOKING_CHECKS[3] == PastDate && BOOKING_CHECKS[4] == SlotTaken;
    if !ValidBody(body) then Some(InvalidBody)
    else if body.providerId.value == caller then Some(SelfBooking)
    else if body.providerId.value !in providers then Some(NotProvider)
    else if StartOfHour(body.date.value) < now then Some(PastDate)
    else if SlotBooked(apps, body.providerId.value, StartOfHour(body.date.value)) then Some(SlotTaken)
    else None
  }

  /** The row a successful booking inserts: the next id, the raw requested date, not canceled. */
  function NewAppointment(apps: seq<Appointment>, caller: UserId, body: StoreBody): (a: Appointment)
    requires ValidBody(body)
    ensures a.Active() && a.userId == caller && a.providerId == body.providerId.value && a.date == body.date.value
    ensures IdsArePositions(apps) ==> IdsArePositions(apps + [a])
  {
    Appointment(|apps| + 1, caller, body.providerId.value, body.date.value, None)
  }

  // ---------------------------------------------------------------------------
  // Cancellation

  /** The cancellation checks, in the order the controller runs them. */
  const CANCEL_CHECKS: seq<Rule> := [NotOwner, TooLateToCancel]

  /** Does canceling `a` break `rule`, judged on that rule alone? */
  predicate CancelBreaks(rule: Rule, a: Appointment, caller: UserId, now: int) {
    match rule
    case NotOwner => a.userId != caller
    case TooLateToCancel => SubHours(a.date, 2) < now
    case _ => false
  }

  /** The first rule a cancellation of `a` breaks, ownership first, or None. */
  function CancelRejection(a: Appointment, caller: UserId, now: int): (r: Option<Rule>)
    ensures r.None? <==> forall k | 0 <= k < |CANCEL_CHECKS| :: !CancelBreaks(CANCEL_CHECKS[k], a, caller, now)
    ensures r.Some? ==> exists k | 0 <= k < |CANCEL_CHECKS| ::
      && CANCEL_CHECKS[k] == r.value
      && CancelBreaks(r.value, a, caller, now)
      && forall j | 0 <= j < k :: !CancelBreaks(CANCEL_CHECKS[j], a, caller, now)
  {
    assert |CANCEL_CHECKS| == 2 && CANCEL_CHECKS[0] == NotOwner && CANCEL_CHECKS[1] == TooLateToCancel;
    if a.userId != caller then Some(NotOwner)
    else if SubHours(a.date, 2) < now then Some(TooLateToCancel)
    else None
  }

  /** The table after the appointment at position `k` is canceled at `now`. */
  function Canceled(apps: seq<Appointment>, k: nat, now: int): (r: seq<Appointment>)
    requires k < |apps|
    ensures |r| == |apps| && r[k].canceledAt == Some(now)
    ensures r[k] == apps[k].(canceledAt := r[k].canceledAt)
    ensures forall i | 0 <= i < |apps| && i != k :: r[i] == apps[i]
  {
    apps[k := apps[k].(canceledAt := Some(now))]
  }

  // ---------------------------------------------------------------------------
  // Table invariants

  /** Ids are assigned in insertion order from 1 and rows are never removed. */
  ghost predicate IdsArePositions(apps: seq<Appointment>) {
    forall i | 0 <= i < |apps| :: apps[i].id == i + 1
  }

  /** Two active appointments of one provider at one instant. */
  predicate Clash(a: Appointment, b: Appointment) {
    a.Active() && b.Active() && a.providerId == b.providerId && a.date == b.date
  }

  /** No two active appointments of one provider sit at the same on-the-hour instant. */
  ghost predicate OnHourSlotsUnique(apps: seq<Appointment>) {
    forall i, j | 0 <= i < j < |apps| && Clash(apps[i], apps[j]) :: !OnTheHour(apps[i].date)
  }

  /** One active appointment per provider and stored date. */
  ghost predicate SlotsUnique(apps: seq<Appointment>) {
    forall i, j | 0 <= i < j < |apps| :: !Clash(apps[i], apps[j])
  }

  // ---------------------------------------------------------------------------
  // Listing

  const PAGE_SIZE: int := 20

  ghost predicate SortedByDate(s: seq<Appointment>) {
    forall i, j | 0 <= i < j < |s| :: s[i].date <= s[j].date
  }

  /** The caller's appointments that are not canceled, in table order. */
  function OwnActive(apps: seq<Appointment>, caller: UserId): (r: seq<Appointment>)
    ensures forall x :: x in r <==> x in apps && x.userId == caller && x.Active()
    ensures forall x :: multiset(r)[x] == if x.userId == caller && x.Active() then multiset(apps)[x] else 0
    ensures |r| <= |apps|
  {
    if apps == [] then []
    else
      var rest := OwnActive(apps[1..], caller);
      assert apps == [apps[0]] + apps[1..];
      assert forall x :: x in apps <==> x == apps[0] || x in apps[1..];
      if apps[0].userId == caller && apps[0].Active() then [apps[0]] + rest else rest
  }

  /** A lower bound on dates survives inserting one more entry that respects it. */
  lemma LowerBoundKept(lo: int, x: Appointment, s: seq<Appointment>, r: seq<Appointment>)
    requires multiset(r) == multiset(s) + multiset{x}
    requires lo <= x.date && forall k | 0 <= k < |s| :: lo <= s[k].date
    ensures forall j | 0 <= j < |r| :: lo <= r[j].date
  {
    forall j | 0 <= j < |r| ensures lo <= r[j].date {
      assert r[j] in multiset(r);
      if r[j] != x {
        assert r[j] in multiset(s);
        var k :| 0 <= k < |s| && s[k] == r[j];
      }
    }
  }

  /** An entry no later than every entry of a sorted list can go in front of it. */
  lemma PrependSorted(a: Appointment, s: seq<Appointment>)
    requires SortedByDate(s)
    requires forall k | 0 <= k < |s| :: a.date <= s[k].date
    ensures SortedByDate([a] + s)
  {
  }

  function InsertByDate(x: Appointment, s: seq<Appointment>): (r: seq<Appointment>)
    requires SortedByDate(s)
    ensures |r| == |s| + 1
    ensures multiset(r) == multiset(s) + multiset{x}
    ensures SortedByDate(r)
  {
    if s == [] || x.date <= s[0].date then
      PrependSorted(x, s);
      [x] + s
    else
      var rest := InsertByDate(x, s[1..]);
      assert s == [s[0]] + s[1..];
      LowerBoundKept(s[0].date, x, s[1..], rest);
      PrependSorted(s[0], rest);
      [s[0]] + rest
  }

  /** The order the query asks for: by date, ascending. */
  function SortByDate(s: seq<Appointment>): (r: seq<Appointment>)
    ensures |r| == |s|
    ensures SortedByDate(r)
    ensures multiset(r) == multiset(s)
  {
    if s == [] then []
    else
      assert s == [s[0]] + s[1..];
      InsertByDate(s[0], SortByDate(s[1..]))
  }

  lemma SortByDateKeepsMembers(s: seq<Appointment>)
    ensures forall x :: x in SortByDate(s) <==> x in s
  {
    var r := SortByDate(s);
    forall x ensures x in r <==> x in s {
      assert x in r <==> x in multiset(r);
    }
  }

  /** The window of at most PAGE_SIZE entries of `s` starting at `offset` (none past the end). */
  function Paginate(s: seq<Appointment>, offset: int): (r: seq<Appointment>)
    requires offset >= 0
    ensures |r| == Min(PAGE_SIZE, Max(0, |s| - offset))
    ensures forall i | 0 <= i < |r| :: r[i] == s[offset + i]
    ensures forall x | x in r :: x in s
    ensures SortedByDate(s) ==> SortedByDate(r)
  {
    var lo := Min(offset, |s|);
    s[lo .. Min(lo + PAGE_SIZE, |s|)]
  }

  /** A window of the date-ordered list holds only active appointments of the caller. */
  lemma ListedAreOwnActive(apps: seq<Appointment>, caller: UserId, offset: int)
    requires offset >= 0
    ensures forall x | x in Paginate(SortByDate(OwnActive(apps, caller)), offset) ::
      x in apps && x.userId == caller && x.Active()
  {
    SortByDateKeepsMembers(OwnActive(apps, caller));
  }

  /** Where page `page` starts (page 1 when none is given). */
  function PageOffset(page: Option<int>): (offset: int)
    requires page.Some? ==> page.value >= 1
    ensures offset >= 0 && offset % PAGE_SIZE == 0
    ensures page.None? ==> offset == 0
    ensures page.Some? ==> offset / PAGE_SIZE == page.value - 1
  {
    match page
    case None => 0
    case Some(p) => (p - 1) * PAGE_SIZE
  }

  function Min(a: int, b: int): int {
    if a <= b then a else b
  }

  function Max(a: int, b: int): int {
    if a <= b then b else a
  }

  // ---------------------------------------------------------------------------
  // Properties of booking

  /** A body missing the provider or the date fails the schema with 400, before any other check. */
  lemma InvalidBodyRejected(apps: seq<Appointment>, providers: set<UserId>, caller: UserId, body: StoreBody, now: int)
    requires body.providerId.None? || body.date.None?
    ensures StoreRejection(apps, providers, caller, body, now) == Some(InvalidBody)
    ensures Status(InvalidBody) == 400
  {
  }

  /** Once the body is valid, booking oneself fails with 401, whatever the provider flag, date or table. */
  lemma SelfBookingRejected(apps: seq<Appointment>, providers: set<UserId>, caller: UserId, date: int, now: int)
    ensures StoreRejection(apps, providers, caller, StoreBody(Some(caller), Some(date)), now) == Some(SelfBooking)
    ensures Status(SelfBooking) == 401
  {
  }

  /** Booking a user without the provider flag fails with 401. */
  lemma NonProviderRejected(apps: seq<Appointment>, providers: set<UserId>, caller: UserId, providerId: UserId, date: int, now: int)
    requires providerId != caller && providerId !in providers
    ensures StoreRejection(apps, providers, caller, StoreBody(Some(providerId), Some(date)), now) == Some(NotProvider)
    ensures Status(NotProvider) == 401
  {
  }

  /** Booking an hour that has already started fails with 400. */
  lemma PastHourRejected(apps: seq<Appointment>, providers: set<UserId>, caller: UserId, providerId: UserId, date: int, now: int)
    requires providerId != caller && providerId in providers
    requires StartOfHour(date) < now
    ensures StoreRejection(apps, providers, caller, StoreBody(Some(providerId), Some(date)), now) == Some(PastDate)
    ensures Status(PastDate) == 400
  {
  }

  /**
   A date later in the current hour is still rejected as past once the hour
   has begun: the check compares the start of the requested hour with now.
   */
  lemma LaterInCurrentHourRejected(apps: seq<Appointment>, providers: set<UserId>, caller: UserId, providerId: UserId, date: int, now: int)
    requires providerId != caller && providerId in providers
    requires now < date < StartOfHour(now) + MS_PER_HOUR && !OnTheHour(now)
    ensures StoreRejection(apps, providers, caller, StoreBody(Some(providerId), Some(date)), now) == Some(PastDate)
  {
    StartOfHourIsUnique(date, StartOfHour(now));
    StartOfHourFixesHourBoundaries(now);
  }

  /** A provider's active appointment stored at the start of the requested hour makes the booking fail with 400. */
  lemma TakenSlotRejected(apps: seq<Appointment>, providers: set<UserId>, caller: UserId, providerId: UserId, date: int, now: int, k: nat)
    requires providerId != caller && providerId in providers && now <= StartOfHour(date)
    requires k < |apps| && apps[k].Active() && apps[k].providerId == providerId && apps[k].date == StartOfHour(date)
    ensures StoreRejection(apps, providers, caller, StoreBody(Some(providerId), Some(date)), now) == Some(SlotTaken)
    ensures Status(SlotTaken) == 400
  {
  }

  /** A booking goes through exactly when it passes all five checks. */
  lemma StoreAcceptedIff(apps: seq<Appointment>, providers: set<UserId>, caller: UserId, body: StoreBody, now: int)
    ensures StoreRejection(apps, providers, caller, body, now) == None <==>
      && ValidBody(body)
      && body.providerId.value != caller
      && body.providerId.value in providers
      && now <= StartOfHour(body.date.value)
      && forall a | a in apps :: !(a.Active() && a.providerId == body.providerId.value && a.date == StartOfHour(body.date.value))
  {
    if ValidBody(body) {
      var p, h := body.providerId.value, StartOfHour(body.date.value);
      if SlotBooked(apps, p, h) {
        var i :| 0 <= i < |apps| && apps[i].Active() && apps[i].providerId == p && apps[i].date == h;
        assert apps[i] in apps;
      }
    }
  }

  /**
   Two bookings in sequence of the same provider and hour: once a booking at
   the exact start of an hour went through, every later request for a date in
   that hour with that provider fails, whoever makes it and whenever.
   */
  lemma {:induction false} SecondBookingOfHourRejected(
    apps: seq<Appointment>, providers: set<UserId>, caller: UserId, body: StoreBody, now: int,
    caller2: UserId, date2: int, now2: int)
    requires StoreRejection(apps, providers, caller, body, now) == None
    requires OnTheHour(body.date.value) && body.date.value <= date2 < body.date.value + MS_PER_HOUR
    ensures StoreRejection(apps + [NewAppointment(apps, caller, body)], providers, caller2,
                           StoreBody(body.providerId, Some(date2)), now2) != None
    ensures caller2 != body.providerId.value && now2 <= StartOfHour(date2) ==>
      StoreRejection(apps + [NewAppointment(apps, caller, body)], providers, caller2,
                     StoreBody(body.providerId, Some(date2)), now2) == Some(SlotTaken)
  {
    StartOfHourFixesHourBoundaries(body.date.value);
    SameHour(body.date.value, date2);
    var apps' := apps + [NewAppointment(apps, caller, body)];
    assert apps'[|apps|].Active() && apps'[|apps|].providerId == body.providerId.value;
    assert apps'[|apps|].date == StartOfHour(date2);
    assert SlotBooked(apps', body.providerId.value, StartOfHour(date2));
  }

  /** A successful booking keeps active appointments stored on the hour unique per provider and instant. */
  lemma {:induction false} StoreKeepsOnHourSlotsUnique(apps: seq<Appointment>, providers: set<UserId>, caller: UserId, body: StoreBody, now: int)
    requires OnHourSlotsUnique(apps)
    requires StoreRejection(apps, providers, caller, body, now) == None
    ensures OnHourSlotsUnique(apps + [NewAppointment(apps, caller, body)])
  {
    var a := NewAppointment(apps, caller, body);
    var apps' := apps + [a];
    forall i, j | 0 <= i < j < |apps'| && Clash(apps'[i], apps'[j])
      ensures !OnTheHour(apps'[i].date)
    {
      if j == |apps| {
        // the availability check saw no active row of this provider at the start of the hour
        assert apps'[i] == apps[i] && apps[i].date != StartOfHour(a.date);
        StartOfHourFixesHourBoundaries(a.date);
      }
    }
  }

  /**
   The insert stores the raw requested date, while the availability check
   looks only at the start of the hour: two bookings of the same provider at
   the same time past the hour both go through, leaving two active
   appointments for one provider at one instant.
   */
  lemma OffHourDoubleBooking()
    ensures var body := StoreBody(Some(2), Some(10 * MS_PER_HOUR + 1800000));
      var first := NewAppointment([], 1, body);
      var second := NewAppointment([first], 3, body);
      && StoreRejection([], {2}, 1, body, 0) == None
      && StoreRejection([first], {2}, 3, body, 0) == None
      && Clash(first, second)
      && SlotsUnique([]) && !SlotsUnique([first, second])
  {
    var body := StoreBody(Some(2), Some(10 * MS_PER_HOUR + 1800000));
    var first := NewAppointment([], 1, body);
    assert StartOfHour(body.date.value) == 10 * MS_PER_HOUR;
    var second := NewAppointment([first], 3, body);
    assert !SlotBooked([first], 2, 10 * MS_PER_HOUR);
    assert Clash([first, second][0], [first, second][1]);
  }

  /**
   Uniqueness holds only for on-the-hour instants: provider 2 booked at 10:30
   and then at 10:00 takes both bookings, since the second check looks for a
   stored 10:00 and finds the raw 10:30. Both active rows share a start of hour.
   */
  lemma SameHourDoubleBooking()
    ensures var halfPast := StoreBody(Some(2), Some(10 * MS_PER_HOUR + 1800000));
      var onTheHour := StoreBody(Some(2), Some(10 * MS_PER_HOUR));
      var first := NewAppointment([], 1, halfPast);
      var second := NewAppointment([first], 3, onTheHour);
      && StoreRejection([], {2}, 1, halfPast, 0) == None
      && StoreRejection([first], {2}, 3, onTheHour, 0) == None
      && first.providerId == second.providerId && first.Active() && second.Active()
      && StartOfHour(first.date) == StartOfHour(second.date)
      && OnHourSlotsUnique([first, second])
  {
    var halfPast := StoreBody(Some(2), Some(10 * MS_PER_HOUR + 1800000));
    var first := NewAppointment([], 1, halfPast);
    assert StartOfHour(halfPast.date.value) == 10 * MS_PER_HOUR;
    assert StartOfHour(10 * MS_PER_HOUR) == 10 * MS_PER_HOUR;
    assert !SlotBooked([first], 2, 10 * MS_PER_HOUR);
  }

  // ---------------------------------------------------------------------------
  // Properties of cancellation

  /** A cancellation goes through exactly when the caller owns the appointment and at least two hours remain. */
  lemma CancelAcceptedIff(a: Appointment, caller: UserId, now: int)
    ensures CancelRejection(a, caller, now) == None <==> a.userId == caller && now <= a.date - 2 * MS_PER_HOUR
  {
  }

  /** Ownership is checked before time: a stranger gets NotOwner even when it is too late as well. */
  lemma NotOwnerRejectedFirst(a: Appointment, caller: UserId, now: int)
    requires a.userId != caller
    ensures CancelRejection(a, caller, now) == Some(NotOwner)
    ensures Status(NotOwner) == 401
  {
  }

  /** Too late to cancel is answered with 401 too. */
  lemma TooLateRejected(a: Appointment, now: int)
    requires a.date - 2 * MS_PER_HOUR < now
    ensures CancelRejection(a, a.userId, now) == Some(TooLateToCancel)
    ensures Status(TooLateToCancel) == 401
  {
  }

  /** The controller does not look at `canceledAt`: an appointment already canceled can be canceled again. */
  lemma CanceledAppointmentCancelable(a: Appointment, now: int)
    requires !a.Active() && now <= a.date - 2 * MS_PER_HOUR
    ensures CancelRejection(a, a.userId, now) == None
  {
  }

  /** Canceling keeps active appointments stored on the hour unique per provider and instant. */
  lemma {:induction false} CancelKeepsOnHourSlotsUnique(apps: seq<Appointment>, k: nat, now: int)
    requires k < |apps| && OnHourSlotsUnique(apps)
    ensures OnHourSlotsUnique(Canceled(apps, k, now))
  {
    var apps' := Canceled(apps, k, now);
    forall i, j | 0 <= i < j < |apps'| && Clash(apps'[i], apps'[j])
      ensures !OnTheHour(apps'[i].date)
    {
      assert i != k && j != k;
      assert Clash(apps[i], apps[j]);
    }
  }

  /**
   Canceling frees the slot: after the active appointment at the start of an
   hour is canceled, the provider has no active appointment at that instant
   and a booking for that hour no longer meets SlotTaken.
   */
  lemma {:induction false} CancelFreesSlot(apps: seq<Appointment>, k: nat, now: int)
    requires k < |apps| && OnHourSlotsUnique(apps)
    requires apps[k].Active() && OnTheHour(apps[k].date)
    ensures !SlotBooked(Canceled(apps, k, now), apps[k].providerId, apps[k].date)
  {
    forall i | 0 <= i < |apps| && i != k
      ensures !Clash(apps[i], apps[k])
    {
      var other, canceled := apps[i], apps[k];
      if i < k {
        assert Clash(other, canceled) ==> !OnTheHour(other.date);
      } else {
        assert Clash(canceled, other) ==> !OnTheHour(canceled.date);
      }
    }
  }
}
