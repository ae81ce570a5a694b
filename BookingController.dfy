/** Booking a trip (the Start and BookNow actions) and cancelling a booking. Each runs
    in one transaction: a refusal rolls back and leaves every table as it was. */
module BookingController {
  import opened Relational
  import opened Schema
  import opened WaitingListHelper

  /** The two booking actions differ only in which bookings count against the cap. */
  datatype Entry = Start | BookNow

  /** No user may hold more than this many Active bookings counted by the cap query. */
  const MAX_ACTIVE_BOOKINGS := 3

  /** The rows the cap query counts: the user's Active bookings joined with their trip;
      BookNow counts only trips that start after now. */
  function CountsTowardCap(ts: seq<Trip>, uid: int, now: int, entry: Entry): Booking -> bool
  {
    (b: Booking) => b.userId == uid && b.status == Active &&
      match FindTrip(ts, b.tripId)
      case None => false
      case Some(t) => entry == Start || t.startDate > now
  }

  function CapCount(ts: seq<Trip>, bs: seq<Booking>, uid: int, now: int, entry: Entry): nat
  {
    Count(bs, CountsTowardCap(ts, uid, now, entry))
  }

  /** A requested quantity below 1 is taken as 1. */
  function CoercedQty(qty: int): int
  {
    if qty < 1 then 1 else qty
  }

  datatype Refusal =
    | TooManyBookings   // "You cannot book more than 3 upcoming trips."
    | TripNotFound      // "Trip not found."
    | BelowMinAge       // the group's minimum age is under the trip's
    | MinAgeRequired    // the trip has a minimum age and none was given
    | NoRoom            // redirect to the waiting-list join page
    | NotFirstInLine    // "You are not first in the waiting list."

  datatype Verdict = Admit(trip: Trip) | Refuse(reason: Refusal)

  /** The age rule: a trip without MinAge takes any group; one with MinAge needs a stated
      group minimum age of at least that. */
  predicate AgeAllowed(minAge: Option<int>, groupMinAge: Option<int>)
  {
    minAge.None? || (groupMinAge.Some? && groupMinAge.value >= minAge.value)
  }

  /** The waiting-list priority gate: when live offers cover every free room, only a
      holder of a live offer on the trip may book. */
  predicate GateOpen(w: seq<WaitEntry>, uid: int, tid: int, rooms: int, now: int)
  {
    LiveOffers(w, tid, now) == 0 || rooms > LiveOffers(w, tid, now) || Count(w, LiveOfferOf(tid, uid, now)) > 0
  }

  /** The admission checks, in the order the actions make them. */
  function Admission(ts: seq<Trip>, bs: seq<Booking>, w: seq<WaitEntry>, uid: int, tid: int,
                     qty: int, groupMinAge: Option<int>, now: int, entry: Entry): (r: Verdict)
    ensures r.Admit? ==>
      && FindTrip(ts, tid) == Some(r.trip)
      && CapCount(ts, bs, uid, now, entry) < MAX_ACTIVE_BOOKINGS
      && AgeAllowed(r.trip.minAge, groupMinAge)
      && 0 < r.trip.rooms && qty <= r.trip.rooms
  {
    if CapCount(ts, bs, uid, now, entry) >= MAX_ACTIVE_BOOKINGS then Refuse(TooManyBookings)
    else match FindTrip(ts, tid)
      case None => Refuse(TripNotFound)
      case Some(t) =>
        if t.minAge.Some? && groupMinAge.Some? && groupMinAge.value < t.minAge.value then Refuse(BelowMinAge)
        else if t.minAge.Some? && groupMinAge.None? then Refuse(MinAgeRequired)
        else if t.rooms <= 0 || t.rooms < qty then Refuse(NoRoom)
        else
          var activeNotified := Count(w, LiveOfferOn(tid, now));
          if activeNotified > 0 && t.rooms <= activeNotified && Count(w, LiveOfferOf(tid, uid, now)) == 0
          then Refuse(NotFirstInLine)
          else Admit(t)
  }

  /** What the admission checks decide: a reservation is admitted exactly when every
      check passes, and each refusal names a check that failed. */
  lemma AdmissionMeans(ts: seq<Trip>, bs: seq<Booking>, w: seq<WaitEntry>, uid: int, tid: int,
                       qty: int, groupMinAge: Option<int>, now: int, entry: Entry)
    ensures var a := Admission(ts, bs, w, uid, tid, qty, groupMinAge, now, entry);
      a.Admit? <==>
        && CapCount(ts, bs, uid, now, entry) < MAX_ACTIVE_BOOKINGS
        && FindTrip(ts, tid).Some?
        && AgeAllowed(FindTrip(ts, tid).value.minAge, groupMinAge)
        && 0 < FindTrip(ts, tid).value.rooms && qty <= FindTrip(ts, tid).value.rooms
        && GateOpen(w, uid, tid, FindTrip(ts, tid).value.rooms, now)
    ensures var a := Admission(ts, bs, w, uid, tid, qty, groupMinAge, now, entry);
      a.Admit? ==> a.trip == FindTrip(ts, tid).value
    ensures CapCount(ts, bs, uid, now, entry) >= MAX_ACTIVE_BOOKINGS ==>
      Admission(ts, bs, w, uid, tid, qty, groupMinAge, now, entry) == Refuse(TooManyBookings)
    ensures Admission(ts, bs, w, uid, tid, qty, groupMinAge, now, entry) == Refuse(TripNotFound) ==>
      FindTrip(ts, tid).None?
    ensures Admission(ts, bs, w, uid, tid, qty, groupMinAge, now, entry) == Refuse(BelowMinAge) ==>
      FindTrip(ts, tid).Some? && !AgeAllowed(FindTrip(ts, tid).value.minAge, groupMinAge) && groupMinAge.Some?
    ensures Admission(ts, bs, w, uid, tid, qty, groupMinAge, now, entry) == Refuse(MinAgeRequired) ==>
      FindTrip(ts, tid).Some? && FindTrip(ts, tid).value.minAge.Some? && groupMinAge.None?
    ensures Admission(ts, bs, w, uid, tid, qty, groupMinAge, now, entry) == Refuse(NoRoom) ==>
      FindTrip(ts, tid).Some? && (FindTrip(ts, tid).value.rooms <= 0 || FindTrip(ts, tid).value.rooms < qty)
    ensures Admission(ts, bs, w, uid, tid, qty, groupMinAge, now, entry) == Refuse(NotFirstInLine) ==>
      Count(w, LiveOfferOf(tid, uid, now)) == 0 && !GateOpen(w, uid, tid, FindTrip(ts, tid).value.rooms, now)
  {
  }

  /** An admitted reservation names an existing trip with room for it. */
  lemma AdmittedTrip(ts: seq<Trip>, bs: seq<Booking>, w: seq<WaitEntry>, uid: int, tid: int,
                     qty: int, groupMinAge: Option<int>, now: int, entry: Entry)
    requires Admission(ts, bs, w, uid, tid, qty, groupMinAge, now, entry).Admit?
    ensures FindTrip(ts, tid).Some? && qty <= FindTrip(ts, tid).value.rooms
  {
  }

  /** Create or update the booking: an Active (user, trip) booking grows by `qty` and
      takes the new group minimum age; otherwise a new Active booking is inserted. */
  function UpsertBooking(bs: seq<Booking>, nextId: int, uid: int, tid: int, qty: int, groupMinAge: Option<int>): seq<Booking>
  {
    match FirstIndex(bs, ActiveOf(uid, tid))
    case Some(i) => bs[i := bs[i].(quantity := bs[i].quantity + qty, groupMinAge := groupMinAge)]
    case None => bs + [Booking(nextId, uid, tid, Active, false, None, qty, groupMinAge)]
  }

  /** UPDATE Trips SET AvailableRooms = AvailableRooms + delta WHERE TripId = tid */
  function AdjustRooms(ts: seq<Trip>, tid: int, delta: int): seq<Trip>
  {
    seq(|ts|, i requires 0 <= i < |ts| => if ts[i].id == tid then ts[i].(rooms := ts[i].rooms + delta) else ts[i])
  }

  /** The UPDATE rewrites the rooms of the rows with that TripId and nothing else. */
  lemma AdjustRoomsAt(ts: seq<Trip>, tid: int, delta: int)
    ensures |AdjustRooms(ts, tid, delta)| == |ts|
    ensures forall i | 0 <= i < |ts| :: (AdjustRooms(ts, tid, delta)[i] ==
      if ts[i].id == tid then ts[i].(rooms := ts[i].rooms + delta) else ts[i])
  {
  }

  /** Every trip keeps its capacity: free rooms plus rooms held by Active bookings. */
  ghost predicate SameCapacity(ts: seq<Trip>, bs: seq<Booking>, ts': seq<Trip>, bs': seq<Booking>)
  {
    forall k :: Capacity(ts', bs', k) == Capacity(ts, bs, k)
  }

  /** The booking confirmation, sent after the commit to the user's address; a failed
      send (a user in `undeliverable`) is ignored. */
  function ConfirmationMail(us: seq<User>, uid: int, tid: int, qty: int, undeliverable: set<int>): seq<Mail>
  {
    if UserExists(us, uid) && uid !in undeliverable then [Mail(uid, BookingConfirmation(tid, qty))] else []
  }

  datatype ReserveOutcome = LoginRequired | Refused(reason: Refusal) | Booked(bookingId: int)

  /** Start / BookNow. `user` is the session's user (None: not logged in); a user in
      `undeliverable` stands for a confirmation mail that fails, which the action ignores. */
  method Reserve(db: Database, user: Option<int>, tid: int, qty: int, groupMinAge: Option<int>,
                 now: int, entry: Entry, undeliverable: set<int>) returns (r: ReserveOutcome)
    requires db.Valid()
    modifies db`bookings, db`trips, db`waiting, db`outbox, db`nextBookingId
    ensures db.Valid()
    ensures user.None? ==> r == LoginRequired
    ensures r.LoginRequired? || r.Refused? ==>
      && db.bookings == old(db.bookings) && db.trips == old(db.trips) && db.waiting == old(db.waiting)
      && db.outbox == old(db.outbox) && db.nextBookingId == old(db.nextBookingId)
    ensures user.Some? ==>
      var a := Admission(old(db.trips), old(db.bookings), old(db.waiting), user.value, tid, CoercedQty(qty),
                         groupMinAge, now, entry);
      (a.Refuse? ==> r == Refused(a.reason)) && (a.Admit? <==> r.Booked?)
    ensures r.Booked? ==>
      var uid, q := user.value, CoercedQty(qty);
      && db.bookings == UpsertBooking(old(db.bookings), old(db.nextBookingId), uid, tid, q, groupMinAge)
      && db.trips == AdjustRooms(old(db.trips), tid, -q)
      && db.waiting == Filter(old(db.waiting), NotEntryOf(tid, uid))
      && db.outbox == old(db.outbox) +
           ConfirmationMail(db.users, uid, tid, q, undeliverable)
    ensures r.Booked? ==>
      exists j | 0 <= j < |db.bookings| :: db.bookings[j].id == r.bookingId && ActiveOf(user.value, tid)(db.bookings[j])
  {
    if user.None? {
      return LoginRequired;
    }
    var uid := user.value;
    var q := CoercedQty(qty);
    var admission := Admission(db.trips, db.bookings, db.waiting, uid, tid, q, groupMinAge, now, entry);
    if admission.Refuse? {
      return Refused(admission.reason);
    }
    var bookingId := ApplyBooking(db, uid, tid, q, groupMinAge, now, entry, undeliverable);
    return Booked(bookingId);
  }

  /** The writes of an admitted reservation, in the order the actions make them. */
  method ApplyBooking(db: Database, uid: int, tid: int, q: int, groupMinAge: Option<int>, now: int, entry: Entry,
                      undeliverable: set<int>) returns (bookingId: int)
    requires db.Valid() && q >= 1
    requires Admission(db.trips, db.bookings, db.waiting, uid, tid, q, groupMinAge, now, entry).Admit?
    modifies db`bookings, db`trips, db`waiting, db`outbox, db`nextBookingId
    ensures db.Valid()
    ensures db.bookings == UpsertBooking(old(db.bookings), old(db.nextBookingId), uid, tid, q, groupMinAge)
    ensures db.trips == AdjustRooms(old(db.trips), tid, -q)
    ensures db.waiting == Filter(old(db.waiting), NotEntryOf(tid, uid))
    ensures db.outbox == old(db.outbox) +
      ConfirmationMail(db.users, uid, tid, q, undeliverable)
    ensures exists j | 0 <= j < |db.bookings| :: db.bookings[j].id == bookingId && ActiveOf(uid, tid)(db.bookings[j])
  {
    AdmittedTrip(db.trips, db.bookings, db.waiting, uid, tid, q, groupMinAge, now, entry);
    var trip := FindTrip(db.trips, tid).value;
    AdmittedKeepsInvariants(db.trips, db.nextTripId, db.bookings, db.nextBookingId, uid, tid, q, groupMinAge, trip);
    bookingId := SaveBooking(db, uid, tid, q, groupMinAge);
    // Update rooms
    db.trips := AdjustRooms(db.trips, tid, -q);
    // Remove from waiting list
    FilterKeepsWaitingValid(db.waiting, NotEntryOf(tid, uid), db.nextWaitingId);
    db.waiting := Filter(db.waiting, NotEntryOf(tid, uid));
    // Confirmation mail, after the commit
    db.outbox := db.outbox + ConfirmationMail(db.users, uid, tid, q, undeliverable);
  }

  /** Create or update the booking row; the new row takes the next identity value. */
  method SaveBooking(db: Database, uid: int, tid: int, q: int, groupMinAge: Option<int>) returns (bookingId: int)
    requires BookingsValid(db.bookings, db.nextBookingId) && q >= 1
    modifies db`bookings, db`nextBookingId
    ensures db.bookings == UpsertBooking(old(db.bookings), old(db.nextBookingId), uid, tid, q, groupMinAge)
    ensures db.nextBookingId ==
      if FirstIndex(old(db.bookings), ActiveOf(uid, tid)).Some? then old(db.nextBookingId) else old(db.nextBookingId) + 1
    ensures BookingsValid(db.bookings, db.nextBookingId)
    ensures exists j | 0 <= j < |db.bookings| :: db.bookings[j].id == bookingId && ActiveOf(uid, tid)(db.bookings[j])
  {
    UpsertKeepsOneActivePerPair(db.bookings, db.nextBookingId, uid, tid, q, groupMinAge);
    var existing := FirstIndex(db.bookings, ActiveOf(uid, tid));
    if existing.Some? {
      var i := existing.value;
      bookingId := db.bookings[i].id;
      db.bookings := db.bookings[i := db.bookings[i].(quantity := db.bookings[i].quantity + q, groupMinAge := groupMinAge)];
      assert db.bookings[i].id == bookingId;
    } else {
      bookingId := db.nextBookingId;
      db.bookings := db.bookings + [Booking(bookingId, uid, tid, Active, false, None, q, groupMinAge)];
      db.nextBookingId := db.nextBookingId + 1;
      assert db.bookings[|db.bookings| - 1].id == bookingId;
    }
  }

  // ----- Reserve's effect on the tables -----

  /** Changing one trip's rooms changes only that trip's AvailableRooms. */
  lemma AdjustRoomsEffect(ts: seq<Trip>, tid: int, delta: int, k: int)
    ensures RoomsOf(AdjustRooms(ts, tid, delta), k) ==
      RoomsOf(ts, k) + (if k == tid && FindTrip(ts, tid).Some? then delta else 0)
  {
    var r := AdjustRooms(ts, tid, delta);
    AdjustRoomsAt(ts, tid, delta);
    FirstIndexPointwise(r, ts, TripWithId(k));
  }

  /** The upsert adds exactly `qty` to the rooms held on the trip and leaves every other
      trip's held rooms alone. */
  lemma UpsertHeldRooms(bs: seq<Booking>, nextId: int, uid: int, tid: int, qty: int, groupMinAge: Option<int>, k: int)
    ensures ActiveQty(UpsertBooking(bs, nextId, uid, tid, qty, groupMinAge), k) ==
      ActiveQty(bs, k) + (if k == tid then qty else 0)
  {
    match FirstIndex(bs, ActiveOf(uid, tid))
    case Some(i) =>
      ActiveQtyUpdate(bs, i, bs[i].(quantity := bs[i].quantity + qty, groupMinAge := groupMinAge), k);
    case None =>
      ActiveQtyAppend(bs, Booking(nextId, uid, tid, Active, false, None, qty, groupMinAge), k);
  }

  /** Moving rooms of trip `tid` between AvailableRooms and the rooms its Active
      bookings hold keeps every trip's capacity. */
  lemma CapacityKept(ts: seq<Trip>, bs: seq<Booking>, ts': seq<Trip>, bs': seq<Booking>, tid: int, delta: int)
    requires forall k :: RoomsOf(ts', k) == RoomsOf(ts, k) + (if k == tid then delta else 0)
    requires forall k :: ActiveQty(bs', k) == ActiveQty(bs, k) - (if k == tid then delta else 0)
    ensures SameCapacity(ts, bs, ts', bs')
  {
  }

  lemma RoomsTaken(ts: seq<Trip>, tid: int, q: int)
    requires FindTrip(ts, tid).Some?
    ensures forall k :: RoomsOf(AdjustRooms(ts, tid, -q), k) == RoomsOf(ts, k) + (if k == tid then -q else 0)
  {
    forall k {
      AdjustRoomsEffect(ts, tid, -q, k);
    }
  }

  lemma RoomsHeld(bs: seq<Booking>, nextId: int, uid: int, tid: int, qty: int, groupMinAge: Option<int>)
    ensures forall k :: (ActiveQty(UpsertBooking(bs, nextId, uid, tid, qty, groupMinAge), k) ==
      ActiveQty(bs, k) + (if k == tid then qty else 0))
  {
    forall k {
      UpsertHeldRooms(bs, nextId, uid, tid, qty, groupMinAge, k);
    }
  }

  /** Reserve conserves every trip's capacity: the rooms it takes from AvailableRooms are
      exactly the rooms the booking now holds. */
  lemma ReserveKeepsCapacity(ts: seq<Trip>, bs: seq<Booking>, nextId: int, uid: int, tid: int, qty: int,
                             groupMinAge: Option<int>)
    requires FindTrip(ts, tid).Some?
    ensures SameCapacity(ts, bs, AdjustRooms(ts, tid, -qty), UpsertBooking(bs, nextId, uid, tid, qty, groupMinAge))
  {
    RoomsTaken(ts, tid, qty);
    RoomsHeld(bs, nextId, uid, tid, qty, groupMinAge);
    CapacityKept(ts, bs, AdjustRooms(ts, tid, -qty), UpsertBooking(bs, nextId, uid, tid, qty, groupMinAge), tid, -qty);
  }

  /** The upsert leaves exactly one Active booking for the (user, trip) pair and keeps
      every table invariant of Bookings. */
  lemma UpsertKeepsOneActivePerPair(bs: seq<Booking>, nextId: int, uid: int, tid: int, qty: int,
                                    groupMinAge: Option<int>)
    requires BookingsValid(bs, nextId)
    requires qty >= 1
    ensures var r := UpsertBooking(bs, nextId, uid, tid, qty, groupMinAge);
      BookingsValid(r, if FirstIndex(bs, ActiveOf(uid, tid)).Some? then nextId else nextId + 1)
    ensures Count(UpsertBooking(bs, nextId, uid, tid, qty, groupMinAge), ActiveOf(uid, tid)) == 1
  {
    var r := UpsertBooking(bs, nextId, uid, tid, qty, groupMinAge);
    var f := FirstIndex(bs, ActiveOf(uid, tid));
    if f.Some? {
      var i := f.value;
      assert r == bs[i := bs[i].(quantity := bs[i].quantity + qty, groupMinAge := groupMinAge)];
      GrowBookingValid(bs, nextId, i, uid, tid, qty, groupMinAge);
    } else {
      assert r == bs + [Booking(nextId, uid, tid, Active, false, None, qty, groupMinAge)];
      NewBookingValid(bs, nextId, uid, tid, qty, groupMinAge);
    }
  }

  /** Growing the pair's Active booking keeps Bookings valid. */
  lemma GrowBookingValid(bs: seq<Booking>, nextId: int, i: int, uid: int, tid: int, qty: int,
                         groupMinAge: Option<int>)
    requires BookingsValid(bs, nextId)
    requires qty >= 1 && 0 <= i < |bs| && ActiveOf(uid, tid)(bs[i])
    ensures var r := bs[i := bs[i].(quantity := bs[i].quantity + qty, groupMinAge := groupMinAge)];
      BookingsValid(r, nextId) && Count(r, ActiveOf(uid, tid)) == 1
  {
    var p := ActiveOf(uid, tid);
    var b := bs[i].(quantity := bs[i].quantity + qty, groupMinAge := groupMinAge);
    var r := bs[i := b];
    assert forall j | 0 <= j < |r| :: BookingKey(r[j]) == BookingKey(bs[j]);
    forall x | x in r ensures 0 < x.id < nextId && x.quantity >= 1 && (x.isPaid <==> x.paidAt.Some?) {
      var j :| 0 <= j < |r| && r[j] == x;
      assert bs[j] in bs;
    }
    assert OneActivePerPair(r) by {
      forall j, k | 0 <= j < k < |r| && r[j].status == Active && r[k].status == Active
        ensures r[j].userId != r[k].userId || r[j].tripId != r[k].tripId
      {
        assert r[j].userId == bs[j].userId && r[j].tripId == bs[j].tripId && r[j].status == bs[j].status;
        assert r[k].userId == bs[k].userId && r[k].tripId == bs[k].tripId && r[k].status == bs[k].status;
      }
    }
    OnlyActiveOfPair(bs, i, uid, tid);
    CountUpdate(bs, i, b, p);
  }

  /** Appending a new Active booking for a pair that has none keeps Bookings valid. */
  lemma NewBookingValid(bs: seq<Booking>, nextId: int, uid: int, tid: int, qty: int, groupMinAge: Option<int>)
    requires BookingsValid(bs, nextId)
    requires qty >= 1 && FirstIndex(bs, ActiveOf(uid, tid)).None?
    ensures var r := bs + [Booking(nextId, uid, tid, Active, false, None, qty, groupMinAge)];
      BookingsValid(r, nextId + 1) && Count(r, ActiveOf(uid, tid)) == 1
  {
    var p := ActiveOf(uid, tid);
    var b := Booking(nextId, uid, tid, Active, false, None, qty, groupMinAge);
    var r := bs + [b];
    FirstIndexSpec(bs, p);
    forall y | y in bs ensures BookingKey(y) != BookingKey(b) { }
    AppendDistinct(bs, b, BookingKey);
    forall x | x in r ensures 0 < x.id < nextId + 1 && x.quantity >= 1 && (x.isPaid <==> x.paidAt.Some?) {
      if x != b {
        assert x in bs;
      }
    }
    assert OneActivePerPair(r) by {
      forall j, k | 0 <= j < k < |r| && r[j].status == Active && r[k].status == Active
        ensures r[j].userId != r[k].userId || r[j].tripId != r[k].tripId
      {
        if k == |bs| {
          assert !p(bs[j]);
        } else {
          assert r[j] == bs[j] && r[k] == bs[k];
        }
      }
    }
    FilterNone(bs, p);
    CountAppend(bs, b, p);
  }

  /** In a table with one Active booking per pair, the pair's Active booking at `i` is the
      only row the pair's WHERE matches. */
  lemma OnlyActiveOfPair(bs: seq<Booking>, i: int, uid: int, tid: int)
    requires OneActivePerPair(bs)
    requires 0 <= i < |bs| && ActiveOf(uid, tid)(bs[i])
    ensures Count(bs, ActiveOf(uid, tid)) == 1
  {
    var p := ActiveOf(uid, tid);
    FilterAround(bs, i, p);
    forall j | 0 <= j < |bs| && j != i ensures !p(bs[j]) {
      if j < i {
        assert !(bs[j].userId == bs[i].userId && bs[j].tripId == bs[i].tripId && bs[j].status == Active);
      } else {
        assert !(bs[j].userId == bs[i].userId && bs[j].tripId == bs[i].tripId && bs[j].status == Active);
      }
    }
    forall x | x in bs[..i] ensures !p(x) {
      var j :| 0 <= j < i && bs[..i][j] == x;
      assert bs[j] == x;
    }
    forall x | x in bs[i+1..] ensures !p(x) {
      var j :| 0 <= j < |bs[i+1..]| && bs[i+1..][j] == x;
      assert bs[i + 1 + j] == x;
    }
    FilterNone(bs[..i], p);
    FilterNone(bs[i+1..], p);
    CountSingle(bs[i], p);
  }

  /** Moving rooms keeps Trips valid as long as the trip's count stays non-negative. */
  lemma AdjustRoomsValid(ts: seq<Trip>, nextId: int, tid: int, delta: int)
    requires TripsValid(ts, nextId)
    requires FindTrip(ts, tid).Some? ==> FindTrip(ts, tid).value.rooms + delta >= 0
    ensures TripsValid(AdjustRooms(ts, tid, delta), nextId)
  {
    var r := AdjustRooms(ts, tid, delta);
    AdjustRoomsAt(ts, tid, delta);
    assert forall i | 0 <= i < |r| :: TripKey(r[i]) == TripKey(ts[i]);
    forall x | x in r ensures 0 < x.id < nextId && x.rooms >= 0 {
      var j :| 0 <= j < |r| && r[j] == x;
      assert ts[j] in ts;
      if ts[j].id == tid {
        FindTripAt(ts, j);
      }
    }
  }

  /** What an admitted reservation does keeps the Trips and Bookings invariants. */
  lemma AdmittedKeepsInvariants(ts: seq<Trip>, nextTripId: int, bs: seq<Booking>, nextId: int, uid: int, tid: int,
                                qty: int, groupMinAge: Option<int>, t: Trip)
    requires TripsValid(ts, nextTripId)
    requires BookingsValid(bs, nextId)
    requires FindTrip(ts, tid) == Some(t) && 1 <= qty <= t.rooms
    ensures TripsValid(AdjustRooms(ts, tid, -qty), nextTripId)
    ensures BookingsValid(UpsertBooking(bs, nextId, uid, tid, qty, groupMinAge),
      if FirstIndex(bs, ActiveOf(uid, tid)).Some? then nextId else nextId + 1)
  {
    AdjustRoomsValid(ts, nextTripId, tid, -qty);
    UpsertKeepsOneActivePerPair(bs, nextId, uid, tid, qty, groupMinAge);
  }

  // ----- Cancel -----

  datatype CancelOutcome = SignInRequired | BookingNotFound | TooLateToCancel | CancelDone

  /** The cancellation window: with CancellationDays above 0, a booking may no longer be
      cancelled once the trip starts in fewer than that many days. */
  predicate WindowClosed(t: Trip, now: int)
  {
    t.cancellationDays > 0 && t.startDate - now < t.cancellationDays * DAY
  }

  /** The booking row after cancellation: Cancelled, and a paid booking is marked unpaid. */
  function CancelRow(b: Booking): (c: Booking)
    ensures c.id == b.id && c.userId == b.userId && c.tripId == b.tripId && c.quantity == b.quantity
    ensures c.status == Cancelled && !c.isPaid && c.groupMinAge == b.groupMinAge
    ensures c.paidAt == if b.isPaid then None else b.paidAt
  {
    if b.isPaid then b.(status := Cancelled, isPaid := false, paidAt := None) else b.(status := Cancelled)
  }

  /** What Cancel answers a signed-in caller. */
  function CancelVerdict(ts: seq<Trip>, bs: seq<Booking>, bid: int, uid: int, now: int): (r: CancelOutcome)
    ensures r != BookingNotFound ==>
      exists i | 0 <= i < |bs| :: OwnActive(bid, uid)(bs[i]) && FindTrip(ts, bs[i].tripId).Some? &&
        (r == CancelDone <==> !WindowClosed(FindTrip(ts, bs[i].tripId).value, now))
  {
    match OwnActiveRow(ts, bs, bid, uid)
    case None => BookingNotFound
    case Some((_, t)) => if WindowClosed(t, now) then TooLateToCancel else CancelDone
  }

  /** What Cancel answers a signed-in caller, in terms of the rows it reads: it cancels
      exactly when the caller has an Active booking with that id, on an existing trip,
      outside the trip's cancellation window. */
  lemma CancelVerdictMeans(ts: seq<Trip>, bs: seq<Booking>, bid: int, uid: int, now: int)
    requires DistinctBy(bs, BookingKey)
    ensures CancelVerdict(ts, bs, bid, uid, now) == CancelDone <==>
      exists i | 0 <= i < |bs| :: OwnActive(bid, uid)(bs[i]) && FindTrip(ts, bs[i].tripId).Some? &&
        !WindowClosed(FindTrip(ts, bs[i].tripId).value, now)
    ensures CancelVerdict(ts, bs, bid, uid, now) == BookingNotFound <==>
      forall i | 0 <= i < |bs| && OwnActive(bid, uid)(bs[i]) :: FindTrip(ts, bs[i].tripId).None?
    ensures CancelVerdict(ts, bs, bid, uid, now) == TooLateToCancel <==>
      exists i | 0 <= i < |bs| :: OwnActive(bid, uid)(bs[i]) && FindTrip(ts, bs[i].tripId).Some? &&
        WindowClosed(FindTrip(ts, bs[i].tripId).value, now)
  {
    OwnActiveUnique(bs, bid, uid);
  }

  /** The Bookings table after the cancellation's two UPDATEs. */
  function CancelBooking(bs: seq<Booking>, i: nat): seq<Booking>
    requires i < |bs|
  {
    bs[i := CancelRow(bs[i])]
  }

  /** The refund row a paid booking adds to Payments: the trip's price. */
  function Refund(ps: seq<Payment>, b: Booking, t: Trip): seq<Payment>
  {
    if b.isPaid then ps + [Payment(b.id, t.price, Refunded)] else ps
  }

  /** Cancel. Every refusal leaves the tables unchanged; a cancellation frees the
      booking's rooms, refunds a paid booking and then runs the waiting-list promotion. */
  method Cancel(db: Database, user: Option<int>, bid: int, now: int, undeliverable: set<int>) returns (r: CancelOutcome)
    requires db.Valid()
    modifies db`bookings, db`trips, db`payments, db`waiting, db`outbox
    ensures db.Valid()
    ensures user.None? ==> r == SignInRequired
    ensures user.Some? ==> r == CancelVerdict(old(db.trips), old(db.bookings), bid, user.value, now)
    ensures r != CancelDone ==>
      && db.bookings == old(db.bookings) && db.trips == old(db.trips) && db.payments == old(db.payments)
      && db.waiting == old(db.waiting) && db.outbox == old(db.outbox)
    ensures r == CancelDone ==> OwnActiveRow(old(db.trips), old(db.bookings), bid, user.value).Some?
    ensures r == CancelDone ==>
      var (i, t) := OwnActiveRow(old(db.trips), old(db.bookings), bid, user.value).value;
      && db.bookings == CancelBooking(old(db.bookings), i)
      && db.trips == AdjustRooms(old(db.trips), t.id, old(db.bookings)[i].quantity)
      && db.payments == Refund(old(db.payments), old(db.bookings)[i], t)
      && db.waiting == Promoted(db.trips, db.users, old(db.waiting), t.id, now)
      && db.outbox == old(db.outbox) + PromotionMails(db.trips, db.users, old(db.waiting), t.id, now, undeliverable)
  {
    if user.None? {
      return SignInRequired;
    }
    var uid := user.value;
    r := CancelVerdict(db.trips, db.bookings, bid, uid, now);
    if r != CancelDone {
      return;
    }
    var target := OwnActiveRow(db.trips, db.bookings, bid, uid);
    var i, t := target.value.0, target.value.1;
    WithdrawBooking(db, i, t);
    // After the commit: offer the freed rooms to the waiting list
    PromoteWaitingList(db, t.id, now, undeliverable);
  }

  /** The offer mails the promotion sends for a trip (none when nothing is selected). */
  function PromotionMails(ts: seq<Trip>, us: seq<User>, w: seq<WaitEntry>, tid: int, now: int,
                          undeliverable: set<int>): seq<Mail>
  {
    match Selection(ts, us, w, tid, now)
    case None => []
    case Some(chosen) => OfferMails(chosen, tid, undeliverable)
  }

  /** ProcessTripWaitingList run to completion. */
  method PromoteWaitingList(db: Database, tid: int, now: int, undeliverable: set<int>)
    requires db.Valid()
    modifies db`waiting, db`outbox
    ensures db.Valid()
    ensures db.waiting == Promoted(db.trips, db.users, old(db.waiting), tid, now)
    ensures db.outbox == old(db.outbox) + PromotionMails(db.trips, db.users, old(db.waiting), tid, now, undeliverable)
  {
    ProcessTripWaitingList(db, tid, now, undeliverable, None);
    ghost var sel := Selection(db.trips, db.users, old(db.waiting), tid, now);
    if sel.Some? {
      assert sel.value[..Completed(None, |sel.value|)] == sel.value;
    }
  }

  /** The transaction of a cancellation: the two UPDATEs of the booking, the refund row
      and the rooms given back. */
  method WithdrawBooking(db: Database, i: nat, t: Trip)
    requires db.Valid()
    requires i < |db.bookings| && db.bookings[i].status == Active && FindTrip(db.trips, db.bookings[i].tripId) == Some(t)
    modifies db`bookings, db`trips, db`payments
    ensures db.Valid()
    ensures db.bookings == CancelBooking(old(db.bookings), i)
    ensures db.trips == AdjustRooms(old(db.trips), t.id, old(db.bookings)[i].quantity)
    ensures db.payments == Refund(old(db.payments), old(db.bookings)[i], t)
  {
    var b := db.bookings[i];
    CancelKeepsInvariants(db.trips, db.nextTripId, db.bookings, db.nextBookingId, i, t);
    // Cancel the booking; a paid one is marked unpaid and refunded at the trip's price
    db.bookings := CancelBooking(db.bookings, i);
    db.payments := Refund(db.payments, b, t);
    // Free up the booking's rooms
    db.trips := AdjustRooms(db.trips, t.id, b.quantity);
  }

  lemma RoomsReturned(ts: seq<Trip>, tid: int, q: int)
    requires FindTrip(ts, tid).Some?
    ensures forall k :: RoomsOf(AdjustRooms(ts, tid, q), k) == RoomsOf(ts, k) + (if k == tid then q else 0)
  {
    forall k {
      AdjustRoomsEffect(ts, tid, q, k);
    }
  }

  lemma RoomsReleased(bs: seq<Booking>, i: nat)
    requires i < |bs| && bs[i].status == Active
    ensures forall k :: (ActiveQty(CancelBooking(bs, i), k) ==
      ActiveQty(bs, k) - (if k == bs[i].tripId then bs[i].quantity else 0))
  {
    forall k {
      ActiveQtyUpdate(bs, i, CancelRow(bs[i]), k);
    }
  }

  /** Cancelling conserves every trip's capacity: the rooms the booking held go back to
      AvailableRooms. */
  lemma CancelKeepsCapacity(ts: seq<Trip>, bs: seq<Booking>, i: nat, t: Trip)
    requires i < |bs| && bs[i].status == Active && FindTrip(ts, bs[i].tripId) == Some(t)
    ensures SameCapacity(ts, bs, AdjustRooms(ts, t.id, bs[i].quantity), CancelBooking(bs, i))
  {
    RoomsReturned(ts, t.id, bs[i].quantity);
    RoomsReleased(bs, i);
    CapacityKept(ts, bs, AdjustRooms(ts, t.id, bs[i].quantity), CancelBooking(bs, i), t.id, bs[i].quantity);
  }

  /** Cancelling keeps the Trips and Bookings invariants, and leaves the (user, trip)
      pair with no Active booking, so the user may book the trip again. */
  lemma CancelKeepsInvariants(ts: seq<Trip>, nextTripId: int, bs: seq<Booking>, nextId: int, i: nat, t: Trip)
    requires TripsValid(ts, nextTripId) && BookingsValid(bs, nextId)
    requires i < |bs| && bs[i].status == Active && FindTrip(ts, bs[i].tripId) == Some(t)
    ensures TripsValid(AdjustRooms(ts, t.id, bs[i].quantity), nextTripId)
    ensures BookingsValid(CancelBooking(bs, i), nextId)
    ensures Count(CancelBooking(bs, i), ActiveOf(bs[i].userId, bs[i].tripId)) == 0
  {
    assert bs[i] in bs;
    AdjustRoomsValid(ts, nextTripId, t.id, bs[i].quantity);
    var r := CancelBooking(bs, i);
    var p := ActiveOf(bs[i].userId, bs[i].tripId);
    assert forall j | 0 <= j < |r| :: BookingKey(r[j]) == BookingKey(bs[j]);
    forall x | x in r ensures 0 < x.id < nextId && x.quantity >= 1 && (x.isPaid <==> x.paidAt.Some?) {
      var j :| 0 <= j < |r| && r[j] == x;
      assert bs[j] in bs;
    }
    assert OneActivePerPair(r) by {
      forall j, k | 0 <= j < k < |r| && r[j].status == Active && r[k].status == Active
        ensures r[j].userId != r[k].userId || r[j].tripId != r[k].tripId
      {
        assert r[j] == bs[j] && r[k] == bs[k];
      }
    }
    OnlyActiveOfPair(bs, i, bs[i].userId, bs[i].tripId);
    CountUpdate(bs, i, CancelRow(bs[i]), p);
  }
}
