/** The store behind the controllers: one row type per table, the WHERE predicates the
    SQL statements use, the invariants every action keeps, and the database itself as
    an object whose fields are the tables. */
module Schema {
  import opened Relational

  /** Instants are whole seconds since 0001-01-01 00:00, the origin of DateTime, so
      default(DateTime) is 0. */
  const HOUR := 3600
  const DAY := 24 * HOUR
  /** How long a waiting-list offer lasts: DATEADD(hour, 24, GETDATE()). */
  const OFFER_WINDOW := 24 * HOUR
  /** 1753-01-01, the earliest instant SQL Server's datetime holds (639905 days in). */
  const SQL_MIN_DATE := 639905 * DAY

  // ----- Rows -----

  /** A row of Trips. `rooms` is AvailableRooms; a missing CancellationDays reads as 0. */
  datatype Trip = Trip(
    id: int,
    destination: string,
    country: string,
    category: string,
    description: Option<string>,
    startDate: int,
    endDate: int,
    price: real,
    oldPrice: Option<real>,
    discountEndDate: Option<int>,
    rooms: int,
    minAge: Option<int>,
    cancellationDays: int)

  datatype BookingStatus = Active | Cancelled

  /** A row of Bookings. */
  datatype Booking = Booking(
    id: int,
    userId: int,
    tripId: int,
    status: BookingStatus,
    isPaid: bool,
    paidAt: Option<int>,
    quantity: int,
    groupMinAge: Option<int>)

  /** A row of WaitingList. An entry holds an offer once it has been notified; the offer
      is live while the clock is before its expiry. */
  datatype WaitEntry = WaitEntry(
    id: int,
    tripId: int,
    userId: int,
    joinDate: int,
    notifiedAt: Option<int>,
    expirationAt: Option<int>)

  datatype PaymentStatus = Success | Refunded

  /** A row of Payments, the ledger of charges and refunds. */
  datatype Payment = Payment(bookingId: int, amount: real, status: PaymentStatus)

  /** A row of Users, as far as these actions read it. */
  datatype User = User(id: int, status: string)

  /** A row of Reviews (trip reviews). */
  datatype Review = Review(id: int, tripId: int, userId: int, rating: int, comment: Option<string>)

  /** A row of SiteReviews (reviews of the agency itself). */
  datatype SiteReview = SiteReview(id: int, userId: int, rating: int, comment: Option<string>)

  /** A row of TripImages. */
  datatype TripImage = TripImage(tripId: int, path: string)

  /** The messages the actions send; the mail transport itself is outside the model. */
  datatype MailKind =
    | BookingConfirmation(tripId: int, quantity: int)
    | RoomOffer(tripId: int)
    | SeatAvailable(tripId: int)
    | PaymentConfirmation(bookingId: int)
  datatype Mail = Mail(userId: int, kind: MailKind)

  // ----- Keys -----

  function TripKey(t: Trip): int { t.id }
  function BookingKey(b: Booking): int { b.id }
  function WaitKey(e: WaitEntry): int { e.id }
  /** The unique (TripId, UserId) key of WaitingList. */
  function WaitPair(e: WaitEntry): (int, int) { (e.tripId, e.userId) }
  function UserKey(u: User): int { u.id }
  function ReviewKey(r: Review): int { r.id }
  function SiteReviewKey(r: SiteReview): int { r.id }

  // ----- WHERE predicates -----

  function TripWithId(id: int): Trip -> bool { (t: Trip) => t.id == id }
  function UserWithId(id: int): User -> bool { (u: User) => u.id == id }

  function ActiveOn(tid: int): Booking -> bool { (b: Booking) => b.status == Active && b.tripId == tid }
  function ActiveOf(uid: int, tid: int): Booking -> bool
  { (b: Booking) => b.userId == uid && b.tripId == tid && b.status == Active }
  function BookingOnTrip(tid: int): Booking -> bool { (b: Booking) => b.tripId == tid }
  function BookingOfUser(uid: int): Booking -> bool { (b: Booking) => b.userId == uid }
  /** WHERE BookingId = bid AND UserId = uid AND Status = 'Active' */
  function OwnActive(bid: int, uid: int): Booking -> bool
  { (b: Booking) => b.id == bid && b.userId == uid && b.status == Active }

  function OfTrip(tid: int): WaitEntry -> bool { (e: WaitEntry) => e.tripId == tid }
  function OtherTrip(tid: int): WaitEntry -> bool { (e: WaitEntry) => e.tripId != tid }
  function EntryOf(tid: int, uid: int): WaitEntry -> bool { (e: WaitEntry) => e.tripId == tid && e.userId == uid }
  function NotEntryOf(tid: int, uid: int): WaitEntry -> bool { (e: WaitEntry) => !(e.tripId == tid && e.userId == uid) }
  function UnnotifiedOn(tid: int): WaitEntry -> bool { (e: WaitEntry) => e.tripId == tid && e.notifiedAt.None? }

  /** ExpirationAt IS NOT NULL AND GETDATE() < ExpirationAt */
  predicate IsLiveOffer(e: WaitEntry, now: int)
  {
    e.expirationAt.Some? && now < e.expirationAt.value
  }
  function LiveOfferOn(tid: int, now: int): WaitEntry -> bool
  { (e: WaitEntry) => e.tripId == tid && IsLiveOffer(e, now) }
  function LiveOfferOf(tid: int, uid: int, now: int): WaitEntry -> bool
  { (e: WaitEntry) => e.tripId == tid && e.userId == uid && IsLiveOffer(e, now) }

  // ----- Lookups and aggregates -----

  /** SELECT ... FROM Trips WHERE TripId = id */
  function FindTrip(ts: seq<Trip>, id: int): (r: Option<Trip>)
    ensures r.Some? ==> r.value in ts && r.value.id == id
    ensures r.None? ==> forall t | t in ts :: t.id != id
  {
    FirstIndexSpec(ts, TripWithId(id));
    match FirstIndex(ts, TripWithId(id))
    case None => None
    case Some(i) => Some(ts[i])
  }

  /** Whether a Users row with this id exists (the JOIN Users the mail queries make). */
  predicate UserExists(us: seq<User>, uid: int)
  {
    exists u | u in us :: u.id == uid
  }

  /** The sum of the quantities of some bookings. */
  function SumQty(bs: seq<Booking>): int
  {
    if bs == [] then 0 else bs[0].quantity + SumQty(bs[1..])
  }

  /** The rooms held by Active bookings of a trip. */
  function ActiveQty(bs: seq<Booking>, tid: int): int
  {
    SumQty(Filter(bs, ActiveOn(tid)))
  }

  /** AvailableRooms of a trip, 0 for a trip that does not exist. */
  function RoomsOf(ts: seq<Trip>, tid: int): int
  {
    match FindTrip(ts, tid)
    case None => 0
    case Some(t) => t.rooms
  }

  /** The rooms of a trip, free or held: what Reserve and Cancel move between the two. */
  function Capacity(ts: seq<Trip>, bs: seq<Booking>, tid: int): int
  {
    RoomsOf(ts, tid) + ActiveQty(bs, tid)
  }

  /** The number of live offers on a trip: `activeNotified` in the source. */
  function LiveOffers(w: seq<WaitEntry>, tid: int, now: int): nat
  {
    Count(w, LiveOfferOn(tid, now))
  }

  lemma {:induction false} SumQtyAppend(a: seq<Booking>, b: seq<Booking>)
    ensures SumQty(a + b) == SumQty(a) + SumQty(b)
  {
    if a == [] {
      assert a + b == b;
    } else {
      assert (a + b)[1..] == a[1..] + b;
      SumQtyAppend(a[1..], b);
    }
  }

  lemma SumQtySingle(b: Booking)
    ensures SumQty([b]) == b.quantity
  {
    assert [b][1..] == [];
  }

  /** Rewriting one booking moves a trip's held rooms by that row's contribution only. */
  lemma ActiveQtyUpdate(bs: seq<Booking>, i: int, b: Booking, tid: int)
    requires 0 <= i < |bs|
    ensures ActiveQty(bs[i := b], tid) ==
      ActiveQty(bs, tid)
      - (if ActiveOn(tid)(bs[i]) then bs[i].quantity else 0)
      + (if ActiveOn(tid)(b) then b.quantity else 0)
  {
    var t := bs[i := b];
    var p := ActiveOn(tid);
    FilterAround(bs, i, p);
    FilterAround(t, i, p);
    assert t[..i] == bs[..i] && t[i+1..] == bs[i+1..];
    assert [bs[i]][1..] == [] && [b][1..] == [];
    SumQtyAppend(Filter(bs[..i], p) + Filter([bs[i]], p), Filter(bs[i+1..], p));
    SumQtyAppend(Filter(bs[..i], p), Filter([bs[i]], p));
    SumQtyAppend(Filter(t[..i], p) + Filter([b], p), Filter(t[i+1..], p));
    SumQtyAppend(Filter(t[..i], p), Filter([b], p));
    SumQtySingle(bs[i]);
    SumQtySingle(b);
  }

  /** Inserting a booking adds its quantity to its trip's held rooms when it is Active. */
  lemma ActiveQtyAppend(bs: seq<Booking>, b: Booking, tid: int)
    ensures ActiveQty(bs + [b], tid) == ActiveQty(bs, tid) + (if ActiveOn(tid)(b) then b.quantity else 0)
  {
    var p := ActiveOn(tid);
    FilterAppend(bs, [b], p);
    assert [b][1..] == [];
    SumQtyAppend(Filter(bs, p), Filter([b], p));
    SumQtySingle(b);
  }

  /** The row Cancel, CreateIntent and Confirm read: the caller's Active booking with that
      id (by its index in the table), joined with its trip. */
  function OwnActiveRow(ts: seq<Trip>, bs: seq<Booking>, bid: int, uid: int): Option<(nat, Trip)>
  {
    match FirstIndex(bs, OwnActive(bid, uid))
    case None => None
    case Some(i) =>
      match FindTrip(ts, bs[i].tripId)
      case None => None
      case Some(t) => Some((i, t))
  }

  /** With unique booking ids, the first row the WHERE matches is the only one. */
  lemma OwnActiveUnique(bs: seq<Booking>, bid: int, uid: int)
    requires DistinctBy(bs, BookingKey)
    ensures forall i | 0 <= i < |bs| && OwnActive(bid, uid)(bs[i]) :: FirstIndex(bs, OwnActive(bid, uid)) == Some(i)
  {
    FirstIndexSpec(bs, OwnActive(bid, uid));
    forall i | 0 <= i < |bs| && OwnActive(bid, uid)(bs[i]) ensures FirstIndex(bs, OwnActive(bid, uid)) == Some(i) {
      var j := FirstIndex(bs, OwnActive(bid, uid)).value;
      assert BookingKey(bs[j]) == BookingKey(bs[i]);
      assert j == i;
    }
  }

  /** With unique trip ids, a trip's id finds exactly that trip. */
  lemma FindTripAt(ts: seq<Trip>, i: int)
    requires DistinctBy(ts, TripKey)
    requires 0 <= i < |ts|
    ensures FindTrip(ts, ts[i].id) == Some(ts[i])
  {
    assert ts[i] in ts;
    var r := FindTrip(ts, ts[i].id);
    var k :| 0 <= k < |ts| && ts[k] == r.value;
    assert TripKey(ts[k]) == TripKey(ts[i]);
    assert forall m | 0 <= m < |ts| && TripKey(ts[m]) == TripKey(ts[i]) :: m == i;
  }

  // ----- Invariants -----

  /** At most one Active booking per (user, trip). */
  predicate OneActivePerPair(bs: seq<Booking>)
  {
    forall i, j | 0 <= i < j < |bs| && bs[i].status == Active && bs[j].status == Active ::
      bs[i].userId != bs[j].userId || bs[i].tripId != bs[j].tripId
  }

  predicate TripsValid(ts: seq<Trip>, nextId: int)
  {
    0 < nextId && DistinctBy(ts, TripKey) && forall t | t in ts :: 0 < t.id < nextId && t.rooms >= 0
  }

  predicate BookingsValid(bs: seq<Booking>, nextId: int)
  {
    && 0 < nextId
    && DistinctBy(bs, BookingKey)
    && OneActivePerPair(bs)
    && forall b | b in bs :: 0 < b.id < nextId && b.quantity >= 1 && (b.isPaid <==> b.paidAt.Some?)
  }

  /** An entry is notified exactly when it carries an expiry. */
  predicate OfferFieldsPaired(e: WaitEntry)
  {
    e.notifiedAt.None? <==> e.expirationAt.None?
  }

  predicate WaitingValid(w: seq<WaitEntry>, nextId: int)
  {
    && 0 < nextId
    && DistinctBy(w, WaitKey)
    && DistinctBy(w, WaitPair)
    && forall e | e in w :: 0 < e.id < nextId && OfferFieldsPaired(e)
  }

  predicate ReviewsValid(rs: seq<Review>, nextId: int)
  {
    0 < nextId && DistinctBy(rs, ReviewKey) && forall r | r in rs :: 0 < r.id < nextId
  }

  predicate SiteReviewsValid(rs: seq<SiteReview>, nextId: int)
  {
    0 < nextId && DistinctBy(rs, SiteReviewKey) && forall r | r in rs :: 0 < r.id < nextId
  }

  /** The database. Each field is a table; identity columns draw from the counters. */
  class Database {
    var trips: seq<Trip>
    var bookings: seq<Booking>
    var waiting: seq<WaitEntry>
    var payments: seq<Payment>
    var users: seq<User>
    var reviews: seq<Review>
    var siteReviews: seq<SiteReview>
    var images: seq<TripImage>
    var outbox: seq<Mail>
    var nextTripId: int
    var nextBookingId: int
    var nextWaitingId: int
    var nextReviewId: int
    var nextSiteReviewId: int

    ghost predicate Valid()
      reads this
    {
      && TripsValid(trips, nextTripId)
      && BookingsValid(bookings, nextBookingId)
      && WaitingValid(waiting, nextWaitingId)
      && DistinctBy(users, UserKey)
      && ReviewsValid(reviews, nextReviewId)
      && SiteReviewsValid(siteReviews, nextSiteReviewId)
    }

    /** An empty store over a given set of registered users. */
    constructor (registered: seq<User>)
      requires DistinctBy(registered, UserKey)
      ensures Valid()
      ensures trips == [] && bookings == [] && waiting == [] && payments == []
      ensures users == registered && reviews == [] && siteReviews == [] && images == [] && outbox == []
    {
      trips, bookings, waiting, payments := [], [], [], [];
      users, reviews, siteReviews, images, outbox := registered, [], [], [], [];
      nextTripId, nextBookingId, nextWaitingId, nextReviewId, nextSiteReviewId := 1, 1, 1, 1, 1;
    }
  }
}
