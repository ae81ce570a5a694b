/** The administrator's actions on trips and users: adding and editing a trip, deleting
    a trip nobody booked, putting a trip on discount, and blocking, unblocking and
    removing users. Every action first sends a caller who is not an administrator to
    the login page, changing nothing. */
module AdminController {
  import opened Relational
  import opened Schema
  import opened TripModel
  import WaitingListHelper

  /** At most one week of discount: DateTime.Now.AddDays(7). */
  const DISCOUNT_WINDOW := 7 * DAY

  // ----- Rewriting trip rows -----

  /** UPDATE Trips SET ... WHERE TripId = tid, the SET given as a rewrite of the row. */
  function UpdateTrip(ts: seq<Trip>, tid: int, edit: Trip -> Trip): seq<Trip>
  {
    seq(|ts|, i requires 0 <= i < |ts| => if ts[i].id == tid then edit(ts[i]) else ts[i])
  }

  /** A rewrite that keeps the trip's id changes only what that id finds. */
  lemma UpdateTripFind(ts: seq<Trip>, tid: int, edit: Trip -> Trip, k: int)
    requires forall t :: edit(t).id == t.id
    ensures FindTrip(UpdateTrip(ts, tid, edit), k) ==
      if k == tid && FindTrip(ts, k).Some? then Some(edit(FindTrip(ts, k).value)) else FindTrip(ts, k)
  {
    var u := UpdateTrip(ts, tid, edit);
    assert forall i | 0 <= i < |ts| :: u[i].id == ts[i].id;
    FirstIndexPointwise(ts, u, TripWithId(k));
  }

  lemma UpdateTripValid(ts: seq<Trip>, nextId: int, tid: int, edit: Trip -> Trip)
    requires TripsValid(ts, nextId)
    requires forall t :: edit(t).id == t.id && (t.rooms >= 0 ==> edit(t).rooms >= 0)
    ensures TripsValid(UpdateTrip(ts, tid, edit), nextId)
  {
    var u := UpdateTrip(ts, tid, edit);
    assert forall i | 0 <= i < |ts| :: TripKey(u[i]) == TripKey(ts[i]) && ts[i] in ts;
  }

  // ----- AddTrip -----

  datatype AddTripOutcome = AddTripNotAdmin | AddTripInvalid | DatesOutOfRange | EndNotAfterStart | TripAdded

  /** Neither date is default(DateTime) or earlier than SQL Server's first datetime. */
  predicate StorableDates(f: TripForm)
  {
    !(f.startDate == 0 || f.endDate == 0 || f.startDate < SQL_MIN_DATE || f.endDate < SQL_MIN_DATE)
  }

  function AddTripVerdict(isAdmin: bool, f: TripForm): AddTripOutcome
  {
    if !isAdmin then AddTripNotAdmin
    else if !ModelStateValid(f) then AddTripInvalid
    else if !StorableDates(f) then DatesOutOfRange
    else if f.endDate <= f.startDate then EndNotAfterStart
    else TripAdded
  }

  /** The strings the INSERT and the UPDATE write are present (the UPDATE passes the
      description without a NULL fallback). */
  predicate HasRequiredText(f: TripForm)
  {
    f.destination.Some? && f.country.Some? && f.category.Some? && f.description.Some?
  }

  /** What a valid form guarantees the write needs. */
  lemma ValidFormWritable(f: TripForm)
    requires ModelStateValid(f)
    ensures HasRequiredText(f) && f.availableRooms >= 0
  {
    ValidFormNames(f);
    ValidFormText(f);
    ValidFormNumbers(f);
  }

  /** The row AddTrip inserts. The columns it does not name keep their defaults: no old
      price, no discount end, and a NULL CancellationDays, which reads as 0. */
  function NewTrip(id: int, f: TripForm): Trip
    requires HasRequiredText(f)
  {
    Trip(id, f.destination.value, f.country.value, f.category.value, f.description,
         f.startDate, f.endDate, f.price, None, None, f.availableRooms, f.minAge, 0)
  }

  method AddTrip(db: Database, isAdmin: bool, f: TripForm) returns (r: AddTripOutcome)
    requires db.Valid()
    modifies db`trips, db`nextTripId
    ensures db.Valid()
    ensures r == AddTripVerdict(isAdmin, f)
    ensures r == TripAdded ==>
      && HasRequiredText(f)
      && db.trips == old(db.trips) + [NewTrip(old(db.nextTripId), f)]
      && db.nextTripId == old(db.nextTripId) + 1
    ensures r != TripAdded ==> db.trips == old(db.trips) && db.nextTripId == old(db.nextTripId)
  {
    if !isAdmin {
      return AddTripNotAdmin;
    }
    if !ModelStateValid(f) {
      return AddTripInvalid;
    }
    if !StorableDates(f) {
      return DatesOutOfRange;
    }
    if f.endDate <= f.startDate {
      return EndNotAfterStart;
    }
    ValidFormWritable(f);
    var t := NewTrip(db.nextTripId, f);
    InsertKeepsTripsValid(db.trips, db.nextTripId, t);
    db.trips := db.trips + [t];
    db.nextTripId := db.nextTripId + 1;
    return TripAdded;
  }

  lemma InsertKeepsTripsValid(ts: seq<Trip>, nextId: int, t: Trip)
    requires TripsValid(ts, nextId)
    requires t.id == nextId && t.rooms >= 0
    ensures TripsValid(ts + [t], nextId + 1)
  {
    AppendDistinct(ts, t, TripKey);
  }

  /** An added trip starts no earlier than 1753-01-01, ends after it starts, and has
      0..500 rooms and one of the five categories. */
  lemma AddedTripIsWellFormed(isAdmin: bool, f: TripForm)
    requires AddTripVerdict(isAdmin, f) == TripAdded
    ensures SQL_MIN_DATE <= f.startDate < f.endDate
    ensures 0 <= f.availableRooms <= 500
    ensures f.category.Some? && f.category.value in CATEGORIES
  {
    ValidFormNumbers(f);
    ValidFormText(f);
  }

  /** The explicit end-after-start test never fires: the DateGreaterThan attribute has
      already made ModelState invalid for such a trip. */
  lemma EndCheckIsRedundant(isAdmin: bool, f: TripForm)
    ensures AddTripVerdict(isAdmin, f) != EndNotAfterStart
  {
    if isAdmin && ModelStateValid(f) {
      ValidFormNumbers(f);
    }
  }

  // ----- EditTrip -----

  datatype EditTripOutcome = EditTripNotAdmin | EditTripInvalid | EditTripFailed | TripEdited

  /** The edited columns; the id, old price, discount end and CancellationDays stay. */
  function EditRow(t: Trip, f: TripForm): Trip
    requires HasRequiredText(f)
  {
    t.(destination := f.destination.value, country := f.country.value, startDate := f.startDate,
       endDate := f.endDate, price := f.price, rooms := f.availableRooms, category := f.category.value,
       minAge := f.minAge, description := f.description)
  }

  function Editing(f: TripForm): Trip -> Trip
    requires HasRequiredText(f)
  {
    (t: Trip) => EditRow(t, f)
  }

  /** EditTrip's answer. Reading the old room count of a missing trip throws, and so does
      the UPDATE when a date lies before the first SQL datetime; either way nothing is
      written and no mail goes out. */
  function EditTripVerdict(ts: seq<Trip>, isAdmin: bool, id: int, f: TripForm): EditTripOutcome
  {
    if !isAdmin then EditTripNotAdmin
    else if !ModelStateValid(f) then EditTripInvalid
    else if FindTrip(ts, id).None? || !StorableDates(f) then EditTripFailed
    else TripEdited
  }

  function UserIdsOnTrip(tid: int, users: set<int>): WaitEntry -> bool
  {
    (e: WaitEntry) => e.tripId == tid && e.userId in users
  }

  /** SELECT TOP 1 u.Email FROM WaitingList w JOIN Users u ... WHERE w.TripId = tid
      ORDER BY w.JoinDate: the earliest-joined entry of the trip whose user exists. */
  function FirstWaiting(us: seq<User>, w: seq<WaitEntry>, tid: int): Option<WaitEntry>
  {
    var q := SortBy(Filter(w, UserIdsOnTrip(tid, WaitingListHelper.UserIds(us))), WaitingListHelper.JoinKey);
    if q == [] then None else Some(q[0])
  }

  /** The "Seat Available!" mail: only when the room count went up, to the first waiting
      user, unless the send throws (a user in `undeliverable`), which is swallowed. */
  function SeatMail(us: seq<User>, w: seq<WaitEntry>, tid: int, oldRooms: int, newRooms: int,
                    undeliverable: set<int>): seq<Mail>
  {
    if newRooms <= oldRooms then []
    else match FirstWaiting(us, w, tid)
      case None => []
      case Some(e) => if e.userId in undeliverable then [] else [Mail(e.userId, SeatAvailable(tid))]
  }

  method EditTrip(db: Database, isAdmin: bool, id: int, f: TripForm, undeliverable: set<int>)
    returns (r: EditTripOutcome)
    requires db.Valid()
    modifies db`trips, db`outbox
    ensures db.Valid()
    ensures r == EditTripVerdict(old(db.trips), isAdmin, id, f)
    ensures r == TripEdited ==>
      && HasRequiredText(f)
      && db.trips == UpdateTrip(old(db.trips), id, Editing(f))
      && db.outbox == old(db.outbox) +
           SeatMail(db.users, db.waiting, id, RoomsOf(old(db.trips), id), f.availableRooms, undeliverable)
    ensures r != TripEdited ==> db.trips == old(db.trips) && db.outbox == old(db.outbox)
  {
    if !isAdmin {
      return EditTripNotAdmin;
    }
    if !ModelStateValid(f) {
      return EditTripInvalid;
    }
    var found := FindTrip(db.trips, id);
    if found.None? || !StorableDates(f) {
      return EditTripFailed;
    }
    ValidFormWritable(f);
    SaveEdit(db, id, f, found.value.rooms, undeliverable);
    return TripEdited;
  }

  /** An edit is written exactly when an administrator submits a valid form with storable
      dates for an existing trip; the trip then carries the form's rooms and dates, which
      SQL datetime can hold and which are in order. */
  lemma EditTripMeans(ts: seq<Trip>, isAdmin: bool, id: int, f: TripForm)
    ensures EditTripVerdict(ts, isAdmin, id, f) == TripEdited <==>
      isAdmin && ModelStateValid(f) && FindTrip(ts, id).Some? && StorableDates(f)
    ensures EditTripVerdict(ts, isAdmin, id, f) == TripEdited ==>
      && HasRequiredText(f)
      && FindTrip(UpdateTrip(ts, id, Editing(f)), id).Some?
      && var t := FindTrip(UpdateTrip(ts, id, Editing(f)), id).value;
         SQL_MIN_DATE <= t.startDate < t.endDate && t.rooms == f.availableRooms
  {
    if EditTripVerdict(ts, isAdmin, id, f) == TripEdited {
      ValidFormWritable(f);
      ValidFormNumbers(f);
      UpdateTripFind(ts, id, Editing(f), id);
    }
  }

  /** The UPDATE, then the seat mail when the room count went up. */
  method SaveEdit(db: Database, id: int, f: TripForm, oldRooms: int, undeliverable: set<int>)
    requires db.Valid()
    requires HasRequiredText(f) && f.availableRooms >= 0
    modifies db`trips, db`outbox
    ensures db.Valid()
    ensures db.trips == UpdateTrip(old(db.trips), id, Editing(f))
    ensures db.outbox == old(db.outbox) + SeatMail(db.users, db.waiting, id, oldRooms, f.availableRooms, undeliverable)
  {
    UpdateTripValid(db.trips, db.nextTripId, id, Editing(f));
    db.trips := UpdateTrip(db.trips, id, Editing(f));
    db.outbox := db.outbox + SeatMail(db.users, db.waiting, id, oldRooms, f.availableRooms, undeliverable);
  }

  /** An edit sets the trip's room count to the submitted number, whatever it was before,
      and leaves every other trip's room count alone. */
  lemma EditSetsRooms(ts: seq<Trip>, id: int, f: TripForm, k: int)
    requires HasRequiredText(f)
    requires FindTrip(ts, id).Some?
    ensures RoomsOf(UpdateTrip(ts, id, Editing(f)), id) == f.availableRooms
    ensures k != id ==> RoomsOf(UpdateTrip(ts, id, Editing(f)), k) == RoomsOf(ts, k)
  {
    UpdateTripFind(ts, id, Editing(f), id);
    UpdateTripFind(ts, id, Editing(f), k);
  }

  /** The seat mail goes out only on a room increase, to one user: the user of an entry
      of the trip whose user exists and who joined no later than any other such entry. */
  lemma SeatMailTarget(us: seq<User>, w: seq<WaitEntry>, tid: int, oldRooms: int, newRooms: int,
                       undeliverable: set<int>)
    ensures |SeatMail(us, w, tid, oldRooms, newRooms, undeliverable)| <= 1
    ensures newRooms <= oldRooms ==> SeatMail(us, w, tid, oldRooms, newRooms, undeliverable) == []
    ensures SeatMail(us, w, tid, oldRooms, newRooms, undeliverable) != [] ==>
      exists e | e in w ::
        && e.tripId == tid && UserExists(us, e.userId)
        && SeatMail(us, w, tid, oldRooms, newRooms, undeliverable) == [Mail(e.userId, SeatAvailable(tid))]
        && forall d | d in w && d.tripId == tid && UserExists(us, d.userId) :: e.joinDate <= d.joinDate
  {
    var p := UserIdsOnTrip(tid, WaitingListHelper.UserIds(us));
    var c := Filter(w, p);
    var q := SortBy(c, WaitingListHelper.JoinKey);
    if SeatMail(us, w, tid, oldRooms, newRooms, undeliverable) != [] {
      SortByPermutation(c, WaitingListHelper.JoinKey);
      SortBySorted(c, WaitingListHelper.JoinKey);
      FilterMembers(w, p);
      var e := q[0];
      assert e in multiset(q);
      assert e in c;
      forall d | d in w && d.tripId == tid && UserExists(us, d.userId) ensures e.joinDate <= d.joinDate {
        var u :| u in us && u.id == d.userId;
        assert d in c;
        assert d in multiset(q);
        var j :| 0 <= j < |q| && q[j] == d;
        assert j == 0 || WaitingListHelper.JoinKey(q[0]) <= WaitingListHelper.JoinKey(q[j]);
      }
      assert UserExists(us, e.userId);
    }
  }

  // ----- DeleteTrip -----

  datatype DeleteTripOutcome = DeleteTripNotAdmin | TripHasBookings | TripDeleted

  function DeleteTripVerdict(bs: seq<Booking>, isAdmin: bool, id: int): DeleteTripOutcome
  {
    if !isAdmin then DeleteTripNotAdmin
    else if Count(bs, BookingOnTrip(id)) > 0 then TripHasBookings
    else TripDeleted
  }

  function OtherTripRow(id: int): Trip -> bool { (t: Trip) => t.id != id }
  function OtherTripImage(id: int): TripImage -> bool { (im: TripImage) => im.tripId != id }
  function ImageOf(id: int): TripImage -> bool { (im: TripImage) => im.tripId == id }

  method DeleteTrip(db: Database, isAdmin: bool, id: int) returns (r: DeleteTripOutcome)
    requires db.Valid()
    modifies db`trips, db`waiting, db`images
    ensures db.Valid()
    ensures r == DeleteTripVerdict(db.bookings, isAdmin, id)
    ensures r == TripDeleted ==>
      && db.images == Filter(old(db.images), OtherTripImage(id))
      && db.waiting == Filter(old(db.waiting), OtherTrip(id))
      && db.trips == Filter(old(db.trips), OtherTripRow(id))
    ensures r != TripDeleted ==>
      db.images == old(db.images) && db.waiting == old(db.waiting) && db.trips == old(db.trips)
  {
    if !isAdmin {
      return DeleteTripNotAdmin;
    }
    if Count(db.bookings, BookingOnTrip(id)) > 0 {
      return TripHasBookings;
    }
    FilterDistinct(db.trips, OtherTripRow(id), TripKey);
    FilterMembers(db.trips, OtherTripRow(id));
    WaitingListHelper.FilterKeepsWaitingValid(db.waiting, OtherTrip(id), db.nextWaitingId);
    db.images := Filter(db.images, OtherTripImage(id));
    db.waiting := Filter(db.waiting, OtherTrip(id));
    db.trips := Filter(db.trips, OtherTripRow(id));
    return TripDeleted;
  }

  /** A trip is deleted exactly when the caller is an administrator and no booking, of
      any status, refers to it. */
  lemma DeleteTripOnlyUnbooked(bs: seq<Booking>, isAdmin: bool, id: int)
    ensures DeleteTripVerdict(bs, isAdmin, id) == TripDeleted <==> isAdmin && forall b | b in bs :: b.tripId != id
  {
    CountPositive(bs, BookingOnTrip(id));
    if exists b | b in bs :: b.tripId == id {
      var b :| b in bs && b.tripId == id;
      var k :| 0 <= k < |bs| && bs[k] == b;
      assert BookingOnTrip(id)(bs[k]);
    }
  }

  /** After the delete the trip, its images and its waiting list are gone ... */
  lemma DeleteTripRemoves(ts: seq<Trip>, w: seq<WaitEntry>, ims: seq<TripImage>, id: int)
    ensures FindTrip(Filter(ts, OtherTripRow(id)), id).None?
    ensures Count(Filter(w, OtherTrip(id)), OfTrip(id)) == 0
    ensures Count(Filter(ims, OtherTripImage(id)), ImageOf(id)) == 0
  {
    FilterMembers(ts, OtherTripRow(id));
    FilterMembers(w, OtherTrip(id));
    FilterMembers(ims, OtherTripImage(id));
    FilterNone(Filter(w, OtherTrip(id)), OfTrip(id));
    FilterNone(Filter(ims, OtherTripImage(id)), ImageOf(id));
  }

  /** ... while every other trip and every other trip's waiting list are as before. */
  lemma DeleteTripKeepsOthers(ts: seq<Trip>, nextId: int, w: seq<WaitEntry>, id: int, k: int)
    requires TripsValid(ts, nextId)
    requires k != id
    ensures FindTrip(Filter(ts, OtherTripRow(id)), k) == FindTrip(ts, k)
    ensures Count(Filter(w, OtherTrip(id)), OfTrip(k)) == Count(w, OfTrip(k))
  {
    FilterNarrow(w, OtherTrip(id), OfTrip(k));
    var rest := Filter(ts, OtherTripRow(id));
    FilterMembers(ts, OtherTripRow(id));
    var a, b := FindTrip(ts, k), FindTrip(rest, k);
    if a.Some? {
      assert a.value in rest;
      var i :| 0 <= i < |ts| && ts[i] == a.value;
      var j :| 0 <= j < |ts| && ts[j] == b.value;
      assert TripKey(ts[i]) == TripKey(ts[j]);
    }
  }

  // ----- Discount -----

  datatype DiscountOutcome = DiscountNotAdmin | DiscountTooLong | DiscountFailed | DiscountApplied

  /** OldPrice keeps the first undiscounted price; Price and DiscountEndDate are set. */
  function DiscountRow(t: Trip, newPrice: real, endDate: int): Trip
  {
    t.(oldPrice := if t.oldPrice.None? then Some(t.price) else t.oldPrice,
       price := newPrice, discountEndDate := Some(endDate))
  }

  function Discounting(newPrice: real, endDate: int): Trip -> Trip
  {
    (t: Trip) => DiscountRow(t, newPrice, endDate)
  }

  /** What Discount answers: only an administrator may discount, the end date may lie at
      most a week ahead, and an end date SQL datetime cannot store fails the UPDATE. */
  function DiscountVerdict(isAdmin: bool, endDate: int, now: int): DiscountOutcome
  {
    if !isAdmin then DiscountNotAdmin
    else if endDate > now + DISCOUNT_WINDOW then DiscountTooLong
    else if endDate < SQL_MIN_DATE then DiscountFailed
    else DiscountApplied
  }

  method Discount(db: Database, isAdmin: bool, tid: int, newPrice: real, endDate: int, now: int)
    returns (r: DiscountOutcome)
    requires db.Valid()
    modifies db`trips
    ensures db.Valid()
    ensures r == DiscountVerdict(isAdmin, endDate, now)
    ensures r == DiscountApplied ==> db.trips == UpdateTrip(old(db.trips), tid, Discounting(newPrice, endDate))
    ensures r != DiscountApplied ==> db.trips == old(db.trips)
  {
    if !isAdmin {
      return DiscountNotAdmin;
    }
    if endDate > now + DISCOUNT_WINDOW {
      return DiscountTooLong;
    }
    if endDate < SQL_MIN_DATE {
      return DiscountFailed;
    }
    UpdateTripValid(db.trips, db.nextTripId, tid, Discounting(newPrice, endDate));
    db.trips := UpdateTrip(db.trips, tid, Discounting(newPrice, endDate));
    return DiscountApplied;
  }

  /** A discount is written exactly when an administrator gives an end date at most a week
      ahead that SQL datetime can store; an earlier date (an unbound DateTime among them)
      makes the UPDATE throw. */
  lemma DiscountAppliedMeans(isAdmin: bool, endDate: int, now: int)
    ensures DiscountVerdict(isAdmin, endDate, now) == DiscountApplied <==>
      isAdmin && SQL_MIN_DATE <= endDate <= now + DISCOUNT_WINDOW
    ensures DiscountVerdict(isAdmin, endDate, now) == DiscountFailed <==>
      isAdmin && endDate <= now + DISCOUNT_WINDOW && endDate < SQL_MIN_DATE
    ensures DiscountVerdict(isAdmin, 0, now) != DiscountApplied
  {
  }

  /** A series of discounts on one trip, in order. */
  function ApplyDiscounts(t: Trip, ds: seq<(real, int)>): Trip
    decreases |ds|
  {
    if ds == [] then t else ApplyDiscounts(DiscountRow(t, ds[0].0, ds[0].1), ds[1..])
  }

  /** The price before any discount. */
  function UndiscountedPrice(t: Trip): real
  {
    if t.oldPrice.Some? then t.oldPrice.value else t.price
  }

  /** However many discounts follow each other, OldPrice keeps the price the trip had
      before the first one, Price is the last discount's, and nothing but the three
      discount columns changes. */
  lemma {:induction false} DiscountsKeepOriginalPrice(t: Trip, ds: seq<(real, int)>)
    requires ds != []
    ensures ApplyDiscounts(t, ds).oldPrice == Some(UndiscountedPrice(t))
    ensures ApplyDiscounts(t, ds).price == ds[|ds| - 1].0
    ensures ApplyDiscounts(t, ds).discountEndDate == Some(ds[|ds| - 1].1)
    ensures ApplyDiscounts(t, ds).(oldPrice := t.oldPrice, price := t.price, discountEndDate := t.discountEndDate) == t
    decreases |ds|
  {
    var t1 := DiscountRow(t, ds[0].0, ds[0].1);
    if |ds| > 1 {
      DiscountsKeepOriginalPrice(t1, ds[1..]);
      assert UndiscountedPrice(t1) == UndiscountedPrice(t);
    }
  }

  /** A discount changes no trip's room count. */
  lemma DiscountKeepsRooms(ts: seq<Trip>, tid: int, newPrice: real, endDate: int, k: int)
    ensures RoomsOf(UpdateTrip(ts, tid, Discounting(newPrice, endDate)), k) == RoomsOf(ts, k)
  {
    UpdateTripFind(ts, tid, Discounting(newPrice, endDate), k);
  }

  // ----- Users -----

  datatype UserOutcome = UserNotAdmin | StatusToggled | UserBlocked | UserDeleted

  /** CASE WHEN Status = 'Active' THEN 'Blocked' ELSE 'Active' END */
  function Toggled(status: string): string
  {
    if status == "Active" then "Blocked" else "Active"
  }

  /** UPDATE Users SET Status = ... WHERE UserId = uid, the new status given per row. */
  function UpdateUserStatus(us: seq<User>, uid: int, toggle: bool): seq<User>
  {
    seq(|us|, i requires 0 <= i < |us| =>
      if us[i].id == uid then us[i].(status := if toggle then Toggled(us[i].status) else "Blocked") else us[i])
  }

  function OtherUser(uid: int): User -> bool { (u: User) => u.id != uid }

  lemma UpdateUserStatusKeys(us: seq<User>, uid: int, toggle: bool)
    requires DistinctBy(us, UserKey)
    ensures DistinctBy(UpdateUserStatus(us, uid, toggle), UserKey)
  {
    var u := UpdateUserStatus(us, uid, toggle);
    assert forall i | 0 <= i < |us| :: UserKey(u[i]) == UserKey(us[i]);
  }

  method ToggleUserStatus(db: Database, isAdmin: bool, uid: int) returns (r: UserOutcome)
    requires db.Valid()
    modifies db`users
    ensures db.Valid()
    ensures r == if isAdmin then StatusToggled else UserNotAdmin
    ensures db.users == if isAdmin then UpdateUserStatus(old(db.users), uid, true) else old(db.users)
  {
    if !isAdmin {
      return UserNotAdmin;
    }
    UpdateUserStatusKeys(db.users, uid, true);
    db.users := UpdateUserStatus(db.users, uid, true);
    return StatusToggled;
  }

  /** Toggling maps Active to Blocked and every other status to Active, so toggling twice
      restores exactly the statuses Active and Blocked. */
  lemma ToggleTwice(status: string)
    ensures Toggled(status) == "Blocked" <==> status == "Active"
    ensures Toggled(Toggled(status)) == status <==> status == "Active" || status == "Blocked"
  {
    assert "Active" != "Blocked" by {
      assert "Active"[0] != "Blocked"[0];
    }
  }

  function RemoveUserVerdict(bs: seq<Booking>, isAdmin: bool, uid: int): UserOutcome
  {
    if !isAdmin then UserNotAdmin
    else if Count(bs, BookingOfUser(uid)) > 0 then UserBlocked
    else UserDeleted
  }

  method RemoveUser(db: Database, isAdmin: bool, uid: int) returns (r: UserOutcome)
    requires db.Valid()
    modifies db`users
    ensures db.Valid()
    ensures r == RemoveUserVerdict(db.bookings, isAdmin, uid)
    ensures r == UserBlocked ==> db.users == UpdateUserStatus(old(db.users), uid, false)
    ensures r == UserDeleted ==> db.users == Filter(old(db.users), OtherUser(uid))
    ensures r == UserNotAdmin ==> db.users == old(db.users)
  {
    if !isAdmin {
      return UserNotAdmin;
    }
    if Count(db.bookings, BookingOfUser(uid)) > 0 {
      UpdateUserStatusKeys(db.users, uid, false);
      db.users := UpdateUserStatus(db.users, uid, false);
      return UserBlocked;
    }
    FilterDistinct(db.users, OtherUser(uid), UserKey);
    db.users := Filter(db.users, OtherUser(uid));
    return UserDeleted;
  }

  /** A user with any booking, of any status, is kept and blocked; a user without one is
      deleted. Either way every other user stays as they were. */
  lemma RemoveUserEffect(us: seq<User>, bs: seq<Booking>, uid: int)
    ensures RemoveUserVerdict(bs, true, uid) == UserBlocked <==> exists b | b in bs :: b.userId == uid
    ensures forall u | u in us && u.id == uid ::
      u.(status := "Blocked") in UpdateUserStatus(us, uid, false)
    ensures forall u | u in UpdateUserStatus(us, uid, false) && u.id == uid :: u.status == "Blocked"
    ensures forall u | u in us && u.id != uid :: u in UpdateUserStatus(us, uid, false) && u in Filter(us, OtherUser(uid))
    ensures !UserExists(Filter(us, OtherUser(uid)), uid)
  {
    CountPositive(bs, BookingOfUser(uid));
    if exists b | b in bs :: b.userId == uid {
      var b :| b in bs && b.userId == uid;
      var k :| 0 <= k < |bs| && bs[k] == b;
      assert BookingOfUser(uid)(bs[k]);
    }
    var blocked := UpdateUserStatus(us, uid, false);
    FilterMembers(us, OtherUser(uid));
    forall u | u in us ensures u.id == uid ==> u.(status := "Blocked") in blocked
      ensures u.id != uid ==> u in blocked
    {
      var k :| 0 <= k < |us| && us[k] == u;
      assert blocked[k] == if u.id == uid then u.(status := "Blocked") else u;
    }
  }
}
