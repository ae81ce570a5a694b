/** The waiting-list page: joining and leaving a trip's queue, and the status view with
    the queue's size, the caller's place in it and the earliest expiry of a live offer. */
module WaitingListController {
  import opened Relational
  import opened Schema
  import WaitingListHelper

  // ----- Join -----

  datatype JoinOutcome = JoinNeedsLogin | AlreadyWaiting | Joined

  /** Join's answer. The INSERT fails on the unique (TripId, UserId) key exactly when the
      caller already has an entry for the trip; that failure is reported as "already in
      the waiting list". */
  function JoinVerdict(w: seq<WaitEntry>, user: Option<int>, tid: int): JoinOutcome
  {
    if user.None? then JoinNeedsLogin
    else if Count(w, EntryOf(tid, user.value)) > 0 then AlreadyWaiting
    else Joined
  }

  /** The row Join inserts: JoinDate defaults to the clock, no offer yet. */
  function NewEntry(id: int, tid: int, uid: int, now: int): WaitEntry
  {
    WaitEntry(id, tid, uid, now, None, None)
  }

  method Join(db: Database, user: Option<int>, tid: int, now: int) returns (r: JoinOutcome)
    requires db.Valid()
    modifies db`waiting, db`nextWaitingId
    ensures db.Valid()
    ensures r == JoinVerdict(old(db.waiting), user, tid)
    ensures r == Joined ==>
      && db.waiting == old(db.waiting) + [NewEntry(old(db.nextWaitingId), tid, user.value, now)]
      && db.nextWaitingId == old(db.nextWaitingId) + 1
    ensures r != Joined ==> db.waiting == old(db.waiting) && db.nextWaitingId == old(db.nextWaitingId)
  {
    if user.None? {
      return JoinNeedsLogin;
    }
    var uid := user.value;
    if Count(db.waiting, EntryOf(tid, uid)) > 0 {
      return AlreadyWaiting;
    }
    JoinKeepsWaitingValid(db.waiting, db.nextWaitingId, tid, uid, now);
    db.waiting := db.waiting + [NewEntry(db.nextWaitingId, tid, uid, now)];
    db.nextWaitingId := db.nextWaitingId + 1;
    return Joined;
  }

  /** A join that passes the unique key keeps the waiting-list invariant. */
  lemma JoinKeepsWaitingValid(w: seq<WaitEntry>, nextId: int, tid: int, uid: int, now: int)
    requires WaitingValid(w, nextId)
    requires Count(w, EntryOf(tid, uid)) == 0
    ensures WaitingValid(w + [NewEntry(nextId, tid, uid, now)], nextId + 1)
  {
    var e := NewEntry(nextId, tid, uid, now);
    CountPositive(w, EntryOf(tid, uid));
    forall y | y in w ensures WaitPair(y) != WaitPair(e) && WaitKey(y) != WaitKey(e) {
      var k :| 0 <= k < |w| && w[k] == y;
      assert !EntryOf(tid, uid)(w[k]);
    }
    AppendDistinct(w, e, WaitKey);
    AppendDistinct(w, e, WaitPair);
  }

  /** A successful join gives the caller exactly one entry for the trip, lengthens that
      trip's queue by one and leaves every other trip's queue as it was; a second join
      is then refused as a duplicate. */
  lemma JoinAddsOneEntry(w: seq<WaitEntry>, nextId: int, tid: int, uid: int, now: int, other: int)
    requires JoinVerdict(w, Some(uid), tid) == Joined
    ensures Count(w + [NewEntry(nextId, tid, uid, now)], EntryOf(tid, uid)) == 1
    ensures Count(w + [NewEntry(nextId, tid, uid, now)], OfTrip(tid)) == Count(w, OfTrip(tid)) + 1
    ensures other != tid ==> Count(w + [NewEntry(nextId, tid, uid, now)], OfTrip(other)) == Count(w, OfTrip(other))
    ensures JoinVerdict(w + [NewEntry(nextId, tid, uid, now)], Some(uid), tid) == AlreadyWaiting
  {
    var e := NewEntry(nextId, tid, uid, now);
    CountAppend(w, e, EntryOf(tid, uid));
    CountAppend(w, e, OfTrip(tid));
    CountAppend(w, e, OfTrip(other));
  }

  // ----- Leave -----

  datatype LeaveOutcome = LeaveNeedsLogin | LeftList

  /** DELETE FROM WaitingList WHERE TripId = tid AND UserId = uid */
  function AfterLeave(w: seq<WaitEntry>, tid: int, uid: int): seq<WaitEntry>
  {
    Filter(w, NotEntryOf(tid, uid))
  }

  method Leave(db: Database, user: Option<int>, tid: int) returns (r: LeaveOutcome)
    requires db.Valid()
    modifies db`waiting
    ensures db.Valid()
    ensures r == (if user.None? then LeaveNeedsLogin else LeftList)
    ensures user.None? ==> db.waiting == old(db.waiting)
    ensures user.Some? ==> db.waiting == AfterLeave(old(db.waiting), tid, user.value)
  {
    if user.None? {
      return LeaveNeedsLogin;
    }
    WaitingListHelper.FilterKeepsWaitingValid(db.waiting, NotEntryOf(tid, user.value), db.nextWaitingId);
    db.waiting := AfterLeave(db.waiting, tid, user.value);
    return LeftList;
  }

  /** Leave removes the caller's entry for the trip and keeps every other row, in order
      of the table; with the unique (TripId, UserId) key that is at most one row. */
  lemma LeaveRemovesOnlyThatEntry(w: seq<WaitEntry>, nextId: int, tid: int, uid: int)
    requires WaitingValid(w, nextId)
    ensures Count(AfterLeave(w, tid, uid), EntryOf(tid, uid)) == 0
    ensures forall e :: e in AfterLeave(w, tid, uid) <==> e in w && !(e.tripId == tid && e.userId == uid)
    ensures |w| - 1 <= |AfterLeave(w, tid, uid)| <= |w|
  {
    var r := AfterLeave(w, tid, uid);
    FilterMembers(w, NotEntryOf(tid, uid));
    CountPositive(r, EntryOf(tid, uid));
    forall i, j | 0 <= i < j < |w| && EntryOf(tid, uid)(w[i]) ensures !EntryOf(tid, uid)(w[j]) {
      assert WaitPair(w[i]) != WaitPair(w[j]);
    }
    CountAtMostOne(w, EntryOf(tid, uid));
    CountSplit(w, EntryOf(tid, uid), NotEntryOf(tid, uid));
  }

  /** Leaving twice is leaving once. */
  lemma LeaveIdempotent(w: seq<WaitEntry>, tid: int, uid: int)
    ensures AfterLeave(AfterLeave(w, tid, uid), tid, uid) == AfterLeave(w, tid, uid)
  {
    FilterTwice(w, NotEntryOf(tid, uid));
  }

  // ----- Status -----

  /** What the status page shows. */
  datatype WaitingStatus = WaitingStatus(
    waitingCount: nat,
    isInWaiting: bool,
    position: Option<nat>,
    estimatedAvailableAt: Option<int>)

  /** Entries of the trip that joined no later than `joinDate`. */
  function JoinedBy(tid: int, joinDate: int): WaitEntry -> bool
  {
    (e: WaitEntry) => e.tripId == tid && e.joinDate <= joinDate
  }

  /** Entries of the trip that joined strictly before `joinDate`. */
  function JoinedBefore(tid: int, joinDate: int): WaitEntry -> bool
  {
    (e: WaitEntry) => e.tripId == tid && e.joinDate < joinDate
  }

  /** The caller's JoinDate for the trip, the subquery of the position query. */
  function MyJoinDate(w: seq<WaitEntry>, tid: int, uid: int): Option<int>
  {
    match FirstIndex(w, EntryOf(tid, uid))
    case None => None
    case Some(i) => Some(w[i].joinDate)
  }

  /** The non-NULL ExpirationAt values of some entries. */
  function Expiries(es: seq<WaitEntry>): seq<int>
  {
    if es == [] then []
    else (if es[0].expirationAt.Some? then [es[0].expirationAt.value] else []) + Expiries(es[1..])
  }

  /** SELECT MIN(ExpirationAt) over the trip's live offers. */
  function Eta(w: seq<WaitEntry>, tid: int, now: int): Option<int>
  {
    MinOf(Expiries(Filter(w, LiveOfferOn(tid, now))))
  }

  /** The status page; None is the redirect to the login page. */
  function Status(w: seq<WaitEntry>, user: Option<int>, tid: int, now: int): (r: Option<WaitingStatus>)
    ensures r.None? <==> user.None?
    ensures r.Some? ==>
      && r.value.waitingCount == Count(w, OfTrip(tid))
      && (r.value.isInWaiting <==> exists i | 0 <= i < |w| :: EntryOf(tid, user.value)(w[i]))
      && (r.value.position.Some? ==> r.value.isInWaiting && r.value.position.value >= 1)
  {
    if user.None? then None
    else
      var uid := user.value;
      CountPositive(w, EntryOf(tid, uid));
      assert MyJoinDate(w, tid, uid).Some? ==>
        JoinedBy(tid, MyJoinDate(w, tid, uid).value)(w[FirstIndex(w, EntryOf(tid, uid)).value]);
      CountPositive(w, JoinedBy(tid, if MyJoinDate(w, tid, uid).Some? then MyJoinDate(w, tid, uid).value else 0));
      var isIn := Count(w, EntryOf(tid, uid)) > 0;
      var position :=
        if isIn && MyJoinDate(w, tid, uid).Some?
        then Some(Count(w, JoinedBy(tid, MyJoinDate(w, tid, uid).value)) as nat)
        else None;
      Some(WaitingStatus(Count(w, OfTrip(tid)), isIn, position, Eta(w, tid, now)))
  }

  lemma {:induction false} ExpiriesMembers(es: seq<WaitEntry>)
    ensures forall x | x in Expiries(es) :: exists e | e in es :: e.expirationAt == Some(x)
    ensures forall e | e in es && e.expirationAt.Some? :: e.expirationAt.value in Expiries(es)
  {
    if es != [] {
      ExpiriesMembers(es[1..]);
      assert forall e | e in es[1..] :: e in es;
      assert forall e | e in es :: e == es[0] || e in es[1..];
    }
  }

  /** The estimate is empty exactly when the trip has no live offer; otherwise it is the
      expiry of one of the trip's live offers, no later than any other, and still in the
      future. */
  lemma EtaIsEarliestLiveExpiry(w: seq<WaitEntry>, tid: int, now: int)
    ensures Eta(w, tid, now).None? <==> forall e | e in w :: !LiveOfferOn(tid, now)(e)
    ensures Eta(w, tid, now).Some? ==>
      && now < Eta(w, tid, now).value
      && (exists e | e in w :: LiveOfferOn(tid, now)(e) && e.expirationAt == Eta(w, tid, now))
      && forall e | e in w && LiveOfferOn(tid, now)(e) :: Eta(w, tid, now).value <= e.expirationAt.value
  {
    var live := Filter(w, LiveOfferOn(tid, now));
    FilterMembers(w, LiveOfferOn(tid, now));
    ExpiriesMembers(live);
    if Eta(w, tid, now).Some? {
      var x := Eta(w, tid, now).value;
      var e :| e in live && e.expirationAt == Some(x);
      assert LiveOfferOn(tid, now)(e);
    }
  }

  /** The caller's position exists exactly when the caller is in the queue, and lies
      between 1 and the size of the trip's queue; with the unique (TripId, UserId) key it
      is 1 exactly when nobody else in that queue joined at or before the caller. */
  lemma StatusPosition(w: seq<WaitEntry>, nextId: int, uid: int, tid: int, now: int)
    requires WaitingValid(w, nextId)
    ensures Status(w, Some(uid), tid, now).value.position.Some? <==> Status(w, Some(uid), tid, now).value.isInWaiting
    ensures Status(w, Some(uid), tid, now).value.position.Some? ==>
      1 <= Status(w, Some(uid), tid, now).value.position.value <= Status(w, Some(uid), tid, now).value.waitingCount
    ensures Status(w, Some(uid), tid, now).value.position == Some(1) <==>
      (&& Status(w, Some(uid), tid, now).value.isInWaiting
       && forall e | e in w && e.tripId == tid && e.joinDate <= MyJoinDate(w, tid, uid).value :: e.userId == uid)
  {
    var p := EntryOf(tid, uid);
    FirstIndexSpec(w, p);
    CountPositive(w, p);
    var f := FirstIndex(w, p);
    if f.Some? {
      var i := f.value;
      var q := JoinedBy(tid, w[i].joinDate);
      assert q(w[i]);
      CountPositive(w, q);
      CountMonotone(w, q, OfTrip(tid));
      FirstInLine(w, nextId, tid, uid, i);
    }
  }

  /** For the caller's entry at index i, the count of the trip's entries that joined no
      later is 1 exactly when all of them are the caller's. */
  lemma FirstInLine(w: seq<WaitEntry>, nextId: int, tid: int, uid: int, i: int)
    requires WaitingValid(w, nextId)
    requires 0 <= i < |w| && EntryOf(tid, uid)(w[i])
    ensures Count(w, JoinedBy(tid, w[i].joinDate)) == 1 <==>
      forall e | e in w && e.tripId == tid && e.joinDate <= w[i].joinDate :: e.userId == uid
  {
    var jd := w[i].joinDate;
    var q := JoinedBy(tid, jd);
    if forall e | e in w && e.tripId == tid && e.joinDate <= jd :: e.userId == uid {
      forall k | 0 <= k < |w| && q(w[k]) ensures k == i {
        assert w[k] in w && WaitPair(w[k]) == WaitPair(w[i]);
      }
      CountOnly(w, q, i);
    } else {
      var e :| e in w && e.tripId == tid && e.joinDate <= jd && e.userId != uid;
      var k :| 0 <= k < |w| && w[k] == e;
      if k < i {
        CountTwo(w, q, k, i);
      } else {
        CountTwo(w, q, i, k);
      }
    }
  }

  /** The status position is the count of the trip's entries that joined no later than
      the caller, and absent exactly when the caller has no entry. */
  lemma StatusPositionValue(w: seq<WaitEntry>, tid: int, uid: int, now: int)
    ensures Status(w, Some(uid), tid, now).value.position ==
      match MyJoinDate(w, tid, uid)
      case None => None
      case Some(jd) => Some(Count(w, JoinedBy(tid, jd)))
  {
    FirstIndexSpec(w, EntryOf(tid, uid));
    CountPositive(w, EntryOf(tid, uid));
  }
}
