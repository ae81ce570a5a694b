/** The promotion pass over a trip's waiting list: when rooms are free beyond the live
    offers, the oldest entries not yet notified receive a 24-hour offer; once nobody on
    the trip's list is left un-notified, the whole list of that trip is deleted. */
module WaitingListHelper {
  import opened Relational
  import opened Schema

  /** ORDER BY w.JoinDate */
  function JoinKey(e: WaitEntry): real
  {
    e.joinDate as real
  }

  function UserIds(us: seq<User>): set<int>
  {
    set u | u in us :: u.id
  }

  /** WHERE w.TripId = @tid AND w.NotifiedAt IS NULL, over WaitingList JOIN Users. */
  function AwaitingOffer(tid: int, users: set<int>): WaitEntry -> bool
  {
    (e: WaitEntry) => e.tripId == tid && e.notifiedAt.None? && e.userId in users
  }

  /** The entries that may be offered a room, in table order. */
  function Candidates(us: seq<User>, w: seq<WaitEntry>, tid: int): seq<WaitEntry>
  {
    Filter(w, AwaitingOffer(tid, UserIds(us)))
  }

  /** The rooms a pass may offer: AvailableRooms less the live offers. */
  function FreeSlots(t: Trip, w: seq<WaitEntry>, now: int): int
  {
    t.rooms - LiveOffers(w, t.id, now)
  }

  /** The entries a pass offers a room to (`toNotify`), or None when it returns before
      choosing: the trip does not exist, it has no rooms, or the live offers already
      cover them. */
  function Selection(ts: seq<Trip>, us: seq<User>, w: seq<WaitEntry>, tid: int, now: int): (r: Option<seq<WaitEntry>>)
    ensures FindTrip(ts, tid).None? ==> r.None?
    ensures r.Some? ==>
      && FindTrip(ts, tid).Some? && FindTrip(ts, tid).value.rooms > 0
      && |r.value| <= FreeSlots(FindTrip(ts, tid).value, w, now)
      && |r.value| <= |Candidates(us, w, tid)|
  {
    match FindTrip(ts, tid)
    case None => None
    case Some(t) =>
      if t.rooms <= 0 || FreeSlots(t, w, now) <= 0 then None
      else
        SortByPermutation(Candidates(us, w, tid), JoinKey);
        Some(Take(SortBy(Candidates(us, w, tid), JoinKey), FreeSlots(t, w, now)))
  }

  function Ids(es: seq<WaitEntry>): set<int>
  {
    set e | e in es :: e.id
  }

  /** SET NotifiedAt = GETDATE(), ExpirationAt = DATEADD(hour, 24, GETDATE()) */
  function Offer(e: WaitEntry, now: int): WaitEntry
  {
    e.(notifiedAt := Some(now), expirationAt := Some(now + OFFER_WINDOW))
  }

  /** The offer update applied to every row whose WaitingId is in `ids`. */
  function MarkOffered(w: seq<WaitEntry>, ids: set<int>, now: int): (r: seq<WaitEntry>)
    ensures |r| == |w|
  {
    seq(|w|, i requires 0 <= i < |w| => if w[i].id in ids then Offer(w[i], now) else w[i])
  }

  /** The final step: DELETE FROM WaitingList WHERE TripId = @tid when no entry of the
      trip is left with NotifiedAt IS NULL. */
  function DrainIfSettled(w: seq<WaitEntry>, tid: int): seq<WaitEntry>
  {
    if Count(w, UnnotifiedOn(tid)) == 0 then Filter(w, OtherTrip(tid)) else w
  }

  /** The waiting list after a pass that meets no database error. */
  function Promoted(ts: seq<Trip>, us: seq<User>, w: seq<WaitEntry>, tid: int, now: int): seq<WaitEntry>
  {
    match Selection(ts, us, w, tid, now)
    case None => w
    case Some(chosen) => DrainIfSettled(MarkOffered(w, Ids(chosen), now), tid)
  }

  /** The offer mails of a pass, one per chosen entry whose mail goes through; a user in
      `undeliverable` stands for a send that throws and is swallowed. */
  function OfferMails(chosen: seq<WaitEntry>, tid: int, undeliverable: set<int>): seq<Mail>
  {
    if chosen == [] then []
    else
      var last := chosen[|chosen| - 1];
      OfferMails(chosen[..|chosen| - 1], tid, undeliverable)
        + (if last.userId in undeliverable then [] else [Mail(last.userId, RoomOffer(tid))])
  }

  /** How many offer updates a pass completes when the database raises at statement
      `failAt`: the k-th update, or, for k past the last update, the final count. */
  function Completed(failAt: Option<nat>, n: nat): nat
  {
    if failAt.Some? && failAt.value < n then failAt.value else n
  }

  /** ProcessTripWaitingList. There is no transaction: when the database raises, the
      updates already made stay and the error is only logged. A mail that cannot be
      sent changes nothing in the table. */
  method ProcessTripWaitingList(db: Database, tid: int, now: int, undeliverable: set<int>, failAt: Option<nat>)
    requires db.Valid()
    modifies db`waiting, db`outbox
    ensures db.Valid()
    ensures Selection(db.trips, db.users, old(db.waiting), tid, now).None? ==>
      db.waiting == old(db.waiting) && db.outbox == old(db.outbox)
    ensures Selection(db.trips, db.users, old(db.waiting), tid, now).Some? ==>
      var chosen := Selection(db.trips, db.users, old(db.waiting), tid, now).value;
      db.outbox == old(db.outbox) + OfferMails(chosen[..Completed(failAt, |chosen|)], tid, undeliverable)
    ensures failAt.None? ==> db.waiting == Promoted(db.trips, db.users, old(db.waiting), tid, now)
    ensures failAt.Some? && Selection(db.trips, db.users, old(db.waiting), tid, now).Some? ==>
      var chosen := Selection(db.trips, db.users, old(db.waiting), tid, now).value;
      db.waiting == MarkOffered(old(db.waiting), Ids(chosen[..Completed(failAt, |chosen|)]), now)
  {
    // SELECT AvailableRooms FROM Trips WHERE TripId=@tid
    var trip := FindTrip(db.trips, tid);
    if trip.None? || trip.value.rooms <= 0 {
      return;
    }
    var activeNotified := Count(db.waiting, LiveOfferOn(tid, now));
    var freeSlots := trip.value.rooms - activeNotified;
    if freeSlots <= 0 {
      return;
    }
    var toNotify := Take(SortBy(Candidates(db.users, db.waiting, tid), JoinKey), freeSlots);
    assert toNotify == Selection(db.trips, db.users, db.waiting, tid, now).value;
    NotifyAndDrain(db, toNotify, tid, now, undeliverable, failAt);
  }

  /** The offers of a pass that has chosen `toNotify`, then the drain check. */
  method NotifyAndDrain(db: Database, toNotify: seq<WaitEntry>, tid: int, now: int, undeliverable: set<int>,
                        failAt: Option<nat>)
    requires db.Valid()
    modifies db`waiting, db`outbox
    ensures db.Valid()
    ensures db.outbox == old(db.outbox) + OfferMails(toNotify[..Completed(failAt, |toNotify|)], tid, undeliverable)
    ensures failAt.None? ==> db.waiting == DrainIfSettled(MarkOffered(old(db.waiting), Ids(toNotify), now), tid)
    ensures failAt.Some? ==>
      db.waiting == MarkOffered(old(db.waiting), Ids(toNotify[..Completed(failAt, |toNotify|)]), now)
  {
    var w0 := db.waiting;
    OfferEach(db, toNotify, tid, now, undeliverable, failAt);
    MarkOfferedValid(w0, Ids(toNotify[..Completed(failAt, |toNotify|)]), now, db.nextWaitingId);
    if failAt.Some? {
      return;
    }
    assert toNotify[..|toNotify|] == toNotify;
    // SELECT COUNT(*) FROM WaitingList WHERE TripId=@tid AND NotifiedAt IS NULL
    var remaining := Count(db.waiting, UnnotifiedOn(tid));
    if remaining == 0 {
      FilterKeepsWaitingValid(db.waiting, OtherTrip(tid), db.nextWaitingId);
      db.waiting := Filter(db.waiting, OtherTrip(tid));
    }
  }

  /** The foreach over `toNotify`: stamp each entry, then try to mail its user. */
  method OfferEach(db: Database, toNotify: seq<WaitEntry>, tid: int, now: int, undeliverable: set<int>, failAt: Option<nat>)
    modifies db`waiting, db`outbox
    ensures db.waiting == MarkOffered(old(db.waiting), Ids(toNotify[..Completed(failAt, |toNotify|)]), now)
    ensures db.outbox == old(db.outbox) + OfferMails(toNotify[..Completed(failAt, |toNotify|)], tid, undeliverable)
  {
    var w0 := db.waiting;
    MarkNothing(w0, now);
    var i := 0;
    while i < |toNotify|
      invariant 0 <= i <= |toNotify|
      invariant i <= Completed(failAt, |toNotify|)
      invariant db.waiting == MarkOffered(w0, Ids(toNotify[..i]), now)
      invariant db.outbox == old(db.outbox) + OfferMails(toNotify[..i], tid, undeliverable)
    {
      if failAt == Some(i) {
        return;
      }
      // UPDATE WaitingList SET NotifiedAt = ..., ExpirationAt = ... WHERE WaitingId = @id
      var id := toNotify[i].id;
      MarkOfferedTwice(w0, Ids(toNotify[..i]), id, now);
      db.waiting := MarkOffered(db.waiting, {id}, now);
      assert toNotify[..i + 1] == toNotify[..i] + [toNotify[i]];
      assert Ids(toNotify[..i + 1]) == Ids(toNotify[..i]) + {id};
      assert toNotify[..i + 1][..i] == toNotify[..i];
      if toNotify[i].userId !in undeliverable {
        db.outbox := db.outbox + [Mail(toNotify[i].userId, RoomOffer(tid))];
      }
      i := i + 1;
    }
  }

  // ----- Lemmas the method uses -----

  lemma MarkNothing(w: seq<WaitEntry>, now: int)
    ensures MarkOffered(w, Ids([]), now) == w
  {
    assert Ids([]) == {};
  }

  /** Offering to one more entry after a batch is the same as offering to the larger batch. */
  lemma MarkOfferedTwice(w: seq<WaitEntry>, ids: set<int>, id: int, now: int)
    ensures MarkOffered(MarkOffered(w, ids, now), {id}, now) == MarkOffered(w, ids + {id}, now)
  {
  }

  lemma MarkOfferedValid(w: seq<WaitEntry>, ids: set<int>, now: int, nextId: int)
    requires WaitingValid(w, nextId)
    ensures WaitingValid(MarkOffered(w, ids, now), nextId)
  {
    var m := MarkOffered(w, ids, now);
    assert forall i | 0 <= i < |m| :: WaitKey(m[i]) == WaitKey(w[i]) && WaitPair(m[i]) == WaitPair(w[i]);
    forall e | e in m ensures 0 < e.id < nextId && OfferFieldsPaired(e) {
      var i :| 0 <= i < |m| && m[i] == e;
      assert w[i] in w;
    }
  }

  lemma FilterKeepsWaitingValid(w: seq<WaitEntry>, p: WaitEntry -> bool, nextId: int)
    requires WaitingValid(w, nextId)
    ensures WaitingValid(Filter(w, p), nextId)
  {
    FilterDistinct(w, p, WaitKey);
    FilterDistinct(w, p, WaitPair);
    FilterMembers(w, p);
  }

  // ----- What a pass promises -----

  /** A pass offers rooms only to entries of the trip that were never notified and whose
      user exists, and to as many as there are free slots or candidates, whichever is
      fewer. */
  lemma SelectionChoosesCandidates(ts: seq<Trip>, us: seq<User>, w: seq<WaitEntry>, tid: int, now: int)
    requires Selection(ts, us, w, tid, now).Some?
    ensures var t := FindTrip(ts, tid).value;
      var free := FreeSlots(t, w, now);
      var chosen := Selection(ts, us, w, tid, now).value;
      && t.rooms > 0 && free > 0
      && |chosen| == (if free < |Candidates(us, w, tid)| then free else |Candidates(us, w, tid)|)
      && forall e | e in chosen :: e in w && e.tripId == tid && e.notifiedAt.None? && e.userId in UserIds(us)
  {
    var cands := Candidates(us, w, tid);
    var sorted := SortBy(cands, JoinKey);
    SortByPermutation(cands, JoinKey);
    FilterMembers(w, AwaitingOffer(tid, UserIds(us)));
    var chosen := Selection(ts, us, w, tid, now).value;
    forall e | e in chosen
      ensures e in w && e.tripId == tid && e.notifiedAt.None? && e.userId in UserIds(us)
    {
      var i :| 0 <= i < |chosen| && chosen[i] == e;
      assert sorted[i] == e;
      assert e in multiset(sorted);
      assert e in cands;
    }
  }

  /** FIFO: every entry offered a room joined no later than every candidate passed over. */
  lemma OffersAreFifo(ts: seq<Trip>, us: seq<User>, w: seq<WaitEntry>, tid: int, now: int,
                      offered: WaitEntry, passed: WaitEntry)
    requires Selection(ts, us, w, tid, now).Some?
    requires offered in Selection(ts, us, w, tid, now).value
    requires passed in Candidates(us, w, tid) && passed !in Selection(ts, us, w, tid, now).value
    ensures offered.joinDate <= passed.joinDate
  {
    var t := FindTrip(ts, tid).value;
    TopPrecedesRest(Candidates(us, w, tid), JoinKey, FreeSlots(t, w, now), offered, passed);
  }

  /** Each chosen entry is stamped with now and now + 24 h; every other row, of any
      trip, keeps its timestamps. */
  lemma OffersStamped(ts: seq<Trip>, us: seq<User>, w: seq<WaitEntry>, tid: int, now: int)
    requires DistinctBy(w, WaitKey)
    requires Selection(ts, us, w, tid, now).Some?
    ensures var chosen := Selection(ts, us, w, tid, now).value;
      var m := MarkOffered(w, Ids(chosen), now);
      forall i | 0 <= i < |w| ::
        && (w[i] in chosen ==> m[i].notifiedAt == Some(now) && m[i].expirationAt == Some(now + OFFER_WINDOW))
        && (w[i] !in chosen ==> m[i] == w[i])
        && WaitPair(m[i]) == WaitPair(w[i]) && m[i].joinDate == w[i].joinDate
  {
    var chosen := Selection(ts, us, w, tid, now).value;
    SelectionChoosesCandidates(ts, us, w, tid, now);
    forall i | 0 <= i < |w| && w[i].id in Ids(chosen)
      ensures w[i] in chosen
    {
      var e :| e in chosen && e.id == w[i].id;
      var j :| 0 <= j < |w| && w[j] == e;
      assert WaitKey(w[i]) == WaitKey(w[j]);
      assert i == j;
    }
  }

  /** Rows of other trips are never touched: a pass leaves their part of the table as it
      was, whatever it does to the given trip. */
  lemma PromotionTouchesOnlyItsTrip(ts: seq<Trip>, us: seq<User>, w: seq<WaitEntry>, tid: int, now: int)
    requires DistinctBy(w, WaitKey)
    ensures Filter(Promoted(ts, us, w, tid, now), OtherTrip(tid)) == Filter(w, OtherTrip(tid))
  {
    match Selection(ts, us, w, tid, now)
    case None =>
    case Some(chosen) =>
      var m := MarkOffered(w, Ids(chosen), now);
      OffersStamped(ts, us, w, tid, now);
      SelectionChoosesCandidates(ts, us, w, tid, now);
      forall i | 0 <= i < |w| && OtherTrip(tid)(w[i]) ensures w[i] == m[i] {
        assert w[i] !in chosen;
      }
      FilterPointwise(w, m, OtherTrip(tid));
      if Count(m, UnnotifiedOn(tid)) == 0 {
        FilterMembers(m, OtherTrip(tid));
        FilterAll(Filter(m, OtherTrip(tid)), OtherTrip(tid));
      }
  }

  /** The drain rule: after a pass, the trip keeps entries only while one of them is still
      un-notified; when none is, all of them go, the ones just offered included. */
  lemma PromotionDrainsSettledTrip(ts: seq<Trip>, us: seq<User>, w: seq<WaitEntry>, tid: int, now: int)
    requires Selection(ts, us, w, tid, now).Some?
    ensures var chosen := Selection(ts, us, w, tid, now).value;
      var m := MarkOffered(w, Ids(chosen), now);
      var r := Promoted(ts, us, w, tid, now);
      && (Count(m, UnnotifiedOn(tid)) == 0 ==> forall e | e in r :: e.tripId != tid)
      && (Count(m, UnnotifiedOn(tid)) > 0 ==> r == m)
      && ((exists e | e in r :: e.tripId == tid) ==> exists e | e in r :: e.tripId == tid && e.notifiedAt.None?)
  {
    var chosen := Selection(ts, us, w, tid, now).value;
    var m := MarkOffered(w, Ids(chosen), now);
    FilterMembers(m, OtherTrip(tid));
    FilterMembers(m, UnnotifiedOn(tid));
    if Count(m, UnnotifiedOn(tid)) > 0 {
      var u := Filter(m, UnnotifiedOn(tid))[0];
      assert u in Filter(m, UnnotifiedOn(tid));
    }
  }

  function IdIn(ids: set<int>): WaitEntry -> bool
  {
    (e: WaitEntry) => e.id in ids
  }

  lemma {:induction false} IdsBound(s: seq<WaitEntry>)
    ensures |Ids(s)| <= |s|
  {
    if s != [] {
      IdsBound(s[1..]);
      assert s == [s[0]] + s[1..];
      assert Ids(s) == {s[0].id} + Ids(s[1..]);
    }
  }

  lemma {:induction false} IdsDistinct(s: seq<WaitEntry>)
    requires DistinctBy(s, WaitKey)
    ensures |Ids(s)| == |s|
  {
    if s != [] {
      var t := s[1..];
      DistinctTail(s, WaitKey);
      IdsDistinct(t);
      HeadIdFresh(s);
      assert s == [s[0]] + t;
      assert Ids(s) == {s[0].id} + Ids(t);
    }
  }

  lemma HeadIdFresh(s: seq<WaitEntry>)
    requires DistinctBy(s, WaitKey) && s != []
    ensures s[0].id !in Ids(s[1..])
  {
    forall e | e in s[1..] ensures e.id != s[0].id {
      var j :| 0 <= j < |s[1..]| && s[1..][j] == e;
      assert s[j + 1] == e;
      assert WaitKey(s[0]) != WaitKey(s[j + 1]);
    }
  }

  /** With unique WaitingIds, at most |ids| rows carry one of `ids`. */
  lemma CountIdIn(w: seq<WaitEntry>, ids: set<int>)
    requires DistinctBy(w, WaitKey)
    ensures Count(w, IdIn(ids)) <= |ids|
  {
    var f := Filter(w, IdIn(ids));
    FilterDistinct(w, IdIn(ids), WaitKey);
    FilterMembers(w, IdIn(ids));
    IdsDistinct(f);
    SubsetSize(Ids(f), ids);
  }

  /** No overselling of offers: after a pass that runs, the live offers on the trip are
      at most its AvailableRooms. */
  lemma PromotionKeepsOffersWithinRooms(ts: seq<Trip>, us: seq<User>, w: seq<WaitEntry>, tid: int, now: int)
    requires DistinctBy(w, WaitKey)
    requires Selection(ts, us, w, tid, now).Some?
    ensures LiveOffers(Promoted(ts, us, w, tid, now), tid, now) <= FindTrip(ts, tid).value.rooms
  {
    var t := FindTrip(ts, tid).value;
    var chosen := Selection(ts, us, w, tid, now).value;
    var m := MarkOffered(w, Ids(chosen), now);
    SelectionChoosesCandidates(ts, us, w, tid, now);
    CountCovered(w, m, LiveOfferOn(tid, now), IdIn(Ids(chosen)));
    CountIdIn(w, Ids(chosen));
    IdsBound(chosen);
    if Count(m, UnnotifiedOn(tid)) == 0 {
      FilterMembers(m, OtherTrip(tid));
      FilterNone(Filter(m, OtherTrip(tid)), LiveOfferOn(tid, now));
    }
  }
}
