/** Reviews of trips: only a traveller with an Active booking on a trip may review it,
    and only an administrator may delete a review. */
module ReviewsController {
  import opened Relational
  import opened Schema

  // ----- Add -----

  datatype AddOutcome = AddNeedsLogin | NotBooked | ReviewAdded(id: int)

  /** The eligibility count: the user's Active bookings on the trip. */
  predicate MayReview(bs: seq<Booking>, uid: int, tid: int)
  {
    Count(bs, ActiveOf(uid, tid)) > 0
  }

  /** What Add answers, given the id the insert would draw. The rating is not checked. */
  function AddVerdict(bs: seq<Booking>, user: Option<int>, tid: int, nextId: int): AddOutcome
  {
    if user.None? then AddNeedsLogin
    else if !MayReview(bs, user.value, tid) then NotBooked
    else ReviewAdded(nextId)
  }

  /** Reviews of one trip by one user. */
  function ReviewBy(uid: int, tid: int): Review -> bool { (r: Review) => r.userId == uid && r.tripId == tid }

  /** Add. Only ReviewAdded writes: one row with the rating and comment as posted. */
  method Add(db: Database, user: Option<int>, tid: int, rating: int, comment: Option<string>) returns (r: AddOutcome)
    requires db.Valid()
    modifies db`reviews, db`nextReviewId
    ensures db.Valid()
    ensures r == AddVerdict(db.bookings, user, tid, old(db.nextReviewId))
    ensures !r.ReviewAdded? ==> db.reviews == old(db.reviews) && db.nextReviewId == old(db.nextReviewId)
    ensures r.ReviewAdded? ==> db.reviews == old(db.reviews) + [Review(r.id, tid, user.value, rating, comment)]
  {
    r := AddVerdict(db.bookings, user, tid, db.nextReviewId);
    if r.ReviewAdded? {
      var row := Review(db.nextReviewId, tid, user.value, rating, comment);
      AddedKeepsValid(db.reviews, db.nextReviewId, row);
      db.reviews := db.reviews + [row];
      db.nextReviewId := db.nextReviewId + 1;
    }
  }

  lemma AddedKeepsValid(rs: seq<Review>, nextId: int, row: Review)
    requires ReviewsValid(rs, nextId) && row.id == nextId
    ensures ReviewsValid(rs + [row], nextId + 1)
  {
    forall x | x in rs ensures ReviewKey(x) != ReviewKey(row) { }
    AppendDistinct(rs, row, ReviewKey);
  }

  /** A review is added exactly when the signed-in user has an Active booking on the trip;
      the new row is then the only change: that user's reviews of that trip grow by one,
      everyone else's stay as they were, and the rating is stored even outside 1 to 5. */
  lemma AddMeans(bs: seq<Booking>, rs: seq<Review>, nextId: int, user: Option<int>, tid: int,
                 rating: int, comment: Option<string>)
    requires ReviewsValid(rs, nextId)
    ensures AddVerdict(bs, user, tid, nextId).ReviewAdded? <==>
      user.Some? && exists b | b in bs :: b.userId == user.value && b.tripId == tid && b.status == Active
    ensures AddVerdict(bs, user, tid, nextId).ReviewAdded? ==>
      var after := rs + [Review(nextId, tid, user.value, rating, comment)];
      && ReviewsValid(after, nextId + 1)
      && Count(after, ReviewBy(user.value, tid)) == Count(rs, ReviewBy(user.value, tid)) + 1
      && (forall u, t | u != user.value || t != tid :: Count(after, ReviewBy(u, t)) == Count(rs, ReviewBy(u, t)))
      && after[|rs|].rating == rating
  {
    if user.Some? {
      var p := ActiveOf(user.value, tid);
      CountPositive(bs, p);
      if exists b | b in bs :: b.userId == user.value && b.tripId == tid && b.status == Active {
        var b :| b in bs && b.userId == user.value && b.tripId == tid && b.status == Active;
        var k :| 0 <= k < |bs| && bs[k] == b;
        assert p(bs[k]);
      }
      var row := Review(nextId, tid, user.value, rating, comment);
      if AddVerdict(bs, user, tid, nextId).ReviewAdded? {
        AddedKeepsValid(rs, nextId, row);
        forall u, t ensures Count(rs + [row], ReviewBy(u, t)) == Count(rs, ReviewBy(u, t)) + (if ReviewBy(u, t)(row) then 1 else 0) {
          CountAppend(rs, row, ReviewBy(u, t));
        }
      }
    }
  }

  // ----- Delete -----

  datatype DeleteOutcome = DeleteNotAdmin | ReviewDeleted

  function OtherReview(id: int): Review -> bool { (r: Review) => r.id != id }

  /** Delete. An administrator removes the review with that id (none, if there is no such
      review); anyone else changes nothing. */
  method Delete(db: Database, isAdmin: bool, id: int) returns (r: DeleteOutcome)
    requires db.Valid()
    modifies db`reviews
    ensures db.Valid()
    ensures r == if isAdmin then ReviewDeleted else DeleteNotAdmin
    ensures !isAdmin ==> db.reviews == old(db.reviews)
    ensures isAdmin ==> db.reviews == Filter(old(db.reviews), OtherReview(id))
  {
    if !isAdmin {
      return DeleteNotAdmin;
    }
    DeleteKeepsValid(db.reviews, db.nextReviewId, id);
    db.reviews := Filter(db.reviews, OtherReview(id));
    r := ReviewDeleted;
  }

  lemma DeleteKeepsValid(rs: seq<Review>, nextId: int, id: int)
    requires ReviewsValid(rs, nextId)
    ensures ReviewsValid(Filter(rs, OtherReview(id)), nextId)
  {
    FilterMembers(rs, OtherReview(id));
    FilterDistinct(rs, OtherReview(id), ReviewKey);
  }

  /** The admin's DELETE removes only the review with that id: exactly one row when it
      exists, none otherwise, and every other review stays, in order. */
  lemma DeleteRemovesOnlyIt(rs: seq<Review>, nextId: int, id: int)
    requires ReviewsValid(rs, nextId)
    ensures var after := Filter(rs, OtherReview(id));
      && (forall x :: x in after <==> x in rs && x.id != id)
      && |after| == |rs| - (if exists x | x in rs :: x.id == id then 1 else 0)
  {
    var q := OtherReview(id);
    var p := (r: Review) => r.id == id;
    FilterMembers(rs, q);
    CountSplit(rs, p, q);
    if exists x | x in rs :: x.id == id {
      var x :| x in rs && x.id == id;
      var i :| 0 <= i < |rs| && rs[i] == x;
      forall k | 0 <= k < |rs| && p(rs[k]) ensures k == i {
        assert ReviewKey(rs[k]) == ReviewKey(rs[i]);
      }
      CountOnly(rs, p, i);
    } else {
      FilterNone(rs, p);
    }
  }
}
