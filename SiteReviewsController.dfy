/** Reviews of the agency itself: posting one (with its rating check and comment
    normalisation) and deleting one (by its author or an administrator). */
module SiteReviewsController {
  import opened Relational
  import opened Schema
  import TripModel

  /** The longest comment stored, in UTF-16 code units; longer ones are cut. */
  const MAX_COMMENT := 500

  // ----- Add -----

  datatype AddOutcome = AddNeedsLogin | RatingOutOfRange | SiteReviewAdded(id: int)

  /** The comment as stored: null becomes "", text past 500 code units is cut off, and
      a result that is empty or all white space is stored as NULL. */
  function StoredComment(comment: Option<string>): Option<string>
  {
    var c := if comment.None? then "" else comment.value;
    var cut := if TripModel.Utf16Length(c) > MAX_COMMENT then TripModel.Utf16Prefix(c, MAX_COMMENT) else c;
    if TripModel.IsBlank(cut) then None else Some(cut)
  }

  /** What Add answers, given the id the insert would draw. */
  function AddVerdict(user: Option<int>, rating: int, nextId: int): AddOutcome
  {
    if user.None? then AddNeedsLogin
    else if rating < 1 || rating > 5 then RatingOutOfRange
    else SiteReviewAdded(nextId)
  }

  /** Add. Only a signed-in user with a rating of 1 to 5 inserts, and exactly one row. */
  method Add(db: Database, user: Option<int>, rating: int, comment: Option<string>) returns (r: AddOutcome)
    requires db.Valid()
    modifies db`siteReviews, db`nextSiteReviewId
    ensures db.Valid()
    ensures r == AddVerdict(user, rating, old(db.nextSiteReviewId))
    ensures !r.SiteReviewAdded? ==> db.siteReviews == old(db.siteReviews) && db.nextSiteReviewId == old(db.nextSiteReviewId)
    ensures r.SiteReviewAdded? ==>
      db.siteReviews == old(db.siteReviews) + [SiteReview(r.id, user.value, rating, StoredComment(comment))]
  {
    r := AddVerdict(user, rating, db.nextSiteReviewId);
    if r.SiteReviewAdded? {
      var row := SiteReview(db.nextSiteReviewId, user.value, rating, StoredComment(comment));
      AddedKeepsValid(db.siteReviews, db.nextSiteReviewId, row);
      db.siteReviews := db.siteReviews + [row];
      db.nextSiteReviewId := db.nextSiteReviewId + 1;
    }
  }

  lemma AddedKeepsValid(rs: seq<SiteReview>, nextId: int, row: SiteReview)
    requires SiteReviewsValid(rs, nextId) && row.id == nextId
    ensures SiteReviewsValid(rs + [row], nextId + 1)
  {
    forall x | x in rs ensures SiteReviewKey(x) != SiteReviewKey(row) { }
    AppendDistinct(rs, row, SiteReviewKey);
  }

  /** A stored comment is never blank, at most 500 code units long, and the start of what
      was posted; a cut one is the longest start that fits, so it falls at most one code
      unit short of 500; nothing is stored exactly when the first 500 code units of the
      posted comment are blank (or there was none); a short non-blank comment is stored
      as posted. */
  lemma StoredCommentMeans(comment: Option<string>)
    ensures var r := StoredComment(comment);
      r.Some? ==>
        && comment.Some? && TripModel.Utf16Length(r.value) <= MAX_COMMENT && r.value <= comment.value
        && !TripModel.IsBlank(r.value)
        && (|r.value| < |comment.value| ==>
              TripModel.Utf16Length(r.value) + TripModel.Utf16Units(comment.value[|r.value|]) > MAX_COMMENT)
        && (TripModel.Utf16Length(comment.value) > MAX_COMMENT ==> TripModel.Utf16Length(r.value) >= MAX_COMMENT - 1)
    ensures StoredComment(comment).None? <==>
      comment.None? || TripModel.IsBlank(TripModel.Utf16Prefix(comment.value, MAX_COMMENT))
    ensures comment.Some? && TripModel.Utf16Length(comment.value) <= MAX_COMMENT && !TripModel.IsBlank(comment.value) ==>
      StoredComment(comment) == comment
  {
    assert TripModel.IsBlank("");
    if comment.Some? && TripModel.Utf16Length(comment.value) > MAX_COMMENT {
      var r := TripModel.Utf16Prefix(comment.value, MAX_COMMENT);
      assert r != comment.value;
    }
  }

  /** Normalising a stored comment again changes nothing. */
  lemma StoredCommentIdempotent(comment: Option<string>)
    ensures StoredComment(StoredComment(comment)) == StoredComment(comment)
  {
    StoredCommentMeans(comment);
    var r := StoredComment(comment);
    if r.Some? {
      StoredCommentMeans(r);
    }
  }

  // ----- Delete -----

  datatype DeleteOutcome = DeleteNeedsLogin | SiteReviewNotFound | NotPermitted | SiteReviewDeleted

  function SiteReviewWithId(id: int): SiteReview -> bool { (r: SiteReview) => r.id == id }
  function OtherSiteReview(id: int): SiteReview -> bool { (r: SiteReview) => r.id != id }

  /** SELECT UserId FROM SiteReviews WHERE ReviewId = id */
  function OwnerOf(rs: seq<SiteReview>, id: int): Option<int>
  {
    match FirstIndex(rs, SiteReviewWithId(id))
    case None => None
    case Some(i) => Some(rs[i].userId)
  }

  /** What Delete answers. `role` is the session's role, None when it holds none. */
  function DeleteVerdict(rs: seq<SiteReview>, user: Option<int>, role: Option<string>, id: int): DeleteOutcome
  {
    if user.None? then DeleteNeedsLogin
    else match OwnerOf(rs, id)
      case None => SiteReviewNotFound
      case Some(owner) => if role != Some("Admin") && owner != user.value then NotPermitted else SiteReviewDeleted
  }

  /** Delete. Only SiteReviewDeleted writes: the review with that id goes. */
  method Delete(db: Database, user: Option<int>, role: Option<string>, id: int) returns (r: DeleteOutcome)
    requires db.Valid()
    modifies db`siteReviews
    ensures db.Valid()
    ensures r == DeleteVerdict(old(db.siteReviews), user, role, id)
    ensures r != SiteReviewDeleted ==> db.siteReviews == old(db.siteReviews)
    ensures r == SiteReviewDeleted ==> db.siteReviews == Filter(old(db.siteReviews), OtherSiteReview(id))
  {
    r := DeleteVerdict(db.siteReviews, user, role, id);
    if r == SiteReviewDeleted {
      DeleteKeepsValid(db.siteReviews, db.nextSiteReviewId, id);
      db.siteReviews := Filter(db.siteReviews, OtherSiteReview(id));
    }
  }

  lemma DeleteKeepsValid(rs: seq<SiteReview>, nextId: int, id: int)
    requires SiteReviewsValid(rs, nextId)
    ensures SiteReviewsValid(Filter(rs, OtherSiteReview(id)), nextId)
  {
    FilterMembers(rs, OtherSiteReview(id));
    FilterDistinct(rs, OtherSiteReview(id), SiteReviewKey);
  }

  /** Delete removes a review exactly when the caller is signed in, the review exists,
      and the caller is an administrator or wrote it; it then removes that review and
      keeps every other one. */
  lemma DeleteAuthorised(rs: seq<SiteReview>, nextId: int, user: Option<int>, role: Option<string>, id: int)
    requires SiteReviewsValid(rs, nextId)
    ensures DeleteVerdict(rs, user, role, id) == SiteReviewDeleted <==>
      user.Some? && exists x | x in rs :: x.id == id && (role == Some("Admin") || x.userId == user.value)
    ensures DeleteVerdict(rs, user, role, id) == SiteReviewNotFound <==>
      user.Some? && forall x | x in rs :: x.id != id
    ensures DeleteVerdict(rs, user, role, id) == SiteReviewDeleted ==>
      && Count(Filter(rs, OtherSiteReview(id)), SiteReviewWithId(id)) == 0
      && |Filter(rs, OtherSiteReview(id))| == |rs| - 1
      && forall x :: x in Filter(rs, OtherSiteReview(id)) <==> x in rs && x.id != id
  {
    var p := SiteReviewWithId(id);
    var q := OtherSiteReview(id);
    FirstIndexSpec(rs, p);
    FilterMembers(rs, q);
    if user.Some? {
      match FirstIndex(rs, p)
      case None =>
        assert forall x | x in rs :: x.id != id;
      case Some(i) =>
        forall x | x in rs && x.id == id ensures x == rs[i] {
          var k :| 0 <= k < |rs| && rs[k] == x;
          assert SiteReviewKey(rs[k]) == SiteReviewKey(rs[i]);
        }
        FilterMembers(Filter(rs, q), p);
        FilterNone(Filter(rs, q), p);
        CountOnly(rs, p, i);
        CountSplit(rs, p, q);
    }
  }
}
