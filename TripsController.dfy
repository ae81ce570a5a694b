/** The public trip pages: the gallery (search, category filter, sort, per-trip waiting
    counts and the caller's ROW_NUMBER position in each trip's queue) and the details
    page. */
module TripsController {
  import opened Relational
  import opened Schema
  import opened WaitingListController
  import opened TripGalleryItemVM
  import WaitingListHelper

  // ----- Search and category filter -----

  /** `pat` occurs in `text` starting at index i. */
  predicate OccursAt(text: string, pat: string, i: int)
  {
    0 <= i <= |text| - |pat| && text[i..i + |pat|] == pat
  }

  /** `text` contains `pat` as a contiguous piece: LIKE '%pat%'. */
  predicate Contains(text: string, pat: string)
  {
    exists i | 0 <= i <= |text| - |pat| :: OccursAt(text, pat, i)
  }

  /** string.IsNullOrEmpty */
  predicate IsNullOrEmpty(s: Option<string>)
  {
    s.None? || s.value == ""
  }

  /** The WHERE clause the gallery builds: a non-empty search must occur in the
      destination or the country, a non-empty category must equal the trip's. */
  function Matches(search: Option<string>, category: Option<string>): Trip -> bool
  {
    (t: Trip) =>
      && (IsNullOrEmpty(search) || Contains(t.destination, search.value) || Contains(t.country, search.value))
      && (IsNullOrEmpty(category) || t.category == category.value)
  }

  // ----- Sort -----

  function PriceKey(t: Trip): real { t.price }
  function PriceDescKey(t: Trip): real { -t.price }
  function StartKey(t: Trip): real { t.startDate as real }

  /** The ORDER BY the sort choice appends; any other choice appends none, and the rows
      come back as the table holds them. */
  function Ordered(ts: seq<Trip>, sort: Option<string>): seq<Trip>
  {
    if sort == Some("price_asc") then SortBy(ts, PriceKey)
    else if sort == Some("price_desc") then SortBy(ts, PriceDescKey)
    else if sort == Some("date") then SortBy(ts, StartKey)
    else ts
  }

  // ----- Waiting counts and positions -----

  function TripIdsOf(w: seq<WaitEntry>): set<int>
  {
    set e | e in w :: e.tripId
  }

  /** SELECT TripId, COUNT(*) FROM WaitingList GROUP BY TripId, as a dictionary. */
  function WaitingCounts(w: seq<WaitEntry>): map<int, nat>
  {
    map tid | tid in TripIdsOf(w) :: Count(w, OfTrip(tid))
  }

  /** The dictionary lookup with 0 for a trip that has no group. */
  function WaitingCount(counts: map<int, nat>, tid: int): nat
  {
    if tid in counts then counts[tid] else 0
  }

  function OfUser(uid: int): WaitEntry -> bool
  {
    (e: WaitEntry) => e.userId == uid
  }

  /** The trip's partition of WaitingList in JoinDate order. SQL leaves the order of
      equal JoinDates open; this is one of the orders it may pick. */
  function Ranked(w: seq<WaitEntry>, tid: int): seq<WaitEntry>
  {
    SortBy(Filter(w, OfTrip(tid)), WaitingListHelper.JoinKey)
  }

  /** ROW_NUMBER() OVER (PARTITION BY TripId ORDER BY JoinDate) of the caller's row. */
  function RowNumber(w: seq<WaitEntry>, tid: int, uid: int): Option<nat>
  {
    match FirstIndex(Ranked(w, tid), OfUser(uid))
    case None => None
    case Some(i) => Some(i + 1)
  }

  /** The position shown on a card: none for a visitor who is not logged in. */
  function MyPosition(w: seq<WaitEntry>, user: Option<int>, tid: int): Option<nat>
  {
    if user.None? then None else RowNumber(w, tid, user.value)
  }

  // ----- The pages -----

  function Gallery(ts: seq<Trip>, w: seq<WaitEntry>, user: Option<int>,
                   search: Option<string>, category: Option<string>, sort: Option<string>): (r: seq<GalleryItem>)
    ensures |r| == Count(ts, Matches(search, category))
    ensures forall i | 0 <= i < |r| :: r[i].trip in ts && Matches(search, category)(r[i].trip)
  {
    var f := Filter(ts, Matches(search, category));
    OrderedMembers(f, sort);
    FilterMembers(ts, Matches(search, category));
    var rows := Ordered(f, sort);
    var counts := WaitingCounts(w);
    seq(|rows|, i requires 0 <= i < |rows| =>
      GalleryItem(rows[i], WaitingCount(counts, rows[i].id), MyPosition(w, user, rows[i].id)))
  }

  datatype DetailsPage = NotFound | Page(trip: Trip)

  /** The details page: NotFound when no trip has the id. */
  function Details(ts: seq<Trip>, id: int): (r: DetailsPage)
    ensures r.NotFound? <==> forall t | t in ts :: t.id != id
    ensures r.Page? ==> r.trip in ts && r.trip.id == id
  {
    match FindTrip(ts, id)
    case None => NotFound
    case Some(t) => Page(t)
  }

  // ----- Properties -----

  function CardTrips(g: seq<GalleryItem>): seq<Trip>
  {
    seq(|g|, i requires 0 <= i < |g| => g[i].trip)
  }

  lemma OrderedPermutation(ts: seq<Trip>, sort: Option<string>)
    ensures multiset(Ordered(ts, sort)) == multiset(ts)
  {
    SortByPermutation(ts, PriceKey);
    SortByPermutation(ts, PriceDescKey);
    SortByPermutation(ts, StartKey);
  }

  /** Sorting keeps the rows: the same number, and each sorted row is one of them. */
  lemma OrderedMembers(ts: seq<Trip>, sort: Option<string>)
    ensures |Ordered(ts, sort)| == |ts|
    ensures forall i | 0 <= i < |Ordered(ts, sort)| :: Ordered(ts, sort)[i] in ts
  {
    OrderedPermutation(ts, sort);
    assert |Ordered(ts, sort)| == |multiset(Ordered(ts, sort))|;
    forall i | 0 <= i < |Ordered(ts, sort)| ensures Ordered(ts, sort)[i] in ts {
      assert Ordered(ts, sort)[i] in multiset(Ordered(ts, sort));
    }
  }

  /** The gallery shows each trip that passes the search and category filters, as often
      as the table holds it, and no other trip. */
  lemma GalleryShowsMatchingTrips(ts: seq<Trip>, w: seq<WaitEntry>, user: Option<int>,
                                  search: Option<string>, category: Option<string>, sort: Option<string>)
    ensures multiset(CardTrips(Gallery(ts, w, user, search, category, sort))) == multiset(Filter(ts, Matches(search, category)))
    ensures forall t :: t in CardTrips(Gallery(ts, w, user, search, category, sort)) <==>
      (&& t in ts
       && (IsNullOrEmpty(search) || Contains(t.destination, search.value) || Contains(t.country, search.value))
       && (IsNullOrEmpty(category) || t.category == category.value))
  {
    var f := Filter(ts, Matches(search, category));
    var cards := CardTrips(Gallery(ts, w, user, search, category, sort));
    assert cards == Ordered(f, sort);
    OrderedPermutation(f, sort);
    FilterMembers(ts, Matches(search, category));
    forall t ensures t in cards <==> t in f {
      assert t in cards <==> t in multiset(cards);
      assert t in f <==> t in multiset(f);
    }
  }

  /** The cards follow the chosen order: price up, price down, start date up; with any
      other choice they keep the table's order. */
  lemma GalleryOrder(ts: seq<Trip>, w: seq<WaitEntry>, user: Option<int>,
                     search: Option<string>, category: Option<string>, sort: Option<string>)
    ensures sort == Some("price_asc") ==>
      forall i, j | 0 <= i < j < |Gallery(ts, w, user, search, category, sort)| ::
        Gallery(ts, w, user, search, category, sort)[i].trip.price <= Gallery(ts, w, user, search, category, sort)[j].trip.price
    ensures sort == Some("price_desc") ==>
      forall i, j | 0 <= i < j < |Gallery(ts, w, user, search, category, sort)| ::
        Gallery(ts, w, user, search, category, sort)[i].trip.price >= Gallery(ts, w, user, search, category, sort)[j].trip.price
    ensures sort == Some("date") ==>
      forall i, j | 0 <= i < j < |Gallery(ts, w, user, search, category, sort)| ::
        Gallery(ts, w, user, search, category, sort)[i].trip.startDate <= Gallery(ts, w, user, search, category, sort)[j].trip.startDate
    ensures sort !in {Some("price_asc"), Some("price_desc"), Some("date")} ==>
      CardTrips(Gallery(ts, w, user, search, category, sort)) == Filter(ts, Matches(search, category))
  {
    var f := Filter(ts, Matches(search, category));
    var g := Gallery(ts, w, user, search, category, sort);
    if sort == Some("price_asc") {
      SortBySorted(f, PriceKey);
      assert forall i | 0 <= i < |g| :: g[i].trip == SortBy(f, PriceKey)[i];
    } else if sort == Some("price_desc") {
      SortBySorted(f, PriceDescKey);
      assert forall i | 0 <= i < |g| :: g[i].trip == SortBy(f, PriceDescKey)[i];
    } else if sort == Some("date") {
      SortBySorted(f, StartKey);
      assert forall i | 0 <= i < |g| :: g[i].trip == SortBy(f, StartKey)[i];
    }
  }

  /** Every card's waiting count is the number of entries its trip has in the waiting
      list, 0 when it has none. */
  lemma WaitingCountIsCount(w: seq<WaitEntry>, tid: int)
    ensures WaitingCount(WaitingCounts(w), tid) == Count(w, OfTrip(tid))
  {
    CountPositive(w, OfTrip(tid));
    if tid !in TripIdsOf(w) {
      forall i | 0 <= i < |w| ensures !OfTrip(tid)(w[i]) {
        assert w[i] in w;
      }
    }
  }

  /** Every card carries its trip's number of waiting entries and the caller's row number
      in that trip's queue (none for a visitor who is not signed in). */
  lemma GalleryCounts(ts: seq<Trip>, w: seq<WaitEntry>, user: Option<int>,
                      search: Option<string>, category: Option<string>, sort: Option<string>)
    ensures forall i | 0 <= i < |Gallery(ts, w, user, search, category, sort)| ::
      && Gallery(ts, w, user, search, category, sort)[i].waitingCount ==
         Count(w, OfTrip(Gallery(ts, w, user, search, category, sort)[i].trip.id))
      && Gallery(ts, w, user, search, category, sort)[i].myPosition ==
         MyPosition(w, user, Gallery(ts, w, user, search, category, sort)[i].trip.id)
  {
    var g := Gallery(ts, w, user, search, category, sort);
    forall i | 0 <= i < |g|
      ensures g[i].waitingCount == Count(w, OfTrip(g[i].trip.id))
      ensures g[i].myPosition == MyPosition(w, user, g[i].trip.id)
    {
      WaitingCountIsCount(w, g[i].trip.id);
    }
  }

  /** The trip's queue in rank order holds exactly the trip's entries, sorted by JoinDate,
      and counts any condition on the trip's entries as the table does. */
  lemma RankedFacts(w: seq<WaitEntry>, tid: int)
    ensures SortedBy(Ranked(w, tid), WaitingListHelper.JoinKey)
    ensures forall e :: e in Ranked(w, tid) <==> e in w && e.tripId == tid
  {
    var f := Filter(w, OfTrip(tid));
    SortBySorted(f, WaitingListHelper.JoinKey);
    SortByPermutation(f, WaitingListHelper.JoinKey);
    FilterMembers(w, OfTrip(tid));
    forall e ensures e in Ranked(w, tid) <==> e in f {
      assert e in Ranked(w, tid) <==> e in multiset(Ranked(w, tid));
      assert e in f <==> e in multiset(f);
    }
  }

  lemma RankedCount(w: seq<WaitEntry>, tid: int, q: WaitEntry -> bool)
    requires forall e | e in w && q(e) :: e.tripId == tid
    ensures Count(Ranked(w, tid), q) == Count(w, q)
  {
    CountSortBy(Filter(w, OfTrip(tid)), WaitingListHelper.JoinKey, q);
    FilterNarrow(w, OfTrip(tid), q);
  }

  /** In a queue of one trip sorted by JoinDate, fewer than i + 1 rows joined strictly
      before the row at index i ... */
  lemma RankLowerBound(r: seq<WaitEntry>, tid: int, i: int)
    requires SortedBy(r, WaitingListHelper.JoinKey)
    requires 0 <= i < |r|
    ensures Count(r, JoinedBefore(tid, r[i].joinDate)) <= i
  {
    var before := JoinedBefore(tid, r[i].joinDate);
    assert r == r[..i] + r[i..];
    FilterAppend(r[..i], r[i..], before);
    CountBound(r[..i], before);
    forall x | x in r[i..] ensures !before(x) {
      var m :| 0 <= m < |r| - i && r[i..][m] == x;
      assert r[i + m] == x;
      assert WaitingListHelper.JoinKey(r[i]) <= WaitingListHelper.JoinKey(r[i + m]);
    }
    FilterNone(r[i..], before);
  }

  /** ... and at least i + 1 rows joined no later than it. */
  lemma RankUpperBound(r: seq<WaitEntry>, tid: int, i: int)
    requires SortedBy(r, WaitingListHelper.JoinKey)
    requires forall e | e in r :: e.tripId == tid
    requires 0 <= i < |r|
    ensures i + 1 <= Count(r, JoinedBy(tid, r[i].joinDate))
  {
    var upTo := JoinedBy(tid, r[i].joinDate);
    assert r == r[..i + 1] + r[i + 1..];
    FilterAppend(r[..i + 1], r[i + 1..], upTo);
    forall x | x in r[..i + 1] ensures upTo(x) {
      var m :| 0 <= m <= i && r[..i + 1][m] == x;
      assert r[m] == x && r[m] in r;
      assert WaitingListHelper.JoinKey(r[m]) <= WaitingListHelper.JoinKey(r[i]);
    }
    FilterAll(r[..i + 1], upTo);
  }

  /** Entries of the trip that joined exactly at `joinDate`. */
  function JoinedOn(tid: int, joinDate: int): WaitEntry -> bool
  {
    (e: WaitEntry) => e.tripId == tid && e.joinDate == joinDate
  }

  /** The caller's gallery position exists exactly when the caller has an entry for the
      trip. It is above the number of the trip's entries that joined strictly before the
      caller and at most the number that joined no later, which is the status page's
      position. SQL may rank entries with equal JoinDates either way; these bounds hold
      whichever it picks. */
  lemma RowNumberBounds(w: seq<WaitEntry>, nextId: int, tid: int, uid: int)
    requires WaitingValid(w, nextId)
    ensures RowNumber(w, tid, uid).Some? <==> MyJoinDate(w, tid, uid).Some?
    ensures RowNumber(w, tid, uid).Some? ==>
      && Count(w, JoinedBefore(tid, MyJoinDate(w, tid, uid).value)) < RowNumber(w, tid, uid).value
      && RowNumber(w, tid, uid).value <= Count(w, JoinedBy(tid, MyJoinDate(w, tid, uid).value))
  {
    var r := Ranked(w, tid);
    RankedFacts(w, tid);
    FirstIndexSpec(r, OfUser(uid));
    FirstIndexSpec(w, EntryOf(tid, uid));
    var g := FirstIndex(w, EntryOf(tid, uid));
    if g.Some? {
      var k := g.value;
      assert w[k] in r;
      var j :| 0 <= j < |r| && r[j] == w[k];
      assert OfUser(uid)(r[j]);
    }
    var f := FirstIndex(r, OfUser(uid));
    if f.Some? {
      var i := f.value;
      assert r[i] in r;
      var m :| 0 <= m < |w| && w[m] == r[i];
      assert EntryOf(tid, uid)(w[m]);
      var k := g.value;
      assert WaitPair(w[k]) == WaitPair(w[m]);
      assert k == m;
      var jd := r[i].joinDate;
      RankLowerBound(r, tid, i);
      RankUpperBound(r, tid, i);
      RankedCount(w, tid, JoinedBefore(tid, jd));
      RankedCount(w, tid, JoinedBy(tid, jd));
    }
  }

  /** When no two entries of the trip share a JoinDate, the gallery shows the caller the
      same position as the status page. */
  lemma PositionsAgree(w: seq<WaitEntry>, nextId: int, tid: int, uid: int, now: int)
    requires WaitingValid(w, nextId)
    requires forall i, j | 0 <= i < j < |w| && w[i].tripId == tid && w[j].tripId == tid :: w[i].joinDate != w[j].joinDate
    ensures MyPosition(w, Some(uid), tid) == Status(w, Some(uid), tid, now).value.position
  {
    RowNumberBounds(w, nextId, tid, uid);
    StatusPositionValue(w, tid, uid, now);
    var jd := MyJoinDate(w, tid, uid);
    if jd.Some? {
      NoTies(w, tid, jd.value);
    }
  }

  /** Without shared JoinDates, one entry at most joined exactly at any instant. */
  lemma NoTies(w: seq<WaitEntry>, tid: int, jd: int)
    requires forall i, j | 0 <= i < j < |w| && w[i].tripId == tid && w[j].tripId == tid :: w[i].joinDate != w[j].joinDate
    ensures Count(w, JoinedBy(tid, jd)) <= Count(w, JoinedBefore(tid, jd)) + 1
  {
    CountAtMostOne(w, JoinedOn(tid, jd));
    CountUnion(w, JoinedBy(tid, jd), JoinedBefore(tid, jd), JoinedOn(tid, jd));
  }

  /** The flags of a card as the gallery builds it: "in the waiting list" holds exactly
      when the caller is logged in and has an entry for the trip, "my turn" only when
      none of the trip's entries joined strictly before the caller's, and a visitor who
      is not logged in sees neither. */
  lemma CardFlags(w: seq<WaitEntry>, nextId: int, user: Option<int>, t: Trip, c: nat)
    requires WaitingValid(w, nextId)
    ensures GalleryItem(t, c, MyPosition(w, user, t.id)).IAmInWaitingList() <==>
      user.Some? && exists e | e in w :: e.tripId == t.id && e.userId == user.value
    ensures user.Some? && GalleryItem(t, c, MyPosition(w, user, t.id)).IsMyTurn() ==>
      && MyJoinDate(w, t.id, user.value).Some?
      && forall e | e in w && e.tripId == t.id :: MyJoinDate(w, t.id, user.value).value <= e.joinDate
    ensures user.None? ==>
      !GalleryItem(t, c, MyPosition(w, user, t.id)).IAmInWaitingList() &&
      !GalleryItem(t, c, MyPosition(w, user, t.id)).IsMyTurn()
  {
    if user.Some? {
      var uid := user.value;
      RowNumberBounds(w, nextId, t.id, uid);
      FirstIndexSpec(w, EntryOf(t.id, uid));
      if e :| e in w && e.tripId == t.id && e.userId == uid {
        var k :| 0 <= k < |w| && w[k] == e;
        assert EntryOf(t.id, uid)(w[k]);
      }
      if RowNumber(w, t.id, uid) == Some(1) {
        var jd := MyJoinDate(w, t.id, uid).value;
        CountPositive(w, JoinedBefore(t.id, jd));
        forall e | e in w && e.tripId == t.id ensures jd <= e.joinDate {
          var k :| 0 <= k < |w| && w[k] == e;
          assert !JoinedBefore(t.id, jd)(w[k]);
        }
      }
    }
  }
}
