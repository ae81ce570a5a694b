/** Paying for a booking: the checks and the amount of a payment intent (CreateIntent),
    and the confirmation that records the payment in the ledger and marks the booking
    paid (Confirm). The payment provider is outside the model: whether it is configured
    and the status it reports for an intent are inputs. */
module PaymentController {
  import opened Relational
  import opened Schema
  import TripModel

  /** The smallest charge the action lets through, in agorot. */
  const MIN_AMOUNT := 50

  /** Math.Round(x, MidpointRounding.AwayFromZero): the nearest integer, a half going
      away from zero. */
  function RoundHalfAway(x: real): (r: int)
    ensures x >= 0.0 ==> x - 0.5 < r as real <= x + 0.5
    ensures x < 0.0 ==> x - 0.5 <= r as real < x + 0.5
  {
    if x >= 0.0 then (x + 0.5).Floor else -((-x + 0.5).Floor)
  }

  /** The charge sent to the provider, in agorot: price x quantity x 100, rounded. */
  function IntentAmount(price: real, qty: int): int
  {
    RoundHalfAway(price * qty as real * 100.0)
  }

  /** The amount the ledger records for a booking: price x quantity, unrounded. */
  function ChargeOf(t: Trip, b: Booking): real
  {
    t.price * b.quantity as real
  }

  // ----- CreateIntent -----

  datatype IntentOutcome =
    | IntentNeedsLogin
    | StripeNotConfigured
    | IntentBookingNotFound
    | AlreadyPaid
    | InvalidPrice
    | InvalidQuantity
    | BelowMinimum
    | IntentCreated(amount: int)

  /** CreateIntent's answer. It only reads: no table changes on any path. */
  function CreateIntent(ts: seq<Trip>, bs: seq<Booking>, user: Option<int>, configured: bool, bid: int): (r: IntentOutcome)
    ensures r.IntentCreated? ==>
      && user.Some? && configured && r.amount >= MIN_AMOUNT
      && exists i | 0 <= i < |bs| ::
           && OwnActive(bid, user.value)(bs[i]) && !bs[i].isPaid && bs[i].quantity >= 1
           && FindTrip(ts, bs[i].tripId).Some? && FindTrip(ts, bs[i].tripId).value.price > 0.0
           && r.amount == IntentAmount(FindTrip(ts, bs[i].tripId).value.price, bs[i].quantity)
  {
    if user.None? then IntentNeedsLogin
    else if !configured then StripeNotConfigured
    else match OwnActiveRow(ts, bs, bid, user.value)
      case None => IntentBookingNotFound
      case Some((i, t)) =>
        if bs[i].isPaid then AlreadyPaid
        else if t.price <= 0.0 then InvalidPrice
        else if bs[i].quantity < 1 then InvalidQuantity
        else if IntentAmount(t.price, bs[i].quantity) < MIN_AMOUNT then BelowMinimum
        else IntentCreated(IntentAmount(t.price, bs[i].quantity))
  }

  /** Rounding half away from zero picks the one integer within a half of x, the upper
      one on a tie for x >= 0, the lower one on a tie for x < 0; and it is symmetric. */
  lemma RoundHalfAwayIsNearest(x: real, n: int)
    ensures x >= 0.0 && x - 0.5 < n as real <= x + 0.5 ==> n == RoundHalfAway(x)
    ensures x < 0.0 && x - 0.5 <= n as real < x + 0.5 ==> n == RoundHalfAway(x)
    ensures RoundHalfAway(-x) == -RoundHalfAway(x) || x == 0.0
  {
  }

  /** A positive charge reaches the minimum exactly when price x quantity x 100 is at
      least 49.5. */
  lemma MinimumThreshold(x: real)
    requires x >= 0.0
    ensures RoundHalfAway(x) >= MIN_AMOUNT <==> x >= 49.5
  {
  }

  /** CreateIntent opens an intent exactly for the caller's unpaid Active booking on an
      existing trip with a positive price, a quantity of at least 1 and a charge of at
      least the minimum; the amount is within half an agora of price x quantity x 100. */
  lemma CreateIntentMeans(ts: seq<Trip>, bs: seq<Booking>, uid: int, bid: int)
    requires DistinctBy(bs, BookingKey)
    ensures var r := CreateIntent(ts, bs, Some(uid), true, bid);
      r.IntentCreated? <==>
        exists i | 0 <= i < |bs| :: && OwnActive(bid, uid)(bs[i]) && !bs[i].isPaid
          && FindTrip(ts, bs[i].tripId).Some? && FindTrip(ts, bs[i].tripId).value.price > 0.0
          && bs[i].quantity >= 1
          && FindTrip(ts, bs[i].tripId).value.price * bs[i].quantity as real * 100.0 >= 49.5
    ensures var r := CreateIntent(ts, bs, Some(uid), true, bid);
      r.IntentCreated? ==>
        && r.amount >= MIN_AMOUNT
        && exists i | 0 <= i < |bs| :: (
             && OwnActive(bid, uid)(bs[i]) && FindTrip(ts, bs[i].tripId).Some?
             && var x := ChargeOf(FindTrip(ts, bs[i].tripId).value, bs[i]) * 100.0;
                x - 0.5 < r.amount as real <= x + 0.5)
    ensures CreateIntent(ts, bs, Some(uid), true, bid) == IntentBookingNotFound <==>
      forall i | 0 <= i < |bs| && OwnActive(bid, uid)(bs[i]) :: FindTrip(ts, bs[i].tripId).None?
  {
    OwnActiveUnique(bs, bid, uid);
    match OwnActiveRow(ts, bs, bid, uid)
    case None =>
    case Some((i, t)) =>
      assert OwnActive(bid, uid)(bs[i]) && FindTrip(ts, bs[i].tripId) == Some(t);
      if !bs[i].isPaid && t.price > 0.0 && bs[i].quantity >= 1 {
        assert t.price * bs[i].quantity as real >= 0.0;
        MinimumThreshold(t.price * bs[i].quantity as real * 100.0);
      }
  }

  // ----- Confirm -----

  datatype ConfirmOutcome =
    | ConfirmNeedsLogin
    | MissingIntentId
    | ConfirmStripeNotConfigured
    | PaymentNotCompleted
    | ConfirmBookingNotFound
    | AlreadyRecorded     // reported as success, nothing written
    | PaymentRecorded     // reported as success after the ledger write

  /** Ordinal case folding, for the ASCII letters. */
  function FoldCase(c: char): char
  {
    if 'A' <= c <= 'Z' then (c as int + 32) as char else c
  }

  /** String.Equals(a, b, StringComparison.OrdinalIgnoreCase) */
  predicate EqualsIgnoreCase(a: string, b: string)
  {
    |a| == |b| && forall i | 0 <= i < |a| :: FoldCase(a[i]) == FoldCase(b[i])
  }

  /** The intent status the provider reports once a payment has gone through. */
  const SUCCEEDED := "succeeded"

  /** What Confirm answers. `intentId` is the posted intent id (None when absent);
      `intentStatus` is the status the provider reports for it. */
  function ConfirmVerdict(ts: seq<Trip>, bs: seq<Booking>, user: Option<int>, intentId: Option<string>,
                          configured: bool, intentStatus: string, bid: int): (r: ConfirmOutcome)
    ensures r == PaymentRecorded || r == AlreadyRecorded ==>
      && user.Some? && intentId.Some? && !TripModel.IsBlank(intentId.value) && configured
      && EqualsIgnoreCase(intentStatus, SUCCEEDED)
      && exists i | 0 <= i < |bs| ::
           && OwnActive(bid, user.value)(bs[i]) && FindTrip(ts, bs[i].tripId).Some?
           && (r == PaymentRecorded <==> !bs[i].isPaid)
  {
    if user.None? then ConfirmNeedsLogin
    else if intentId.None? || TripModel.IsBlank(intentId.value) then MissingIntentId
    else if !configured then ConfirmStripeNotConfigured
    else if !EqualsIgnoreCase(intentStatus, SUCCEEDED) then PaymentNotCompleted
    else match OwnActiveRow(ts, bs, bid, user.value)
      case None => ConfirmBookingNotFound
      case Some((i, _)) => if bs[i].isPaid then AlreadyRecorded else PaymentRecorded
  }

  /** UPDATE Bookings SET IsPaid = 1, PaidAt = now WHERE BookingId = bid AND UserId = uid */
  function MarkPaid(bs: seq<Booking>, bid: int, uid: int, now: int): seq<Booking>
  {
    seq(|bs|, i requires 0 <= i < |bs| =>
      if bs[i].id == bid && bs[i].userId == uid then bs[i].(isPaid := true, paidAt := Some(now)) else bs[i])
  }

  /** The two tables Confirm's transaction writes. */
  datatype Ledger = Ledger(bookings: seq<Booking>, payments: seq<Payment>)

  /** The transaction of Confirm, once the request has passed the checks before it: the
      caller's unpaid Active booking gets one 'Success' payment of its charge and is
      marked paid; an already-paid or missing booking leaves both tables as they are. */
  function Confirmed(ts: seq<Trip>, l: Ledger, bid: int, uid: int, now: int): Ledger
  {
    match OwnActiveRow(ts, l.bookings, bid, uid)
    case None => l
    case Some((i, t)) =>
      if l.bookings[i].isPaid then l
      else Ledger(MarkPaid(l.bookings, bid, uid, now), l.payments + [Payment(bid, ChargeOf(t, l.bookings[i]), Success)])
  }

  /** The payment confirmation e-mail, sent to the booking's user when that user is
      registered; a send that fails is swallowed. */
  function PaymentMail(us: seq<User>, bid: int, uid: int, undeliverable: set<int>): seq<Mail>
  {
    if UserExists(us, uid) && uid !in undeliverable then [Mail(uid, PaymentConfirmation(bid))] else []
  }

  /** Payments rows recording a successful charge of a booking. */
  function SuccessFor(bid: int): Payment -> bool
  {
    (p: Payment) => p.bookingId == bid && p.status == Success
  }

  /** Confirm. Only PaymentRecorded writes: the ledger as Confirmed says, then the mail. */
  method Confirm(db: Database, user: Option<int>, bid: int, intentId: Option<string>, configured: bool,
                 intentStatus: string, now: int, undeliverable: set<int>) returns (r: ConfirmOutcome)
    requires db.Valid()
    modifies db`bookings, db`payments, db`outbox
    ensures db.Valid()
    ensures r == ConfirmVerdict(db.trips, old(db.bookings), user, intentId, configured, intentStatus, bid)
    ensures r != PaymentRecorded ==>
      db.bookings == old(db.bookings) && db.payments == old(db.payments) && db.outbox == old(db.outbox)
    ensures r == PaymentRecorded ==>
      && Ledger(db.bookings, db.payments) == Confirmed(db.trips, Ledger(old(db.bookings), old(db.payments)), bid, user.value, now)
      && db.outbox == old(db.outbox) + PaymentMail(db.users, bid, user.value, undeliverable)
  {
    r := ConfirmVerdict(db.trips, db.bookings, user, intentId, configured, intentStatus, bid);
    if r == PaymentRecorded {
      var uid := user.value;
      var (i, t) := OwnActiveRow(db.trips, db.bookings, bid, uid).value;
      MarkPaidValid(db.bookings, db.nextBookingId, bid, uid, now);
      db.payments := db.payments + [Payment(bid, ChargeOf(t, db.bookings[i]), Success)];
      db.bookings := MarkPaid(db.bookings, bid, uid, now);
      db.outbox := db.outbox + PaymentMail(db.users, bid, uid, undeliverable);
    }
  }

  /** Marking a booking paid keeps the Bookings invariants: paid rows carry PaidAt. */
  lemma MarkPaidValid(bs: seq<Booking>, nextId: int, bid: int, uid: int, now: int)
    requires BookingsValid(bs, nextId)
    ensures BookingsValid(MarkPaid(bs, bid, uid, now), nextId)
  {
    var r := MarkPaid(bs, bid, uid, now);
    assert forall k | 0 <= k < |r| :: (r[k].id == bs[k].id && r[k].userId == bs[k].userId
      && r[k].tripId == bs[k].tripId && r[k].status == bs[k].status && r[k].quantity == bs[k].quantity);
    forall x | x in r ensures 0 < x.id < nextId && x.quantity >= 1 && (x.isPaid <==> x.paidAt.Some?) {
      var k :| 0 <= k < |r| && r[k] == x;
      assert bs[k] in bs;
    }
  }

  /** Tables that agree row by row on status, trip and quantity hold the same rooms. */
  lemma {:induction false} ActiveQtyPointwise(a: seq<Booking>, b: seq<Booking>, tid: int)
    requires |a| == |b|
    requires forall k | 0 <= k < |a| ::
      a[k].status == b[k].status && a[k].tripId == b[k].tripId && a[k].quantity == b[k].quantity
    ensures ActiveQty(a, tid) == ActiveQty(b, tid)
  {
    if a != [] {
      var p := ActiveOn(tid);
      ActiveQtyPointwise(a[1..], b[1..], tid);
      var ha := if p(a[0]) then [a[0]] else [];
      var hb := if p(b[0]) then [b[0]] else [];
      SumQtyAppend(ha, Filter(a[1..], p));
      SumQtyAppend(hb, Filter(b[1..], p));
      SumQtySingle(a[0]);
      SumQtySingle(b[0]);
    }
  }

  /** Paying changes no trip's rooms: every trip keeps its free and its held rooms. */
  lemma ConfirmedKeepsCapacity(ts: seq<Trip>, l: Ledger, bid: int, uid: int, now: int, tid: int)
    ensures ActiveQty(Confirmed(ts, l, bid, uid, now).bookings, tid) == ActiveQty(l.bookings, tid)
    ensures Capacity(ts, Confirmed(ts, l, bid, uid, now).bookings, tid) == Capacity(ts, l.bookings, tid)
  {
    var m := MarkPaid(l.bookings, bid, uid, now);
    ActiveQtyPointwise(m, l.bookings, tid);
  }

  /** What Confirm's transaction writes: nothing unless the caller's Active booking is
      unpaid; then one 'Success' payment of exactly the booking's charge, and that booking
      becomes paid at `now` while every other booking stays as it was. */
  lemma ConfirmedMeans(ts: seq<Trip>, l: Ledger, nextId: int, bid: int, uid: int, now: int)
    requires BookingsValid(l.bookings, nextId)
    ensures var c := Confirmed(ts, l, bid, uid, now);
      c != l <==> exists i | 0 <= i < |l.bookings| ::
        OwnActive(bid, uid)(l.bookings[i]) && !l.bookings[i].isPaid && FindTrip(ts, l.bookings[i].tripId).Some?
    ensures var c := Confirmed(ts, l, bid, uid, now);
      c != l ==>
        && Count(c.payments, SuccessFor(bid)) == Count(l.payments, SuccessFor(bid)) + 1
        && |c.payments| == |l.payments| + 1
        && |c.bookings| == |l.bookings|
        && exists i | 0 <= i < |l.bookings| ::
          && OwnActive(bid, uid)(l.bookings[i])
          && c.payments[|l.payments|].amount == ChargeOf(FindTrip(ts, l.bookings[i].tripId).value, l.bookings[i])
          && c.bookings[i].isPaid && c.bookings[i].paidAt == Some(now)
          && forall k | 0 <= k < |l.bookings| && k != i :: c.bookings[k] == l.bookings[k]
  {
    OwnActiveUnique(l.bookings, bid, uid);
    var c := Confirmed(ts, l, bid, uid, now);
    match OwnActiveRow(ts, l.bookings, bid, uid)
    case None =>
    case Some((i, t)) =>
      if !l.bookings[i].isPaid {
        assert c.bookings[i].isPaid;
        assert c.bookings != l.bookings;
        CountAppend(l.payments, Payment(bid, ChargeOf(t, l.bookings[i]), Success), SuccessFor(bid));
        forall k | 0 <= k < |l.bookings| && k != i ensures c.bookings[k] == l.bookings[k] {
          assert BookingKey(l.bookings[k]) != BookingKey(l.bookings[i]);
        }
      }
  }

  /** Confirm is idempotent: once a payment is recorded, confirming again (at any later
      time) finds the booking paid, answers AlreadyRecorded and writes nothing, and
      CreateIntent refuses the booking as already paid. */
  lemma ConfirmIdempotent(ts: seq<Trip>, l: Ledger, nextId: int, user: Option<int>, intentId: Option<string>,
                          configured: bool, intentStatus: string, bid: int, now: int, later: int)
    requires BookingsValid(l.bookings, nextId)
    requires ConfirmVerdict(ts, l.bookings, user, intentId, configured, intentStatus, bid) == PaymentRecorded
    ensures var c := Confirmed(ts, l, bid, user.value, now);
      && ConfirmVerdict(ts, c.bookings, user, intentId, configured, intentStatus, bid) == AlreadyRecorded
      && Confirmed(ts, c, bid, user.value, later) == c
      && CreateIntent(ts, c.bookings, user, configured, bid) == AlreadyPaid
  {
    var uid := user.value;
    var m := MarkPaid(l.bookings, bid, uid, now);
    var (i, t) := OwnActiveRow(ts, l.bookings, bid, uid).value;
    FirstIndexPointwise(l.bookings, m, OwnActive(bid, uid));
    assert m[i].isPaid;
  }

  /** The intent and the ledger agree: when CreateIntent opens an intent and the provider
      then reports it succeeded, Confirm records the booking's charge, and the amount the
      intent asked for is that charge in agorot, rounded to the nearest agora. */
  lemma IntentMatchesLedger(ts: seq<Trip>, l: Ledger, nextId: int, uid: int, intentId: string,
                            bid: int, now: int, amount: int)
    requires BookingsValid(l.bookings, nextId)
    requires CreateIntent(ts, l.bookings, Some(uid), true, bid) == IntentCreated(amount)
    requires !TripModel.IsBlank(intentId)
    ensures ConfirmVerdict(ts, l.bookings, Some(uid), Some(intentId), true, SUCCEEDED, bid) == PaymentRecorded
    ensures var c := Confirmed(ts, l, bid, uid, now);
      && c.payments == l.payments + [c.payments[|l.payments|]]
      && var x := c.payments[|l.payments|].amount * 100.0;
         x - 0.5 < amount as real <= x + 0.5 && x > 0.0
  {
    var (i, t) := OwnActiveRow(ts, l.bookings, bid, uid).value;
    assert EqualsIgnoreCase(SUCCEEDED, SUCCEEDED);
    assert t.price * l.bookings[i].quantity as real * 100.0 == ChargeOf(t, l.bookings[i]) * 100.0;
    assert ChargeOf(t, l.bookings[i]) > 0.0;
  }
}
