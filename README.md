# TravelAgency booking core in Dafny

This project models the room inventory, booking and waiting-list state machine of
the TravelAgency web application. It also models the small validators and
authorisation rules that sit around that core.

The database is one object, `Schema.Database`. Each table is a field holding a
sequence of rows, and each controller action is a method on it:

- an UPDATE is a pointwise rewrite of the table;
- a DELETE is a `Filter`;
- an INSERT is an append;
- a `COUNT(*)` is `Count`;
- an `ORDER BY` is an insertion sort on the ordering key.

Each action's postcondition ties the new tables to a pure function of the old
ones. The lemmas beside each action prove what the application relies on:

- a trip's capacity (free rooms plus rooms held by Active bookings) never changes
  when booking or cancelling;
- a user holds at most one Active booking per trip;
- waiting-list offers go out in join order and never outnumber the free rooms;
- the queue position shown to a user is consistent;
- payment confirmation is idempotent;
- the amount of the intent CreateIntent opens for a booking agrees with the charge Confirm records for that booking;
- review authorisation follows the rules in the source.

Environment inputs are parameters:

- the clock is `now`, in seconds since 0001-01-01;
- the session's user is `user: Option<int>`, and admin rights are `isAdmin`;
- the payment provider's configuration and its intent status are inputs;
- mail that cannot be delivered is the set `undeliverable`;
- a fault partway through the waiting-list loop is `failAt`.

Files, one per source file of the core:

- `Relational.dfy`: WHERE, COUNT, ORDER BY, TOP and MIN over sequences, with their laws.
- `Schema.dfy`: rows, keys, WHERE predicates, invariants, and the `Database` class.
- `TripModel.dfy`: the data annotations of the Trip model and `DateGreaterThan`.
- `WaitingListHelper.dfy`: the offer round run after rooms are freed.
- `BookingController.dfy`: Start/BookNow (`Reserve`) and `Cancel`.
- `WaitingListController.dfy`: Join, Status and Leave.
- `TripsController.dfy`: the gallery (search, sort, waiting counts, my position) and details.
- `TripGalleryItemVM.dfy`: the gallery card's derived flags.
- `AdminController.dfy`: AddTrip, EditTrip, DeleteTrip, Discount, ToggleUserStatus, RemoveUser.
- `PaymentController.dfy`: CreateIntent and Confirm.
- `SiteReviewsController.dfy`: Add and Delete of site reviews.
- `ReviewsController.dfy`: Add and Delete of trip reviews.

## Model

| member | source | states |
|---|---|---|
| Relational.SortBySorted | TravelAgency/Controllers/TripsController.cs:34-45 | the ORDER BY result is in ascending key order |
| Relational.SortByPermutation | TravelAgency/Controllers/TripsController.cs:34-45 | the ORDER BY result holds exactly the rows of the table (same multiset) |
| Relational.Take | TravelAgency/Helpers/WaitingListHelper.cs:36-41 | TOP (n) yields the first min(n, size) rows, none for n <= 0 |
| Relational.MinOf | TravelAgency/Controllers/WaitingListController.cs:87-93 | MIN is NULL exactly on no rows; otherwise it is one of the values and no value is smaller |
| Relational.FirstIndexSpec | TravelAgency/Controllers/WaitingListController.cs:78-80 | the scalar subquery reads the first matching row; nothing is found only when no row matches |
| Schema.FindTrip | TravelAgency/Controllers/TripsController.cs:134-140 | a found trip is in the table with that id; not found means no trip has that id |
| Schema.OwnActiveUnique | TravelAgency/Controllers/BookingController.cs:576-601 | with unique booking ids, the caller's Active booking with that id is the only row the query can return |
| Schema.ActiveQtyUpdate | TravelAgency/Controllers/BookingController.cs:622-633 | rewriting one booking moves its trip's held rooms by exactly that row's old and new contribution |
| Schema.ActiveQtyAppend | TravelAgency/Controllers/BookingController.cs:164-178 | inserting an Active booking adds its quantity to its trip's held rooms, and to no other trip |
| TripModel.DateGreaterThan | TravelAgency/Models/Trip.cs:74-89 | an unknown property fails with "Unknown property: name"; a missing value on either side passes; otherwise it passes iff the value is strictly after the other, and fails with the attribute's message |
| TripModel.Failures | TravelAgency/Models/Trip.cs:10-57 | ModelState has no error iff every attribute passes, and holds at most one error per attribute |
| TripModel.CategoriesNotBlank | TravelAgency/Models/Trip.cs:42-46 | every category the pattern admits also passes Required and the 100-code-unit limit |
| TripModel.EndDateCheck | TravelAgency/Models/Trip.cs:26-29 | the end-date attribute passes iff the end date is after the start date |
| TripModel.ValidFormNames | TravelAgency/Models/Trip.cs:10-20 | a valid form has non-blank package name, destination and country of at most 200/150/100 UTF-16 code units |
| TripModel.ValidFormNumbers | TravelAgency/Models/Trip.cs:26-57 | a valid form has end after start, price and old price in -0.5..100000.5 (the Range rounds them half to even first), rooms in 0..500, min age in 0..120, cancellation days in 0..365 |
| TripModel.ValidFormText | TravelAgency/Models/Trip.cs:42-52 | a valid form has one of the five categories and a non-blank description (implicitly required) of at most 2000 code units |
| TripModel.ValidFormMeetsConstraints | TravelAgency/Models/Trip.cs:10-57 | ModelState validity implies every field constraint, lengths in UTF-16 code units and decimal ranges widened by the rounding |
| TripModel.ConstraintsMakeFormValid | TravelAgency/Models/Trip.cs:10-57 | a form meeting every field constraint (same measures) passes ModelState validation |
| TripModel.ModelStateValidMeans | TravelAgency/Models/Trip.cs:10-57 | ModelState validity iff all field constraints hold |
| TripModel.Utf16Length | TravelAgency/Models/Trip.cs:11-51 | String.Length counts a character outside the Basic Multilingual Plane twice: between one and two units per character |
| TripModel.Utf16Prefix | TravelAgency/Controllers/SiteReviewsController.cs:29 | the cut is a prefix of at most n code units, the longest one, and the whole string when it fits |
| TripModel.RoundHalfEven | TravelAgency/Models/Trip.cs:31-35 | Convert.ToInt32 of a decimal: within a half of it, and even on a tie |
| TripModel.DecimalRangeMeans | TravelAgency/Models/Trip.cs:31-35 | a decimal passes Range(lo, hi) with even bounds iff it lies in lo - 0.5 .. hi + 0.5 |
| TripModel.ValidFormRanges | TravelAgency/Models/Trip.cs:28-46 | a valid form has non-negative rooms, end after start and a known category |
| WaitingListHelper.MarkOffered | TravelAgency/Helpers/WaitingListHelper.cs:84-89 | the per-entry UPDATE keeps the number of rows |
| WaitingListHelper.ProcessTripWaitingList | TravelAgency/Helpers/WaitingListHelper.cs:9-123 | no selection (trip missing, no rooms, no free slot): nothing changes; otherwise the chosen entries are stamped and mailed in order, and the trip's list is dropped when none is left unnotified; a fault stops after the entries done so far |
| WaitingListHelper.NotifyAndDrain | TravelAgency/Helpers/WaitingListHelper.cs:82-115 | the offer loop followed by the drain of a settled trip, or only the completed prefix of the loop on a fault |
| WaitingListHelper.OfferEach | TravelAgency/Helpers/WaitingListHelper.cs:82-104 | each processed entry gets NotifiedAt = now and a 24-hour expiry, and one mail unless its send fails |
| WaitingListHelper.MarkOfferedTwice | TravelAgency/Helpers/WaitingListHelper.cs:82-89 | stamping entries one at a time is stamping the whole set |
| WaitingListHelper.MarkOfferedValid | TravelAgency/Helpers/WaitingListHelper.cs:84-89 | stamping keeps the list's keys and pairs notified-at with expiry |
| WaitingListHelper.FilterKeepsWaitingValid | TravelAgency/Helpers/WaitingListHelper.cs:112-114 | a DELETE from the list keeps its invariants |
| WaitingListHelper.Selection | TravelAgency/Helpers/WaitingListHelper.cs:16-51 | no offers for a missing trip; offers go only when the trip has rooms, and never more than the free slots (rooms minus live offers) or the candidates |
| WaitingListHelper.SelectionChoosesCandidates | TravelAgency/Helpers/WaitingListHelper.cs:16-51 | offers go only when the trip has rooms and free slots (rooms minus live offers); exactly min(free, candidates) unnotified entries of registered users on that trip are chosen |
| WaitingListHelper.OffersAreFifo | TravelAgency/Helpers/WaitingListHelper.cs:36-41 | no passed-over candidate joined earlier than an offered one |
| WaitingListHelper.OffersStamped | TravelAgency/Helpers/WaitingListHelper.cs:82-89 | chosen entries get NotifiedAt = now and ExpirationAt = now + 24 h; every other entry is untouched; trip, user and join date never change |
| WaitingListHelper.PromotionTouchesOnlyItsTrip | TravelAgency/Helpers/WaitingListHelper.cs:82-115 | the entries of other trips are exactly as before |
| WaitingListHelper.PromotionDrainsSettledTrip | TravelAgency/Helpers/WaitingListHelper.cs:106-115 | with no unnotified entry left the trip's list is emptied, otherwise kept; a non-empty list always keeps someone unnotified |
| WaitingListHelper.PromotionKeepsOffersWithinRooms | TravelAgency/Helpers/WaitingListHelper.cs:22-41 | after the round, the live offers on the trip never exceed its available rooms |
| BookingController.AdmissionMeans | TravelAgency/Controllers/BookingController.cs:25-132 | a reservation is admitted iff: under 3 counted Active bookings; the trip exists; the age rule holds; 0 < rooms and qty <= rooms; and the waiting-list gate is open. Each refusal names a failed check |
| BookingController.Admission | TravelAgency/Controllers/BookingController.cs:25-132 | an admitted request names the existing trip, has fewer than 3 counted Active bookings, meets the age rule and fits in the trip's positive room count |
| BookingController.AdmittedTrip | TravelAgency/Controllers/BookingController.cs:63-104 | an admitted request names an existing trip with at least qty rooms |
| BookingController.AdjustRoomsEffect | TravelAgency/Controllers/BookingController.cs:180-189 | the trip's rooms move by delta and every other trip's rooms stay |
| BookingController.Reserve | TravelAgency/Controllers/BookingController.cs:18-235 | Start and BookNow: qty below 1 counts as 1; a refusal changes nothing; an admission upserts the booking, takes the rooms, removes the user's waiting entry and mails a confirmation, and the returned booking id (BookNow's redirect to Pay) is the pair's Active booking |
| BookingController.ApplyBooking | TravelAgency/Controllers/BookingController.cs:134-208 | the transaction's four writes, keeping every invariant; the booking id it returns names the Active booking of that user and trip |
| BookingController.SaveBooking | TravelAgency/Controllers/BookingController.cs:134-178 | an Active booking of the pair grows, otherwise a new one is inserted with a fresh id; the returned id is the pair's Active booking |
| BookingController.UpsertHeldRooms | TravelAgency/Controllers/BookingController.cs:134-178 | the upsert adds qty to that trip's held rooms and nothing to any other trip |
| BookingController.ReserveKeepsCapacity | TravelAgency/Controllers/BookingController.cs:134-189 | booking keeps every trip's free plus held rooms |
| BookingController.UpsertKeepsOneActivePerPair | TravelAgency/Controllers/BookingController.cs:134-178 | after the upsert the pair has exactly one Active booking and the bookings invariant holds |
| BookingController.GrowBookingValid | TravelAgency/Controllers/BookingController.cs:152-163 | growing the existing booking keeps the invariant and one Active booking of the pair |
| BookingController.NewBookingValid | TravelAgency/Controllers/BookingController.cs:164-178 | inserting when the pair has none keeps the invariant and gives the pair one Active booking |
| BookingController.AdjustRoomsValid | TravelAgency/Controllers/BookingController.cs:180-189 | the rooms UPDATE keeps rooms non-negative when the result is |
| BookingController.AdmittedKeepsInvariants | TravelAgency/Controllers/BookingController.cs:100-189 | an admitted booking leaves rooms non-negative and the bookings invariant intact |
| BookingController.CancelRow | TravelAgency/Controllers/BookingController.cs:622-645 | the cancelled row keeps id, user, trip and quantity, is Cancelled and unpaid, and loses PaidAt only if it was paid |
| BookingController.CancelVerdict | TravelAgency/Controllers/BookingController.cs:576-620 | any answer but not-found means the caller has that Active booking on an existing trip; it cancels iff the trip's cancellation window is still open |
| BookingController.CancelVerdictMeans | TravelAgency/Controllers/BookingController.cs:576-620 | cancel goes ahead iff the caller has that Active booking on an existing trip outside its cancellation window; not found iff no such booking joins a trip |
| BookingController.Cancel | TravelAgency/Controllers/BookingController.cs:563-690 | a refusal changes nothing; a cancellation cancels the row, refunds a paid booking, returns the rooms, then runs the offer round for the trip |
| BookingController.PromoteWaitingList | TravelAgency/Controllers/BookingController.cs:680-681 | the offer round after the commit, fault-free |
| BookingController.WithdrawBooking | TravelAgency/Controllers/BookingController.cs:622-676 | the cancellation's writes, keeping every invariant |
| BookingController.RoomsReturned | TravelAgency/Controllers/BookingController.cs:668-676 | the trip's rooms grow by the booking's quantity and no other trip changes |
| BookingController.RoomsReleased | TravelAgency/Controllers/BookingController.cs:622-633 | the trip's held rooms shrink by the booking's quantity and no other trip changes |
| BookingController.CancelKeepsCapacity | TravelAgency/Controllers/BookingController.cs:622-676 | cancelling keeps every trip's free plus held rooms |
| BookingController.CancelKeepsInvariants | TravelAgency/Controllers/BookingController.cs:622-676 | after cancelling, rooms stay non-negative, the invariant holds and the pair has no Active booking |
| WaitingListController.Join | TravelAgency/Controllers/WaitingListController.cs:23-50 | a signed-out user is redirected; a user already on the trip's list gets the error and nothing changes; otherwise one entry joined now is appended |
| WaitingListController.JoinKeepsWaitingValid | TravelAgency/Controllers/WaitingListController.cs:36-39 | appending a new pair keeps the list's unique keys |
| WaitingListController.JoinAddsOneEntry | TravelAgency/Controllers/WaitingListController.cs:36-45 | after a join the user has exactly one entry, the trip's count grows by one, other trips' counts stay, and joining again is refused |
| WaitingListController.Leave | TravelAgency/Controllers/WaitingListController.cs:106-125 | a signed-in user's entries on the trip are deleted, nothing else |
| WaitingListController.LeaveRemovesOnlyThatEntry | TravelAgency/Controllers/WaitingListController.cs:117-120 | afterwards the user has no entry; every other entry stays; at most one row goes |
| WaitingListController.LeaveIdempotent | TravelAgency/Controllers/WaitingListController.cs:117-120 | leaving twice is leaving once |
| WaitingListController.ExpiriesMembers | TravelAgency/Controllers/WaitingListController.cs:87-90 | the expiries are exactly the non-null ExpirationAt values |
| WaitingListController.EtaIsEarliestLiveExpiry | TravelAgency/Controllers/WaitingListController.cs:87-93 | the estimate is absent iff no live offer exists; otherwise it is a live offer's expiry, in the future, and none is earlier |
| WaitingListController.Status | TravelAgency/Controllers/WaitingListController.cs:52-101 | a signed-out caller is redirected; otherwise the page shows the trip's entry count, 'in waiting list' iff the caller has an entry on the trip, and a position only for a caller in the list, at least 1 |
| WaitingListController.StatusPosition | TravelAgency/Controllers/WaitingListController.cs:63-85 | a position is shown iff the user waits; it lies in 1..waitingCount; it is 1 iff nobody else joined at or before the user |
| WaitingListController.FirstInLine | TravelAgency/Controllers/WaitingListController.cs:75-84 | the count of entries joined at or before an entry is 1 iff only that entry qualifies |
| WaitingListController.StatusPositionValue | TravelAgency/Controllers/WaitingListController.cs:72-85 | the shown position is the count of the trip's entries joined no later than the user |
| TripGalleryItemVM.GalleryItem.IsMyTurn | TravelAgency/ViewModel/TripGalleryItemVM.cs:10-11 | it can only be the user's turn when the user is in the waiting list |
| TripsController.Details | TravelAgency/Controllers/TripsController.cs:128-161 | NotFound iff no trip has the id; otherwise that trip's row |
| TripsController.Gallery | TravelAgency/Controllers/TripsController.cs:17-125 | one card per trip matching the search and category, and every card's trip is such a trip |
| TripsController.OrderedPermutation | TravelAgency/Controllers/TripsController.cs:34-45 | every sort option only reorders the trips |
| TripsController.GalleryShowsMatchingTrips | TravelAgency/Controllers/TripsController.cs:23-79 | the cards show exactly the trips matching the search and category, each as often as in the table |
| TripsController.GalleryOrder | TravelAgency/Controllers/TripsController.cs:34-45 | price_asc sorts by price up, price_desc down, date by start date; any other value keeps the model's table order, where SQL promises none |
| TripsController.WaitingCountIsCount | TravelAgency/Controllers/TripsController.cs:81-92 | the GROUP BY count of a trip, 0 when absent, is the number of its waiting entries |
| TripsController.GalleryCounts | TravelAgency/Controllers/TripsController.cs:113-119 | each card carries its trip's waiting count and, for a signed-in caller, the caller's ROW_NUMBER in that trip's queue (MyPosition, bounded by RowNumberBounds); a visitor's card has none |
| TripsController.RankedFacts | TravelAgency/Controllers/TripsController.cs:100-103 | the partition is the trip's entries ordered by join date |
| TripsController.RankedCount | TravelAgency/Controllers/TripsController.cs:100-103 | ordering the partition changes no count |
| TripsController.RankLowerBound | TravelAgency/Controllers/TripsController.cs:100-103 | a row number exceeds the count of entries joined strictly earlier |
| TripsController.RankUpperBound | TravelAgency/Controllers/TripsController.cs:100-103 | a row number is at most the count of entries joined no later |
| TripsController.RowNumberBounds | TravelAgency/Controllers/TripsController.cs:94-111 | a position exists iff the user waits on the trip; earlier joiners < position <= joiners up to the user's join date |
| TripsController.PositionsAgree | TravelAgency/Controllers/TripsController.cs:94-111 | with distinct join dates, the gallery's ROW_NUMBER equals the Status page's position |
| TripsController.NoTies | TravelAgency/Controllers/TripsController.cs:100-103 | with distinct join dates, at most one entry joins at any instant |
| TripsController.CardFlags | TravelAgency/ViewModel/TripGalleryItemVM.cs:10-11 | "in waiting list" iff signed in with an entry on the trip; "my turn" means nobody on the trip joined earlier; signed out shows neither |
| AdminController.UpdateTripFind | TravelAgency/Controllers/AdminController.cs:228-252 | the trip UPDATE changes what that id finds by the edit and nothing else |
| AdminController.UpdateTripValid | TravelAgency/Controllers/AdminController.cs:228-252 | an UPDATE keeping ids and non-negative rooms keeps the trip invariant |
| AdminController.ValidFormWritable | TravelAgency/Controllers/AdminController.cs:73-77 | a form that passes validation has every non-null column the INSERT needs |
| AdminController.AddTrip | TravelAgency/Controllers/AdminController.cs:68-137 | only an admin with a valid form and storable dates inserts, and exactly one trip with a fresh id |
| AdminController.InsertKeepsTripsValid | TravelAgency/Controllers/AdminController.cs:117-137 | inserting with the next id keeps trip ids unique |
| AdminController.AddedTripIsWellFormed | TravelAgency/Controllers/AdminController.cs:73-93 | an added trip starts no earlier than 1753-01-01, ends after it starts, has 0..500 rooms and a known category |
| AdminController.EndCheckIsRedundant | TravelAgency/Controllers/AdminController.cs:89-93 | the explicit end-after-start check never fires after validation |
| AdminController.EditTrip | TravelAgency/Controllers/AdminController.cs:208-278 | a refused or failing edit (a missing trip, or a start or end date before 1753-01-01, which SQL datetime cannot store) changes nothing; an edit rewrites the trip and mails the first waiting user when rooms grew |
| AdminController.EditTripMeans | TravelAgency/Controllers/AdminController.cs:208-252 | an edit is written iff an admin submits a valid form with storable dates (neither unset nor before 1753-01-01) for an existing trip; the trip then has the form's rooms and dates, start before end |
| AdminController.SaveEdit | TravelAgency/Controllers/AdminController.cs:228-277 | the trip UPDATE and the seat mail |
| AdminController.EditSetsRooms | TravelAgency/Controllers/AdminController.cs:228-252 | the edited trip has the form's rooms and every other trip keeps its rooms |
| AdminController.SeatMailTarget | TravelAgency/Controllers/AdminController.cs:254-277 | at most one mail, none unless rooms grew, and it goes to the earliest registered waiting user |
| AdminController.DeleteTrip | TravelAgency/Controllers/AdminController.cs:285-314 | an admin deletes a trip with no bookings together with its images and waiting entries; otherwise nothing changes |
| AdminController.DeleteTripOnlyUnbooked | TravelAgency/Controllers/AdminController.cs:294-300 | deletion happens iff the caller is admin and no booking of any status names the trip |
| AdminController.DeleteTripRemoves | TravelAgency/Controllers/AdminController.cs:302-310 | afterwards the trip, its waiting entries and its images are gone |
| AdminController.DeleteTripKeepsOthers | TravelAgency/Controllers/AdminController.cs:302-310 | other trips and their waiting counts are unchanged |
| AdminController.Discount | TravelAgency/Controllers/AdminController.cs:328-356 | an admin with an end date at most 7 days out and not before 1753-01-01 discounts the trip; otherwise nothing changes |
| AdminController.DiscountAppliedMeans | TravelAgency/Controllers/AdminController.cs:328-356 | a discount is written iff an admin gives an end date between 1753-01-01 and now + 7 days; an earlier end date, an unset one among them, fails |
| AdminController.DiscountsKeepOriginalPrice | TravelAgency/Controllers/AdminController.cs:341-350 | after any series of discounts OldPrice holds the price before the first one, the price and end date are the last discount's, and no other column changes |
| AdminController.DiscountKeepsRooms | TravelAgency/Controllers/AdminController.cs:341-350 | a discount changes no trip's rooms |
| AdminController.UpdateUserStatusKeys | TravelAgency/Controllers/AdminController.cs:489-492 | status updates keep user ids unique |
| AdminController.ToggleUserStatus | TravelAgency/Controllers/AdminController.cs:481-500 | an admin flips Active and Blocked for that user; others change nothing |
| AdminController.ToggleTwice | TravelAgency/Controllers/AdminController.cs:489-492 | the toggle blocks exactly an Active user, and toggling twice restores exactly Active and Blocked |
| AdminController.RemoveUser | TravelAgency/Controllers/AdminController.cs:506-538 | an admin blocks a user with bookings and deletes one without; others change nothing |
| AdminController.RemoveUserEffect | TravelAgency/Controllers/AdminController.cs:515-533 | blocking happens iff some booking names the user; the user ends Blocked or gone; other users stay |
| PaymentController.RoundHalfAway | TravelAgency/Controllers/PaymentController.cs:80 | the result is within a half of x, ties going away from zero |
| PaymentController.CreateIntent | TravelAgency/Controllers/PaymentController.cs:33-101 | an intent is opened only for a signed-in caller with the provider configured, on the caller's unpaid Active booking with quantity >= 1 on a trip priced above 0; its amount is price x qty x 100 rounded, and at least 50 |
| PaymentController.RoundHalfAwayIsNearest | TravelAgency/Controllers/PaymentController.cs:80 | that integer is unique, and rounding is symmetric about zero |
| PaymentController.MinimumThreshold | TravelAgency/Controllers/PaymentController.cs:80-82 | a charge meets the 50-agora minimum iff price x qty x 100 >= 49.5 |
| PaymentController.CreateIntentMeans | TravelAgency/Controllers/PaymentController.cs:33-101 | an intent is created iff the caller's unpaid Active booking joins a trip with price > 0, qty >= 1 and price x qty x 100 >= 49.5; its amount is >= 50 and within half an agora of price x qty x 100; not found iff no such booking joins a trip |
| PaymentController.ConfirmVerdict | TravelAgency/Controllers/PaymentController.cs:105-161 | success (recorded or already recorded) needs a signed-in caller, a non-blank intent id, the provider configured and a 'succeeded' status, and the caller's Active booking on an existing trip; it records a payment iff that booking is unpaid |
| PaymentController.Confirm | TravelAgency/Controllers/PaymentController.cs:105-208 | only a recorded payment writes: the ledger transaction, then the payment mail; every other answer changes nothing |
| PaymentController.MarkPaidValid | TravelAgency/Controllers/PaymentController.cs:174-180 | marking paid keeps the bookings invariant, including IsPaid iff PaidAt |
| PaymentController.ActiveQtyPointwise | TravelAgency/Controllers/PaymentController.cs:174-180 | tables agreeing on status, trip and quantity hold the same rooms |
| PaymentController.ConfirmedKeepsCapacity | TravelAgency/Controllers/PaymentController.cs:163-182 | paying changes no trip's free or held rooms |
| PaymentController.ConfirmedMeans | TravelAgency/Controllers/PaymentController.cs:132-182 | the ledger changes iff the caller's Active booking is unpaid and joins a trip; then exactly one 'Success' payment of price x qty is added, that booking becomes paid at now, and no other booking changes |
| PaymentController.ConfirmIdempotent | TravelAgency/Controllers/PaymentController.cs:157-161 | after a recorded payment a second confirm answers success, writes nothing, and CreateIntent refuses the booking as paid |
| PaymentController.IntentMatchesLedger | TravelAgency/Controllers/PaymentController.cs:80-171 | for one booking, the amount of the intent CreateIntent opens is that booking's positive ledger charge x 100, rounded to the nearest agora, and a succeeded confirm for that booking records that charge |
| SiteReviewsController.Add | TravelAgency/Controllers/SiteReviewsController.cs:18-44 | signed-out or rating outside 1..5 inserts nothing; otherwise one review with the comment cut to 500 code units (NULL when blank) and a fresh id |
| SiteReviewsController.AddedKeepsValid | TravelAgency/Controllers/SiteReviewsController.cs:34-41 | the insert keeps review ids unique |
| SiteReviewsController.StoredCommentMeans | TravelAgency/Controllers/SiteReviewsController.cs:28-39 | a stored comment is a non-blank prefix of at most 500 code units, and a cut one is the longest that fits; NULL iff the comment is null or its first 500 code units are blank; a short non-blank comment is stored as posted |
| SiteReviewsController.StoredCommentIdempotent | TravelAgency/Controllers/SiteReviewsController.cs:28-39 | normalising twice is normalising once |
| SiteReviewsController.Delete | TravelAgency/Controllers/SiteReviewsController.cs:79-109 | only an allowed delete removes the review with that id; every other answer changes nothing |
| SiteReviewsController.DeleteKeepsValid | TravelAgency/Controllers/SiteReviewsController.cs:104-106 | the delete keeps review ids unique |
| SiteReviewsController.DeleteAuthorised | TravelAgency/Controllers/SiteReviewsController.cs:81-106 | delete iff signed in, the review exists, and the caller is Admin or its author; not found iff no such id; it removes exactly that one review and keeps every other |
| ReviewsController.Add | TravelAgency/Controllers/ReviewsController.cs:19-55 | signed-out or unbooked inserts nothing; otherwise one review with the rating and comment as posted |
| ReviewsController.AddedKeepsValid | TravelAgency/Controllers/ReviewsController.cs:43-50 | the insert keeps review ids unique |
| ReviewsController.AddMeans | TravelAgency/Controllers/ReviewsController.cs:29-50 | a review is added iff the signed-in user has an Active booking on the trip; that user's reviews of the trip grow by one, all other counts stay, the rating is stored unchecked |
| ReviewsController.Delete | TravelAgency/Controllers/ReviewsController.cs:58-69 | a non-admin changes nothing; an admin deletes the rows with that id |
| ReviewsController.DeleteKeepsValid | TravelAgency/Controllers/ReviewsController.cs:66-68 | the delete keeps review ids unique |
| ReviewsController.DeleteRemovesOnlyIt | TravelAgency/Controllers/ReviewsController.cs:66-68 | the delete removes exactly the review with that id, if any, and keeps every other |

## Left out

- Concurrency: the row locks (UPDLOCK) and transaction isolation. Each action is modelled as running alone and atomically.
- Mail transport: a message is a row appended to `outbox`. A recipient in `undeliverable` stands for a send that throws and is swallowed. Mail bodies and addresses are not modelled, and every registered user is assumed to have a non-empty address.
- The payment provider (intent creation and retrieval): its configuration and the intent status are inputs. A retrieval that throws is not modelled.
- PaymentController.EqualsIgnoreCase: folds only the ASCII letters, because the provider's statuses are ASCII. The source folds every letter that has an upper-case form.
- PaymentController.Confirm: the payment intent is reduced to its status. The source (PaymentController.cs:119-123) checks neither the intent's amount nor the bookingId and userId metadata set at PaymentController.cs:93-97 against the booking, so any succeeded intent confirms any of the caller's unpaid Active bookings. IntentMatchesLedger holds only for the intent CreateIntent opened for that booking.
- Database faults other than the modelled ones (the duplicate waiting-list pair in Join, a missing trip in EditTrip, a date before 1753-01-01 in EditTrip or Discount, and a fault partway through the offer round). Cancel's offer round and the booking mails are modelled fault-free; a fault in the offer round is modelled in `WaitingListHelper.ProcessTripWaitingList` alone.
- No foreign keys are assumed. A booking or review may name a missing trip or user, as the schema text does not show such constraints.
- Image upload and the TripImages inserts of AddTrip (file system). DeleteTrip's removal of image rows is modelled.
- PackageName, ImagePath and IsHidden are not stored in the Trip row, because no modelled rule reads them.
- PDF itineraries, the reminder background service and SendDepartureReminders (a timer loop and mail), the listing pages (MyBookings, PastTrips, the admin lists, the site-review list) and AddUser are not modelled.
- Authentication plumbing: the session is reduced to `user`, `isAdmin` and the site-review role.
- TripsController.GalleryShowsMatchingTrips: LIKE is modelled as plain substring and equality tests. Its wildcards (`%`, `_`, `[`) inside the search text, and the database collation's case-insensitivity, are not.
- SQL's order among rows with equal ORDER BY keys is unspecified. The model picks one order, and its lemmas state only facts that hold for every tie order; PositionsAgree assumes distinct join dates.
- Decimal prices are `real`. Decimal's 28-digit precision and the `long` range of the intent amount are not modelled; 32-bit int overflow is not modelled either.
- White space is the ASCII white space characters, not the full Unicode set that String.IsNullOrWhiteSpace accepts.
- Times are whole seconds; GETDATE and SYSUTCDATETIME are both the one input `now`.
- BookingController.Cancel: a paid booking's refund records the trip's unit price, not price x quantity, as the source does.
- The Trip form's Description is treated as required. The project's `string?` annotations show nullable reference types are on, and MVC then adds an implicit [Required] to a non-nullable string property. The project file itself is not part of this model.
- ValidFormNumbers: a price or old price of magnitude 2^31 or more makes Convert.ToInt32 throw inside the Range attribute, so the request fails with an error. The model reports a failed Range instead; either way nothing is written.
- SiteReviewsController.StoredCommentMeans: when the 500th code unit is the first half of a surrogate pair, Substring keeps that lone half, which a Dafny string cannot hold. The model drops the whole character and stores 499 code units; SiteReviewsController.Add stores the same.
- TripsController.GalleryOrder: with no recognised sort value the query has no ORDER BY, so SQL promises no order. The model keeps table order, and the lemma's last clause states only that choice; GalleryShowsMatchingTrips gives the fact that holds for every order.
- WaitingListController.Join: the INSERT names no JoinDate. The model assumes the column defaults to the current time, `now`.
- Repeated reviews of a trip by the same user are allowed, as the source does not prevent them.
