/** One card of the trip gallery: the trip, the size of its waiting list and the
    caller's 1-based place in that list, if any, with the two flags derived from it. */
module TripGalleryItemVM {
  import opened Relational
  import opened Schema

  datatype GalleryItem = GalleryItem(trip: Trip, waitingCount: nat, myPosition: Option<nat>)
  {
    /** The caller is in this trip's waiting list. */
    function IAmInWaitingList(): bool
    {
      myPosition.Some?
    }

    /** The caller is first in this trip's waiting list. */
    function IsMyTurn(): (r: bool)
      ensures r ==> IAmInWaitingList()
    {
      myPosition == Some(1)
    }
  }
}
