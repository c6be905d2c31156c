/** The reservation view: eight state slots, the user's actions on them, and
    the handlers that apply the backend's replies.

    Every action or reply handler returns the requests it emits, in the order
    the component issues them. The effects that React runs when a slot changes
    (the spot fetch on a new `selectedLocation`) are emitted by the action that
    changes the slot. */
module ReservationView {

  import opened Wrappers
  import opened Api
  import opened WireTime

  // ---------------------------------------------------------------------------
  // Messages put in the error slot

  const LocationsErrorPrefix := "Error fetching parking locations: "
  const SpotsErrorPrefix := "Error fetching available spots: "
  const ReservationsErrorPrefix := "Error fetching user reservations: "
  const MissingSelection := "Please select a parking spot and reservation time."
  const ReservationRejected := "Reservation failed. Spot might be already reserved."
  const CreateErrorPrefix := "Error making reservation: "
  const RefreshErrorPrefix := "Error updating user reservations: "
  const DeleteRejected := "Error deleting reservation."
  const DeleteErrorPrefix := "Error deleting reservation: "

  // ---------------------------------------------------------------------------
  // The duration buttons

  /** The longest reservation, in hours. */
  const MaxHours: int := 24

  /** `Math.max(prev - 1, 0)`: one hour less, never below zero. */
  function DecreasedHours(prev: int): (r: int)
    ensures 0 <= r
    ensures prev <= MaxHours ==> r <= MaxHours
    ensures prev > 0 ==> r == prev - 1
    ensures prev <= 0 ==> r == 0
  {
    if prev - 1 > 0 then prev - 1 else 0
  }

  /** `Math.min(prev + 1, 24)`: one hour more, never above 24. */
  function IncreasedHours(prev: int): (r: int)
    ensures r <= MaxHours
    ensures 0 <= prev ==> 0 <= r
    ensures prev < MaxHours ==> r == prev + 1
    ensures prev >= MaxHours ==> r == MaxHours
  {
    if prev + 1 < MaxHours then prev + 1 else MaxHours
  }

  /** The two buttons of the duration control. */
  datatype HourButton = Decrease | Increase

  /** The duration after pressing the buttons in order, starting from `d`. */
  function AfterPresses(d: int, presses: seq<HourButton>): int
    decreases |presses|
  {
    if presses == [] then d
    else
      var next := if presses[0] == Decrease then DecreasedHours(d) else IncreasedHours(d);
      AfterPresses(next, presses[1..])
  }

  /** `n` presses of the same button. */
  function Repeat(b: HourButton, n: nat): (r: seq<HourButton>)
    ensures |r| == n
  {
    if n == 0 then [] else [b] + Repeat(b, n - 1)
  }

  /** No sequence of presses leaves the interval [0, 24]. */
  lemma {:induction false} PressesStayInRange(d: int, presses: seq<HourButton>)
    requires 0 <= d <= MaxHours
    ensures 0 <= AfterPresses(d, presses) <= MaxHours
    decreases |presses|
  {
    if presses != [] {
      var next := if presses[0] == Decrease then DecreasedHours(d) else IncreasedHours(d);
      PressesStayInRange(next, presses[1..]);
    }
  }

  /** `n` increments from `d` give `min(d + n, 24)`. */
  lemma {:induction false} IncreasesSaturate(d: int, n: nat)
    requires 0 <= d <= MaxHours
    ensures AfterPresses(d, Repeat(Increase, n)) == if d + n < MaxHours then d + n else MaxHours
    decreases n
  {
    if n > 0 {
      assert Repeat(Increase, n)[1..] == Repeat(Increase, n - 1);
      IncreasesSaturate(IncreasedHours(d), n - 1);
    }
  }

  /** `n` decrements from `d` give `max(d - n, 0)`. */
  lemma {:induction false} DecreasesSaturate(d: int, n: nat)
    requires 0 <= d <= MaxHours
    ensures AfterPresses(d, Repeat(Decrease, n)) == if d - n > 0 then d - n else 0
    decreases n
  {
    if n > 0 {
      assert Repeat(Decrease, n)[1..] == Repeat(Decrease, n - 1);
      DecreasesSaturate(DecreasedHours(d), n - 1);
    }
  }

  /** Thirty increments from the initial zero give 24; five decrements give 0. */
  lemma {:induction false} ClampExamples()
    ensures AfterPresses(0, Repeat(Increase, 30)) == 24
    ensures AfterPresses(0, Repeat(Decrease, 5)) == 0
  {
    IncreasesSaturate(0, 30);
    DecreasesSaturate(0, 5);
  }

  // ---------------------------------------------------------------------------
  // The component

  /** A snapshot of the eight state slots. */
  datatype Slots = Slots(
    locations: seq<Location>,
    selectedLocation: string,
    availableSpots: seq<Spot>,
    selectedSpot: string,
    reservationTime: int,
    userReservations: seq<Booking>,
    parkingSpot: string,
    error: Option<string>)

  /** The slots as first rendered. */
  const InitialSlots := Slots([], "", [], "", 0, [], "", None)

  class Reservation {
    var locations: seq<Location>
    var selectedLocation: string
    var availableSpots: seq<Spot>
    /** The spot highlighted in the list. */
    var selectedSpot: string
    /** The duration in whole hours. */
    var reservationTime: int
    var userReservations: seq<Booking>
    /** The spot that is submitted. */
    var parkingSpot: string
    var error: Option<string>

    /** The duration control keeps the duration within [0, 24]. */
    ghost predicate Valid()
      reads this
    {
      0 <= reservationTime <= MaxHours
    }

    function State(): Slots
      reads this
    {
      Slots(locations, selectedLocation, availableSpots, selectedSpot,
            reservationTime, userReservations, parkingSpot, error)
    }

    /** The reserve button is disabled, and a submission is refused, when no
        spot has been picked or the duration is zero. */
    predicate SubmitDisabled()
      reads this
      ensures Valid() && !SubmitDisabled() ==>
        parkingSpot != "" && 1 <= reservationTime <= MaxHours
    {
      parkingSpot == "" || reservationTime == 0
    }

    constructor ()
      ensures Valid()
      ensures State() == InitialSlots
    {
      locations, selectedLocation, availableSpots, selectedSpot := [], "", [], "";
      reservationTime, userReservations, parkingSpot, error := 0, [], "", None;
    }

    /** The effects run after the first render: fetch the locations, fetch the
        spots if a location is selected, and fetch the user's reservations if
        a user id is stored. Nothing changes until the replies arrive. */
    method Mount(userId: Option<string>) returns (reqs: seq<Request>)
      ensures |reqs| >= 1 && reqs[0] == GetLocations
      ensures GetSlots(selectedLocation) in reqs <==> selectedLocation != ""
      ensures forall u :: LoadReservations(u) in reqs <==> Truthy(userId) && u == userId.value
      ensures |reqs| == 1 + (if selectedLocation != "" then 1 else 0) + (if Truthy(userId) then 1 else 0)
    {
      reqs := [GetLocations];
      if selectedLocation != "" {
        reqs := reqs + [GetSlots(selectedLocation)];
      }
      if userId.Some? && userId.value != "" {
        reqs := reqs + [LoadReservations(userId.value)];
      }
    }

    /** Clicking a location selects it and clears the highlighted spot. The
        submitted spot is kept. The spot list is fetched when the selection
        changes to a non-empty location. */
    method HandleLocationClick(location: string) returns (reqs: seq<Request>)
      requires Valid()
      modifies this
      ensures Valid()
      ensures State() == old(State()).(selectedLocation := location, selectedSpot := "")
      ensures parkingSpot == old(parkingSpot)
      ensures reqs == if location != old(selectedLocation) && location != "" then [GetSlots(location)] else []
    {
      var changed := location != selectedLocation;
      selectedLocation := location;
      selectedSpot := "";
      reqs := if changed && selectedLocation != "" then [GetSlots(selectedLocation)] else [];
    }

    /** Clicking a free spot makes it both the highlighted and the submitted spot. */
    method HandleSpotClick(spot: string)
      requires Valid()
      modifies this
      ensures Valid()
      ensures State() == old(State()).(parkingSpot := spot, selectedSpot := spot)
    {
      parkingSpot := spot;
      selectedSpot := spot;
    }

    method HandleDecreaseHour()
      requires Valid()
      modifies this
      ensures Valid()
      ensures State() == old(State()).(reservationTime := DecreasedHours(old(reservationTime)))
    {
      reservationTime := DecreasedHours(reservationTime);
    }

    method HandleIncreaseHour()
      requires Valid()
      modifies this
      ensures Valid()
      ensures State() == old(State()).(reservationTime := IncreasedHours(old(reservationTime)))
    {
      reservationTime := IncreasedHours(reservationTime);
    }

    /** Submits the selection. `userId` and `rekisteri` are the stored session
        values; `startClock` and `endClock` are the two clock readings taken
        for the start and the end time. Without a spot or a duration nothing is
        sent and only the error slot changes; otherwise the create request is
        sent and no slot changes until its reply. */
    method MakeReservation(userId: Option<string>, rekisteri: Option<string>,
                           startClock: TimeOfDay, endClock: TimeOfDay)
      returns (req: Option<Request>)
      requires Valid()
      modifies this
      ensures Valid()
      ensures req.None? <==> old(SubmitDisabled())
      ensures old(SubmitDisabled()) ==> State() == old(State()).(error := Some(MissingSelection))
      ensures !old(SubmitDisabled()) ==> State() == old(State())
      ensures !old(SubmitDisabled()) ==>
        req == Some(AddReservation(CreateBody(
          userId, old(parkingSpot),
          StartTime(startClock), EndTime(endClock, old(reservationTime)),
          rekisteri, old(selectedLocation))))
    {
      if parkingSpot == "" || reservationTime == 0 {
        error := Some(MissingSelection);
        return None;
      }
      var idParkit := parkingSpot;
      var formattedStartTime := StartTime(startClock);
      var formattedEndTime := EndTime(endClock, reservationTime);
      var sijainti := selectedLocation;
      req := Some(AddReservation(CreateBody(
        userId, idParkit, formattedStartTime, formattedEndTime, rekisteri, sijainti)));
    }

    /** Applies the reply to a create request. `userId` is the stored user id,
        read again for the refresh. */
    method OnCreateReply(reply: Reply, userId: Option<string>) returns (reqs: seq<Request>)
      requires Valid()
      modifies this
      ensures Valid()
      ensures reply == Successful ==>
        reqs == [RefreshReservations(userId)] &&
        State() == old(State()).(error := None, parkingSpot := "", selectedSpot := "")
      ensures reply == OtherResult ==>
        reqs == [] && State() == old(State()).(error := Some(ReservationRejected))
      ensures reply.TransportError? ==>
        reqs == [] && State() == old(State()).(error := Some(CreateErrorPrefix + reply.message))
    {
      match reply {
        case Successful =>
          reqs := [RefreshReservations(userId)];
          error := None;
          parkingSpot := "";
          selectedSpot := "";
        case OtherResult =>
          reqs := [];
          error := Some(ReservationRejected);
        case TransportError(message) =>
          reqs := [];
          error := Some(CreateErrorPrefix + message);
      }
    }

    /** Clicking the delete button of a reservation sends its id; nothing
        changes until the reply. */
    method HandleReservationDelete(reservationId: string) returns (req: Request)
      ensures req.DeleteReservation? && req.id == reservationId
    {
      req := DeleteReservation(reservationId);
    }

    /** Applies the reply to a delete request. `userId` is the stored user id,
        read again for the refresh. */
    method OnDeleteReply(reply: Reply, userId: Option<string>) returns (reqs: seq<Request>)
      requires Valid()
      modifies this
      ensures Valid()
      ensures userReservations == old(userReservations)
      ensures reply == Successful ==>
        reqs == [RefreshReservations(userId)] && State() == old(State()).(error := None)
      ensures reply == OtherResult ==>
        reqs == [] && State() == old(State()).(error := Some(DeleteRejected))
      ensures reply.TransportError? ==>
        reqs == [] && State() == old(State()).(error := Some(DeleteErrorPrefix + reply.message))
    {
      match reply {
        case Successful =>
          reqs := [RefreshReservations(userId)];
          error := None;
        case OtherResult =>
          reqs := [];
          error := Some(DeleteRejected);
        case TransportError(message) =>
          reqs := [];
          error := Some(DeleteErrorPrefix + message);
      }
    }

    method OnLocationsReply(reply: ListReply<Location>)
      requires Valid()
      modifies this
      ensures Valid()
      ensures reply.Listed? ==> State() == old(State()).(locations := reply.result)
      ensures reply.ListFailed? ==>
        State() == old(State()).(error := Some(LocationsErrorPrefix + reply.message))
    {
      match reply {
        case Listed(result) => locations := result;
        case ListFailed(message) => error := Some(LocationsErrorPrefix + message);
      }
    }

    method OnSpotsReply(reply: ListReply<Spot>)
      requires Valid()
      modifies this
      ensures Valid()
      ensures reply.Listed? ==> State() == old(State()).(availableSpots := reply.result)
      ensures reply.ListFailed? ==>
        State() == old(State()).(error := Some(SpotsErrorPrefix + reply.message))
    {
      match reply {
        case Listed(result) => availableSpots := result;
        case ListFailed(message) => error := Some(SpotsErrorPrefix + message);
      }
    }

    /** The reply to the reservations fetch issued on mount. */
    method OnReservationsLoaded(reply: ListReply<Booking>)
      requires Valid()
      modifies this
      ensures Valid()
      ensures reply.Listed? ==> State() == old(State()).(userReservations := reply.result)
      ensures reply.ListFailed? ==>
        State() == old(State()).(error := Some(ReservationsErrorPrefix + reply.message))
    {
      match reply {
        case Listed(result) => userReservations := result;
        case ListFailed(message) => error := Some(ReservationsErrorPrefix + message);
      }
    }

    /** The reply to the refresh issued after a successful create or delete. */
    method OnReservationsRefreshed(reply: ListReply<Booking>)
      requires Valid()
      modifies this
      ensures Valid()
      ensures reply.Listed? ==> State() == old(State()).(userReservations := reply.result)
      ensures reply.ListFailed? ==>
        State() == old(State()).(error := Some(RefreshErrorPrefix + reply.message))
    {
      match reply {
        case Listed(result) => userReservations := result;
        case ListFailed(message) => error := Some(RefreshErrorPrefix + message);
      }
    }
  }

  // ---------------------------------------------------------------------------
  // Flows through the component

  /** A spot picked under one location is still submitted after another
      location is clicked: the request pairs the old spot with the new
      location. */
  method StaleSpotIsSubmitted(first: string, second: string, spot: string,
                              userId: Option<string>, rekisteri: Option<string>,
                              clock: TimeOfDay)
    returns (req: Option<Request>)
    requires spot != ""
    ensures req == Some(AddReservation(CreateBody(
      userId, spot, StartTime(clock), EndTime(clock, 1), rekisteri, second)))
  {
    var view := new Reservation();
    var _ := view.HandleLocationClick(first);
    view.HandleSpotClick(spot);
    var _ := view.HandleLocationClick(second);
    assert view.selectedSpot == "" && view.parkingSpot == spot;
    view.HandleIncreaseHour();
    req := view.MakeReservation(userId, rekisteri, clock, clock);
  }

  /** After a successful reservation exactly one refresh is emitted, and a
      second submission is refused until a spot is picked again. */
  method ResubmitNeedsNewSpot(spot: string, userId: Option<string>,
                              rekisteri: Option<string>, clock: TimeOfDay)
    returns (first: Option<Request>, refresh: seq<Request>, second: Option<Request>,
             message: Option<string>)
    requires spot != ""
    ensures first.Some? && first.value.AddReservation? && first.value.body.idParkit == spot
    ensures refresh == [RefreshReservations(userId)]
    ensures second == None
    ensures message == Some(MissingSelection)
  {
    var view := new Reservation();
    view.HandleSpotClick(spot);
    view.HandleIncreaseHour();
    first := view.MakeReservation(userId, rekisteri, clock, clock);
    refresh := view.OnCreateReply(Successful, userId);
    second := view.MakeReservation(userId, rekisteri, clock, clock);
    message := view.error;
  }

  /** A rejected reservation keeps the selection, so the same request can be
      sent again unchanged. */
  method RejectedKeepsSelection(spot: string, location: string, userId: Option<string>,
                                rekisteri: Option<string>, clock: TimeOfDay)
    returns (first: Option<Request>, message: Option<string>, again: Option<Request>)
    requires spot != ""
    ensures first.Some? && again == first
    ensures message == Some(ReservationRejected)
  {
    var view := new Reservation();
    var _ := view.HandleLocationClick(location);
    view.HandleSpotClick(spot);
    view.HandleIncreaseHour();
    first := view.MakeReservation(userId, rekisteri, clock, clock);
    var _ := view.OnCreateReply(OtherResult, userId);
    message := view.error;
    again := view.MakeReservation(userId, rekisteri, clock, clock);
  }
}
