/** The API views of book/views.py that act on the seat ledger: adding a train (admins only),
    searching trains by route with their availability, booking a seat, and looking up one's
    own booking. The requesting user is a parameter (authentication is not modelled); every
    response is a status code with a body. */
module Views {
  import opened Wrappers
  import Text
  import Accounts
  import opened Ledger
  import Integrity
  import opened Storage
  import opened Serializers

  /** The JSON bodies the views return. */
  datatype Body =
    | Error(error: string)
    | Message(message: string)
    | FieldErrors(errors: Errors)
    | TrainAdded(message: string, trainNo: string, source: string, destination: string)
    | BookingCreated(message: string, bookingId: nat, trainNo: string, seatNo: string,
                     source: string, destination: string)
    | TrainList(rows: map<string, AvailabilityRow>)
    | BookingInfo(bookingId: nat, trainNo: string, seatNo: string, source: string,
                  destination: string, bookedAt: int, user: string)

  datatype Response = Response(status: int, body: Body)

  const TrainNoRequired := "Train number is required"
  const TrainNotFound := "Train not found"
  const NoSeatsAvailable := "No seats available on this train"
  const SeatBooked := "Seat booked successfully"
  const AdminsOnly := "Only administrators can add trains"
  const TrainAddedMessage := "Train added successfully"
  const RouteRequired := "Please provide both source and destination"
  const NoTrainsOnRoute := "No trains found for the given route"
  const BookingNotFound := "Booking not found"

  // ---------------------------------------------------------------------------
  // AddTrainView.post
  // ---------------------------------------------------------------------------

  /** Adds a train: non-administrators are refused with 403 before the input is looked at,
      invalid input gets 400 with the field errors, and an accepted train is saved, which
      provisions its seats. Refusals change nothing. */
  method AddTrain(store: Store, caller: Accounts.User, input: TrainInput) returns (resp: Response)
    requires store.Valid()
    modifies store
    ensures store.Valid()
    ensures !caller.isAdmin ==>
      resp == Response(403, Error(AdminsOnly)) && store.Snapshot() == old(store.Snapshot())
    ensures caller.isAdmin && ValidateTrain(input, old(store.trains).Keys).Failure? ==>
      && resp == Response(400, FieldErrors(ValidateTrain(input, old(store.trains).Keys).error))
      && store.Snapshot() == old(store.Snapshot())
    ensures caller.isAdmin && ValidateTrain(input, old(store.trains).Keys).Success? ==>
      var t := ValidateTrain(input, old(store.trains).Keys).value;
      && store.Snapshot() == SaveTrain(old(store.Snapshot()), t)
      && resp == Response(201, TrainAdded(TrainAddedMessage, t.trainNo, t.source, t.destination))
      && SeatCount(store.seats, t.trainNo) == t.totalSeats
      && FreeCount(store.seats, t.trainNo) == t.totalSeats
      && store.trains[t.trainNo].availableSeats == t.totalSeats
      && store.bookings == old(store.bookings)
    ensures Integrity.SeatsMatchTotals(old(store.Snapshot())) ==> Integrity.SeatsMatchTotals(store.Snapshot())
  {
    if !caller.isAdmin {
      return Response(403, Error(AdminsOnly));
    }
    var v := ValidateTrain(input, store.trains.Keys);
    if v.Failure? {
      return Response(400, FieldErrors(v.error));
    }
    var t := v.value;
    AcceptedTrainIsProvisioned(store.Snapshot(), input);
    if Integrity.SeatsMatchTotals(store.Snapshot()) {
      Integrity.AddTrainKeepsTotals(store.Snapshot(), t);
    }
    var saved := store.Save(t);
    resp := Response(201, TrainAdded(TrainAddedMessage, saved.trainNo, saved.source, saved.destination));
  }

  // ---------------------------------------------------------------------------
  // TrainAvailabilityView.get
  // ---------------------------------------------------------------------------

  /** The route filter: `source__icontains` and `destination__icontains`. */
  predicate OnRoute(t: Train, source: string, destination: string) {
    Text.IContains(t.source, source) && Text.IContains(t.destination, destination)
  }

  /** The trains on a route, by train number, each with its availability. */
  function RouteRows(db: Tables, source: string, destination: string): (rows: map<string, AvailabilityRow>)
    ensures forall tn :: tn in rows <==> tn in db.trains && OnRoute(db.trains[tn], source, destination)
    ensures forall tn :: tn in rows ==>
      && rows[tn].trainNo == db.trains[tn].trainNo
      && rows[tn].source == db.trains[tn].source && rows[tn].destination == db.trains[tn].destination
      && rows[tn].totalSeats == db.trains[tn].totalSeats
      && rows[tn].availableSeats == FreeCount(db.seats, db.trains[tn].trainNo)
      && rows[tn].availableSeats <= SeatCount(db.seats, db.trains[tn].trainNo)
  {
    map tn | tn in db.trains && OnRoute(db.trains[tn], source, destination) :: AvailabilityOf(db.seats, db.trains[tn])
  }

  /** The route search. Both parameters must be given; the answer lists, by train number,
      every train whose source contains `source` and whose destination contains
      `destination` ignoring case, each with its live availability, and is 404 when there is
      none. */
  function TrainAvailability(db: Tables, source: Option<string>, destination: Option<string>): (resp: Response)
    ensures !Given(source) || !Given(destination) ==> resp == Response(400, Error(RouteRequired))
    ensures Given(source) && Given(destination) ==>
      && (resp.status == 404 <==> RouteRows(db, source.value, destination.value) == map[])
      && (resp.status == 404 ==> resp.body == Message(NoTrainsOnRoute))
      && (resp.status != 404 ==> resp == Response(200, TrainList(RouteRows(db, source.value, destination.value))))
  {
    if !Given(source) || !Given(destination) then
      Response(400, Error(RouteRequired))
    else
      var rows := RouteRows(db, source.value, destination.value);
      if rows == map[] then
        Response(404, Message(NoTrainsOnRoute))
      else
        Response(200, TrainList(rows))
  }

  /** The search finds nothing exactly when no train is on the route. */
  lemma NotFoundIffNoTrainOnRoute(db: Tables, source: string, destination: string)
    requires source != "" && destination != ""
    ensures TrainAvailability(db, Some(source), Some(destination)).status == 404
        <==> forall tn :: tn in db.trains ==> !OnRoute(db.trains[tn], source, destination)
  {
    var rows := RouteRows(db, source, destination);
    if rows != map[] {
      var tn :| tn in rows;
    }
  }

  /** The route search does not depend on the case of the query. */
  lemma RouteSearchCaseBlind(db: Tables, source: string, destination: string)
    ensures TrainAvailability(db, Some(Text.Lower(source)), Some(Text.Lower(destination)))
         == TrainAvailability(db, Some(source), Some(destination))
  {
    var folded := RouteRows(db, Text.Lower(source), Text.Lower(destination));
    var rows := RouteRows(db, source, destination);
    forall tn | tn in db.trains
      ensures OnRoute(db.trains[tn], Text.Lower(source), Text.Lower(destination))
          == OnRoute(db.trains[tn], source, destination)
    {
      Text.CaseBlind(db.trains[tn].source, source);
      Text.CaseBlind(db.trains[tn].destination, destination);
    }
    assert folded == rows;
  }

  /** A booking changes neither the status of any search nor which trains it finds nor
      anything it reports about them, except that the booked seat's train shows one seat
      fewer. */
  lemma RouteSearchAfterBooking(db: Tables, i: nat, user: Accounts.UserId, now: int, source: string, destination: string)
    requires i < |db.seats| && !db.seats[i].isBooked
    ensures var before := TrainAvailability(db, Some(source), Some(destination));
      var after := TrainAvailability(ClaimSeat(db, i, user, now), Some(source), Some(destination));
      && after.status == before.status
      && (before.status != 200 ==> after == before)
      && (before.status == 200 ==>
        && after.body.rows.Keys == before.body.rows.Keys
        && forall tn :: tn in after.body.rows ==>
          after.body.rows[tn] == before.body.rows[tn].(availableSeats :=
            if db.seats[i].train == db.trains[tn].trainNo then before.body.rows[tn].availableSeats - 1
            else before.body.rows[tn].availableSeats))
  {
    forall tn | tn in db.trains {
      AvailabilityAfterBooking(db, i, user, now, db.trains[tn]);
    }
  }

  // ---------------------------------------------------------------------------
  // SeatBookingView.post
  // ---------------------------------------------------------------------------

  /** Books a seat on train `trainNo` for `caller`, in one transaction: 400 without a train
      number, 404 for an unknown train, 400 when the train has no free seat, and otherwise 201
      with the train's free seat of smallest key booked for the caller. Refusals change
      nothing. */
  method BookSeat(store: Store, caller: Accounts.User, trainNo: Option<string>, now: int) returns (resp: Response)
    requires store.Valid()
    modifies store
    ensures store.Valid()
    ensures !Given(trainNo) ==>
      resp == Response(400, Error(TrainNoRequired)) && store.Snapshot() == old(store.Snapshot())
    ensures Given(trainNo) && trainNo.value !in old(store.trains) ==>
      resp == Response(404, Error(TrainNotFound)) && store.Snapshot() == old(store.Snapshot())
    ensures Given(trainNo) && trainNo.value in old(store.trains) && FreeCount(old(store.seats), trainNo.value) == 0 ==>
      resp == Response(400, Error(NoSeatsAvailable)) && store.Snapshot() == old(store.Snapshot())
    ensures Given(trainNo) && trainNo.value in old(store.trains) && FreeCount(old(store.seats), trainNo.value) > 0 ==>
      var tn := trainNo.value;
      var train := old(store.trains)[tn];
      var i := FirstFree(old(store.seats), tn).value;
      var seat := old(store.seats)[i];
      // the seat: a free seat of this train, the one with the smallest key
      && seat.train == tn && !seat.isBooked
      && (forall s :: s in old(store.seats) && IsFreeSeatOf(s, tn) ==> seat.id <= s.id)
      // the writes: that seat booked by the caller and one new booking, nothing else
      && store.Snapshot() == ClaimSeat(old(store.Snapshot()), i, caller.id, now)
      && store.seats[i] == seat.(isBooked := true, bookedBy := Some(caller.id))
      && (forall j :: 0 <= j < |store.seats| && j != i ==> store.seats[j] == old(store.seats)[j])
      && store.bookings == old(store.bookings) + [Booking(old(store.nextBookingId), caller.id, tn, seat.id, now)]
      && store.trains == old(store.trains)
      && FreeCount(store.seats, tn) == FreeCount(old(store.seats), tn) - 1
      && resp == Response(201, BookingCreated(SeatBooked, old(store.nextBookingId), tn, seat.seatNo,
                                              train.source, train.destination))
    // the seat ledger is that of one request in a run (`Ledger.ClaimRun`)
    ensures Given(trainNo) && trainNo.value in old(store.trains) ==>
      store.seats == Serve(old(store.seats), trainNo.value, caller.id)
    ensures Integrity.SeatsMatchTotals(old(store.Snapshot())) ==> Integrity.SeatsMatchTotals(store.Snapshot())
  {
    if !Given(trainNo) {
      return Response(400, Error(TrainNoRequired));
    }
    var tn := trainNo.value;
    if tn !in store.trains {
      return Response(404, Error(TrainNotFound));
    }
    var train := store.trains[tn];
    var first := FirstFree(store.seats, tn);
    if first.None? {
      return Response(400, Error(NoSeatsAvailable));
    }
    var i := first.value;
    Integrity.FirstFreeHasLeastKey(store.seats, tn);
    ClaimSeatWrites(store.Snapshot(), i, caller.id, now);
    if Integrity.SeatsMatchTotals(store.Snapshot()) {
      Integrity.ClaimSeatKeepsTotals(store.Snapshot(), i, caller.id, now);
    }
    var seat := store.seats[i];
    var bookingId := store.ClaimSeat(i, caller.id, now);
    resp := Response(201, BookingCreated(SeatBooked, bookingId, tn, seat.seatNo, train.source, train.destination));
  }

  // ---------------------------------------------------------------------------
  // BookingDetailsView.get
  // ---------------------------------------------------------------------------

  /** Looks up booking `bookingId` for `caller`: found only when the booking exists and
      belongs to the caller (someone else's booking is "not found" too), and then reported
      with its own train's and seat's details. */
  function BookingDetails(db: Tables, caller: Accounts.User, bookingId: nat): (resp: Response)
    requires Integrity.Inv(db)
    ensures resp.status == 200 <==> exists b :: b in db.bookings && b.id == bookingId && b.user == caller.id
    ensures resp.status != 200 ==> resp == Response(404, Error(BookingNotFound))
    ensures resp.status == 200 ==>
      && resp.body.BookingInfo? && resp.body.bookingId == bookingId && resp.body.user == caller.username
      && exists b, s ::
        && b in db.bookings && b.id == bookingId && b.user == caller.id
        && s in db.seats && s.id == b.seat && s.train == b.train && b.train in db.trains
        && resp.body.seatNo == s.seatNo && resp.body.trainNo == b.train
        && resp.body.source == db.trains[b.train].source
        && resp.body.destination == db.trains[b.train].destination
        && resp.body.bookedAt == b.timestamp
  {
    match FindBooking(db.bookings, bookingId, caller.id)
    case None => Response(404, Error(BookingNotFound))
    case Some(b) =>
      assert b.seat in Integrity.SeatIds(db.seats);
      match FindSeat(db.seats, b.seat)
      case None => assert false; Response(404, Error(BookingNotFound))
      case Some(s) =>
        var train := db.trains[s.train];
        Response(200, BookingInfo(b.id, train.trainNo, s.seatNo, train.source, train.destination,
                                  b.timestamp, caller.username))
  }

  /** Round trip: right after a booking, its owner can look it up under the key the booking
      response reported, and is shown the seat that was booked on the train that was asked
      for; nobody else can see it. */
  lemma BookingCanBeLookedUp(db: Tables, i: nat, caller: Accounts.User, other: Accounts.User, now: int)
    requires Integrity.Inv(db) && i < |db.seats| && !db.seats[i].isBooked
    requires other.id != caller.id
    ensures Integrity.Inv(ClaimSeat(db, i, caller.id, now))
    ensures var resp := BookingDetails(ClaimSeat(db, i, caller.id, now), caller, db.nextBookingId);
      && resp.status == 200
      && resp.body.seatNo == db.seats[i].seatNo && resp.body.trainNo == db.seats[i].train
      && resp.body.bookedAt == now
    ensures BookingDetails(ClaimSeat(db, i, caller.id, now), other, db.nextBookingId).status == 404
  {
    var after := ClaimSeat(db, i, caller.id, now);
    Integrity.ClaimSeatKeepsInv(db, i, caller.id, now);
    var nb := Booking(db.nextBookingId, caller.id, db.seats[i].train, db.seats[i].id, now);
    assert after.bookings == db.bookings + [nb];
    assert nb in after.bookings;
    assert after.seats[i] in after.seats;
    Integrity.SeatKeysUnique(after.seats);
    assert forall b :: b in after.bookings && b.id == db.nextBookingId ==> b == nb;
  }
}
