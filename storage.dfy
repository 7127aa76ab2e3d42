/** The database as one mutable object: the train, seat and booking tables that the Django
    models of book/models.py read and write. `Train.save` and `Train.create_seats` are its
    methods (the train instance they run on is a parameter, and the instance as it stands
    afterwards is returned); each write is proved to leave exactly the tables that the
    `Ledger` functions describe, and the table integrity of `Integrity.Inv`. */
module Storage {
  import opened Wrappers
  import Accounts
  import opened Ledger
  import Integrity
  import Text

  class Store {
    var trains: map<string, Train>
    var seats: seq<Seat>
    var bookings: seq<Booking>
    var nextSeatId: nat
    var nextBookingId: nat

    /** The tables as a value. */
    function Snapshot(): Tables
      reads this
    {
      Tables(trains, seats, bookings, nextSeatId, nextBookingId)
    }

    ghost predicate Valid()
      reads this
    {
      Integrity.Inv(Snapshot())
    }

    /** A fresh, empty database. */
    constructor ()
      ensures Valid()
      ensures Snapshot() == Integrity.Empty()
    {
      trains := map[];
      seats := [];
      bookings := [];
      nextSeatId := 0;
      nextBookingId := 0;
    }

    /** `Train.save`: write the row, then provision seats when the train has a positive total
        and no seats yet. Provisioning saves the train once more, which does not provision
        again (hence the measure). */
    method Save(t: Train) returns (saved: Train)
      requires Valid()
      modifies this
      ensures Valid()
      ensures Snapshot() == SaveTrain(old(Snapshot()), t)
      ensures saved == SavedInstance(old(Snapshot()), t)
      decreases if NeedsSeats(seats, t) then 2 else 0
    {
      Integrity.WriteTrainKeepsInv(Snapshot(), t);
      trains := trains[t.trainNo := t];
      saved := t;
      if t.totalSeats > 0 && SeatCount(seats, t.trainNo) == 0 {
        saved := CreateSeats(t);
      }
    }

    /** `Train.create_seats`: delete the train's seats (their bookings go with them by
        cascade), bulk-create seats "1" to "total_seats", set the stored availability to the
        total and save the train. */
    method CreateSeats(t: Train) returns (saved: Train)
      requires Valid() && t.trainNo in trains
      modifies this
      ensures Valid()
      ensures Snapshot() == Ledger.CreateSeats(old(Snapshot()), t)
      ensures saved == Provisioned(t)
      decreases 1
    {
      ghost var before := Snapshot();
      Integrity.ReplaceSeatsKeepsInv(before, t);
      var tn := t.trainNo;

      // delete the train's seats; deleting a seat cascades to its bookings
      bookings := SurvivingBookings(bookings, SeatIdsOf(seats, tn));
      seats := OtherTrainsSeats(seats, tn);

      // build the free seats numbered 1 to total_seats
      var n := SeatsToCreate(t);
      var added := SeatBatch(tn, n, nextSeatId);

      // insert them in one batch, in order, with consecutive keys
      seats := seats + added;
      nextSeatId := nextSeatId + n;
      assert Snapshot() == ReplaceSeats(before, t);

      // record the total as the stored availability and save the train again
      CreateSeatsCounts(before, t, tn + "'");
      saved := Save(Provisioned(t));
    }

    /** The two writes of a successful booking, in one transaction: a booking row for the
        seat at position `i` is created with the next key and the time `now`, then the seat is
        marked booked by `user`. Returns the new booking's key. */
    method ClaimSeat(i: nat, user: Accounts.UserId, now: int) returns (bookingId: nat)
      requires Valid() && i < |seats| && !seats[i].isBooked
      modifies this
      ensures Valid()
      ensures Snapshot() == Ledger.ClaimSeat(old(Snapshot()), i, user, now)
      ensures bookingId == old(nextBookingId)
    {
      Integrity.ClaimSeatKeepsInv(Snapshot(), i, user, now);
      var seat := seats[i];
      bookingId := nextBookingId;
      bookings := bookings + [Booking(bookingId, user, seat.train, seat.id, now)];
      nextBookingId := nextBookingId + 1;
      seats := seats[i := seat.(isBooked := true, bookedBy := Some(user))];
    }
  }

  /** The list comprehension of `create_seats`: seats numbered "1" to "n" of train `tn`, all
      free, with the keys `firstId` onwards that the bulk insert assigns. */
  method SeatBatch(tn: string, n: nat, firstId: nat) returns (added: seq<Seat>)
    ensures added == NewSeats(tn, n, firstId)
  {
    added := [];
    var k := 0;
    while k < n
      invariant 0 <= k <= n
      invariant added == NewSeats(tn, k, firstId)
    {
      added := added + [Seat(firstId + k, Text.NatToDecimal(k + 1), tn, false, None)];
      k := k + 1;
    }
  }
}
