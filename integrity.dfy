/** The integrity of the three tables: what the schema's keys and constraints promise
    (book/models.py) and what the booking path keeps consistent, and the proofs that seat
    provisioning and seat booking preserve it. */
module Integrity {
  import opened Wrappers
  import Accounts
  import Text
  import opened Ledger

  // ---------------------------------------------------------------------------
  // The invariant, constraint by constraint
  // ---------------------------------------------------------------------------

  /** Each train row is stored under its own primary key. */
  ghost predicate TrainsKeyed(db: Tables) {
    forall tn :: tn in db.trains ==> db.trains[tn].trainNo == tn
  }

  /** The seat -> train foreign key. */
  ghost predicate SeatsReferenceTrains(db: Tables) {
    forall s :: s in db.seats ==> s.train in db.trains
  }

  /** Seats are stored in primary-key order (so keys are unique). */
  ghost predicate SeatsInKeyOrder(seats: seq<Seat>) {
    forall i, j :: 0 <= i < j < |seats| ==> seats[i].id < seats[j].id
  }

  ghost predicate SeatKeysIssued(db: Tables) {
    forall s :: s in db.seats ==> s.id < db.nextSeatId
  }

  /** `unique_together = ['seat_no', 'train']`. */
  ghost predicate SeatNumbersUnique(seats: seq<Seat>) {
    forall s, s' :: s in seats && s' in seats && s.train == s'.train && s.seatNo == s'.seatNo ==> s.id == s'.id
  }

  /** A seat has an occupant exactly when it is booked. */
  ghost predicate OccupantIffBooked(seats: seq<Seat>) {
    forall s :: s in seats ==> (s.isBooked <==> s.bookedBy.Some?)
  }

  ghost predicate BookingsInKeyOrder(bookings: seq<Booking>) {
    forall i, j :: 0 <= i < j < |bookings| ==> bookings[i].id < bookings[j].id
  }

  ghost predicate BookingKeysIssued(db: Tables) {
    forall b :: b in db.bookings ==> b.id < db.nextBookingId
  }

  function SeatIds(seats: seq<Seat>): set<nat> {
    set s | s in seats :: s.id
  }

  function JournalSeatIds(bookings: seq<Booking>): set<nat> {
    set b | b in bookings :: b.seat
  }

  /** The booking -> seat foreign key. */
  ghost predicate BookingsReferenceSeats(db: Tables) {
    forall b :: b in db.bookings ==> b.seat in SeatIds(db.seats)
  }

  /** A booking's seat belongs to the booking's train and is occupied by the booking's user. */
  ghost predicate BookingsAgreeWithSeats(db: Tables) {
    forall b, s :: b in db.bookings && s in db.seats && s.id == b.seat ==>
      s.train == b.train && s.bookedBy == Some(b.user)
  }

  /** At most one booking per seat. */
  ghost predicate OneBookingPerSeat(bookings: seq<Booking>) {
    forall b, b' :: b in bookings && b' in bookings && b.seat == b'.seat ==> b == b'
  }

  /** Every booked seat has its booking in the journal. */
  ghost predicate BookedSeatsJournaled(db: Tables) {
    forall s :: s in db.seats && s.isBooked ==> s.id in JournalSeatIds(db.bookings)
  }

  ghost predicate Inv(db: Tables) {
    && TrainsKeyed(db)
    && SeatsReferenceTrains(db)
    && SeatsInKeyOrder(db.seats)
    && SeatKeysIssued(db)
    && SeatNumbersUnique(db.seats)
    && OccupantIffBooked(db.seats)
    && BookingsInKeyOrder(db.bookings)
    && BookingKeysIssued(db)
    && BookingsReferenceSeats(db)
    && BookingsAgreeWithSeats(db)
    && OneBookingPerSeat(db.bookings)
    && BookedSeatsJournaled(db)
  }

  /** The empty database. */
  function Empty(): (db: Tables)
    ensures Inv(db)
  {
    Tables(map[], [], [], 0, 0)
  }

  /** Every train with a positive seat total has exactly that many seats, so its free and
      booked seats add up to the total. This is not part of `Inv`: saving a train that
      already has seats keeps them even when its `total_seats` has changed
      (book/models.py:84), so only the API's writes, adding a new train and booking a seat,
      keep it. */
  ghost predicate SeatsMatchTotals(db: Tables) {
    forall tn :: tn in db.trains && db.trains[tn].totalSeats >= 1 ==>
      SeatCount(db.seats, tn) == db.trains[tn].totalSeats
  }

  // ---------------------------------------------------------------------------
  // Consequences
  // ---------------------------------------------------------------------------

  /** Seats in key order never hold the same key twice. */
  lemma SeatKeysUnique(seats: seq<Seat>)
    requires SeatsInKeyOrder(seats)
    ensures forall s, s' :: s in seats && s' in seats && s.id == s'.id ==> s == s'
  {
    forall s, s' | s in seats && s' in seats && s.id == s'.id ensures s == s' {
      var i :| 0 <= i < |seats| && seats[i] == s;
      var j :| 0 <= j < |seats| && seats[j] == s';
      assert i == j;
    }
  }

  /** Within a train no seat number occurs twice, position by position. */
  lemma SeatNumbersDistinct(db: Tables)
    requires Inv(db)
    ensures forall i, j :: 0 <= i < j < |db.seats| && db.seats[i].train == db.seats[j].train ==>
      db.seats[i].seatNo != db.seats[j].seatNo
  {
    forall i, j | 0 <= i < j < |db.seats| && db.seats[i].train == db.seats[j].train
      ensures db.seats[i].seatNo != db.seats[j].seatNo
    {
      assert db.seats[i] in db.seats && db.seats[j] in db.seats;
      assert db.seats[i].id < db.seats[j].id;
    }
  }

  /** `unique_together = ['user', 'train', 'seat']` never fires: no two journal entries share
      a seat, let alone a (user, train, seat) triple. */
  lemma JournalTriplesUnique(db: Tables)
    requires Inv(db)
    ensures forall i, j :: 0 <= i < j < |db.bookings| ==>
      (db.bookings[i].user, db.bookings[i].train, db.bookings[i].seat)
      != (db.bookings[j].user, db.bookings[j].train, db.bookings[j].seat)
  {
    forall i, j | 0 <= i < j < |db.bookings|
      ensures db.bookings[i].seat != db.bookings[j].seat
    {
      assert db.bookings[i] in db.bookings && db.bookings[j] in db.bookings;
      assert db.bookings[i].id < db.bookings[j].id;
    }
  }

  /** Seats are in key order, so the first free seat of a train in ledger order (what an
      unordered `.first()` returns, ordering by primary key) is its free seat with the
      smallest key. */
  lemma FirstFreeHasLeastKey(seats: seq<Seat>, tn: string)
    requires SeatsInKeyOrder(seats) && FirstFree(seats, tn).Some?
    ensures forall s :: s in seats && IsFreeSeatOf(s, tn) ==> seats[FirstFree(seats, tn).value].id <= s.id
  {
    LeastKeyAt(seats, tn, FirstFree(seats, tn).value);
  }

  /** In a key-ordered ledger, a seat with no free seat of the train before it has a key no
      larger than any free seat of the train. */
  lemma LeastKeyAt(seats: seq<Seat>, tn: string, i: nat)
    requires SeatsInKeyOrder(seats) && i < |seats|
    requires forall j :: 0 <= j < i ==> !IsFreeSeatOf(seats[j], tn)
    ensures forall s :: s in seats && IsFreeSeatOf(s, tn) ==> seats[i].id <= s.id
  {
    forall s | s in seats && IsFreeSeatOf(s, tn) ensures seats[i].id <= s.id {
      var j :| 0 <= j < |seats| && seats[j] == s;
      if i < j {
        assert seats[i].id < seats[j].id;
      }
    }
  }

  /** A free seat has no booking yet, so booking it adds a (user, train, seat) triple that is
      not in the journal: the duplicate-booking integrity error is unreachable. */
  lemma FreeSeatUnjournaled(db: Tables, i: nat, user: Accounts.UserId)
    requires Inv(db) && i < |db.seats| && !db.seats[i].isBooked
    ensures forall b :: b in db.bookings ==> b.seat != db.seats[i].id
    ensures forall b :: b in db.bookings ==> (b.user, b.train, b.seat) != (user, db.seats[i].train, db.seats[i].id)
  {
    assert db.seats[i] in db.seats;
  }

  // ---------------------------------------------------------------------------
  // Preservation
  // ---------------------------------------------------------------------------

  /** Writing a train row keeps the invariant. */
  lemma WriteTrainKeepsInv(db: Tables, t: Train)
    requires Inv(db)
    ensures Inv(db.(trains := db.trains[t.trainNo := t]))
  {
  }

  /** A key-ordered ledger's first seat has a key below every later one, and the rest is
      key-ordered too. */
  lemma SeatsHeadFirst(seats: seq<Seat>)
    requires seats != [] && SeatsInKeyOrder(seats)
    ensures forall y :: y in seats[1..] ==> seats[0].id < y.id
    ensures SeatsInKeyOrder(seats[1..])
  {
    forall y | y in seats[1..] ensures seats[0].id < y.id {
      var j :| 0 <= j < |seats[1..]| && seats[1..][j] == y;
      assert seats[j + 1] == y;
    }
    forall i, j | 0 <= i < j < |seats[1..]| ensures seats[1..][i].id < seats[1..][j].id {
      assert seats[1..][i] == seats[i + 1] && seats[1..][j] == seats[j + 1];
    }
  }

  /** A seat with a key below every key of a key-ordered ledger can go in front of it. */
  lemma SeatsConsInKeyOrder(x: Seat, rest: seq<Seat>)
    requires SeatsInKeyOrder(rest)
    requires forall y :: y in rest ==> x.id < y.id
    ensures SeatsInKeyOrder([x] + rest)
  {
    var r := [x] + rest;
    forall i, j | 0 <= i < j < |r| ensures r[i].id < r[j].id {
      assert r[j] == rest[j - 1];
      if i == 0 {
        assert rest[j - 1] in rest;
      } else {
        assert r[i] == rest[i - 1];
      }
    }
  }

  lemma {:induction false} OtherTrainsSeatsInKeyOrder(seats: seq<Seat>, tn: string)
    requires SeatsInKeyOrder(seats)
    ensures SeatsInKeyOrder(OtherTrainsSeats(seats, tn))
  {
    if seats != [] {
      var rest := OtherTrainsSeats(seats[1..], tn);
      SeatsHeadFirst(seats);
      OtherTrainsSeatsInKeyOrder(seats[1..], tn);
      if seats[0].train != tn {
        assert OtherTrainsSeats(seats, tn) == [seats[0]] + rest;
        SeatsConsInKeyOrder(seats[0], rest);
      } else {
        assert OtherTrainsSeats(seats, tn) == rest;
      }
    }
  }

  /** The booking-journal counterpart of `SeatsHeadFirst`. */
  lemma BookingsHeadFirst(bookings: seq<Booking>)
    requires bookings != [] && BookingsInKeyOrder(bookings)
    ensures forall y :: y in bookings[1..] ==> bookings[0].id < y.id
    ensures BookingsInKeyOrder(bookings[1..])
  {
    forall y | y in bookings[1..] ensures bookings[0].id < y.id {
      var j :| 0 <= j < |bookings[1..]| && bookings[1..][j] == y;
      assert bookings[j + 1] == y;
    }
    forall i, j | 0 <= i < j < |bookings[1..]| ensures bookings[1..][i].id < bookings[1..][j].id {
      assert bookings[1..][i] == bookings[i + 1] && bookings[1..][j] == bookings[j + 1];
    }
  }

  /** The booking-journal counterpart of `SeatsConsInKeyOrder`. */
  lemma BookingsConsInKeyOrder(x: Booking, rest: seq<Booking>)
    requires BookingsInKeyOrder(rest)
    requires forall y :: y in rest ==> x.id < y.id
    ensures BookingsInKeyOrder([x] + rest)
  {
    var r := [x] + rest;
    forall i, j | 0 <= i < j < |r| ensures r[i].id < r[j].id {
      assert r[j] == rest[j - 1];
      if i == 0 {
        assert rest[j - 1] in rest;
      } else {
        assert r[i] == rest[i - 1];
      }
    }
  }

  lemma {:induction false} SurvivingBookingsInKeyOrder(bookings: seq<Booking>, removed: set<nat>)
    requires BookingsInKeyOrder(bookings)
    ensures BookingsInKeyOrder(SurvivingBookings(bookings, removed))
  {
    if bookings != [] {
      var rest := SurvivingBookings(bookings[1..], removed);
      BookingsHeadFirst(bookings);
      SurvivingBookingsInKeyOrder(bookings[1..], removed);
      if bookings[0].seat !in removed {
        assert SurvivingBookings(bookings, removed) == [bookings[0]] + rest;
        BookingsConsInKeyOrder(bookings[0], rest);
      } else {
        assert SurvivingBookings(bookings, removed) == rest;
      }
    }
  }

  /** Concatenating two key-ordered runs whose keys do not interleave keeps key order. */
  lemma AppendInKeyOrder(a: seq<Seat>, b: seq<Seat>)
    requires SeatsInKeyOrder(a) && SeatsInKeyOrder(b)
    requires forall s, s' :: s in a && s' in b ==> s.id < s'.id
    ensures SeatsInKeyOrder(a + b)
  {
    var r := a + b;
    forall i, j | 0 <= i < j < |r| ensures r[i].id < r[j].id {
      if j < |a| {
        assert r[i] == a[i] && r[j] == a[j];
      } else if i >= |a| {
        assert r[i] == b[i - |a|] && r[j] == b[j - |a|];
      } else {
        assert r[i] in a && r[j] == b[j - |a|];
      }
    }
  }

  /** The seats `create_seats` inserts: fresh keys above every existing key, all of train
      `t`, all free. */
  lemma NewSeatsFacts(db: Tables, t: Train)
    ensures forall s :: s in NewSeats(t.trainNo, SeatsToCreate(t), db.nextSeatId) ==>
      s.id >= db.nextSeatId && s.id < db.nextSeatId + SeatsToCreate(t) && s.train == t.trainNo
      && !s.isBooked && s.bookedBy.None?
    ensures SeatsInKeyOrder(NewSeats(t.trainNo, SeatsToCreate(t), db.nextSeatId))
  {
  }

  lemma ReplaceSeatsKeyOrder(db: Tables, t: Train)
    requires SeatsInKeyOrder(db.seats) && SeatKeysIssued(db) && BookingsInKeyOrder(db.bookings)
    ensures SeatsInKeyOrder(ReplaceSeats(db, t).seats) && SeatKeysIssued(ReplaceSeats(db, t))
    ensures BookingsInKeyOrder(ReplaceSeats(db, t).bookings)
  {
    var kept := OtherTrainsSeats(db.seats, t.trainNo);
    var added := NewSeats(t.trainNo, SeatsToCreate(t), db.nextSeatId);
    NewSeatsFacts(db, t);
    OtherTrainsSeatsInKeyOrder(db.seats, t.trainNo);
    AppendInKeyOrder(kept, added);
    SurvivingBookingsInKeyOrder(db.bookings, SeatIdsOf(db.seats, t.trainNo));
  }

  /** Two different inserted seats carry different numbers. */
  lemma NewSeatsNumbersDiffer(tn: string, n: nat, firstId: nat, k: nat, l: nat)
    requires k < n && l < n && k != l
    ensures NewSeats(tn, n, firstId)[k].seatNo != NewSeats(tn, n, firstId)[l].seatNo
  {
    Text.DecimalInjective(k + 1, l + 1);
  }

  /** The inserted seats carry distinct numbers. */
  lemma NewSeatsNumbersUnique(tn: string, n: nat, firstId: nat)
    ensures SeatNumbersUnique(NewSeats(tn, n, firstId))
  {
    var added := NewSeats(tn, n, firstId);
    forall s: Seat, s': Seat | s in added && s' in added && s.train == s'.train && s.seatNo == s'.seatNo
      ensures s.id == s'.id
    {
      var k :| 0 <= k < |added| && added[k] == s;
      var l :| 0 <= l < |added| && added[l] == s';
      if k != l {
        NewSeatsNumbersDiffer(tn, n, firstId, k, l);
      }
    }
  }

  lemma ReplaceSeatsNumbers(db: Tables, t: Train)
    requires SeatNumbersUnique(db.seats)
    ensures SeatNumbersUnique(ReplaceSeats(db, t).seats)
  {
    var kept := OtherTrainsSeats(db.seats, t.trainNo);
    var added := NewSeats(t.trainNo, SeatsToCreate(t), db.nextSeatId);
    NewSeatsFacts(db, t);
    NewSeatsNumbersUnique(t.trainNo, SeatsToCreate(t), db.nextSeatId);
    assert ReplaceSeats(db, t).seats == kept + added;
    forall s: Seat, s': Seat | s in kept + added && s' in kept + added && s.train == s'.train && s.seatNo == s'.seatNo
      ensures s.id == s'.id
    {
      if s in kept && s' in kept {
        assert s in db.seats && s' in db.seats;
      }
    }
  }

  lemma ReplaceSeatsJournal(db: Tables, t: Train)
    requires SeatsInKeyOrder(db.seats) && SeatKeysIssued(db)
    requires BookingsReferenceSeats(db) && BookingsAgreeWithSeats(db) && BookedSeatsJournaled(db)
    ensures BookingsReferenceSeats(ReplaceSeats(db, t))
    ensures BookingsAgreeWithSeats(ReplaceSeats(db, t))
    ensures BookedSeatsJournaled(ReplaceSeats(db, t))
  {
    var tn := t.trainNo;
    var r := ReplaceSeats(db, t);
    var kept := OtherTrainsSeats(db.seats, tn);
    var added := NewSeats(tn, SeatsToCreate(t), db.nextSeatId);
    var removed := SeatIdsOf(db.seats, tn);
    assert r.seats == kept + added;
    NewSeatsFacts(db, t);
    SeatKeysUnique(db.seats);
    forall b | b in r.bookings ensures b.seat in SeatIds(r.seats) {
      var s :| s in db.seats && s.id == b.seat;
      assert s in kept;
    }
    forall b, s | b in r.bookings && s in r.seats && s.id == b.seat
      ensures s.train == b.train && s.bookedBy == Some(b.user)
    {
      var s0 :| s0 in db.seats && s0.id == b.seat;
      assert s in kept;
    }
    forall s | s in r.seats && s.isBooked ensures s.id in JournalSeatIds(r.bookings) {
      var b :| b in db.bookings && b.seat == s.id;
      assert b.seat !in removed;
      assert b in r.bookings;
    }
  }

  /** The deletion and bulk insert of `create_seats` keep the invariant, for a train whose row
      exists (the seat -> train foreign key demands it). */
  lemma ReplaceSeatsKeepsInv(db: Tables, t: Train)
    requires Inv(db) && t.trainNo in db.trains
    ensures Inv(ReplaceSeats(db, t))
  {
    NewSeatsFacts(db, t);
    ReplaceSeatsKeyOrder(db, t);
    ReplaceSeatsNumbers(db, t);
    ReplaceSeatsJournal(db, t);
  }

  /** Seat provisioning as a whole (`create_seats` with its final `save`) keeps the invariant. */
  lemma CreateSeatsKeepsInv(db: Tables, t: Train)
    requires Inv(db) && t.trainNo in db.trains
    ensures Inv(CreateSeats(db, t))
  {
    ReplaceSeatsKeepsInv(db, t);
    WriteTrainKeepsInv(ReplaceSeats(db, t), Provisioned(t));
  }

  /** `Train.save` keeps the invariant. */
  lemma SaveTrainKeepsInv(db: Tables, t: Train)
    requires Inv(db)
    ensures Inv(SaveTrain(db, t))
  {
    var written := db.(trains := db.trains[t.trainNo := t]);
    WriteTrainKeepsInv(db, t);
    if NeedsSeats(db.seats, t) {
      CreateSeatsKeepsInv(written, t);
    }
  }

  /** Claiming a seat changes its flags only: position by position, keys, trains and numbers
      stay, and every claimed-ledger seat is an old seat or the claimed one. */
  lemma ClaimShape(seats: seq<Seat>, i: nat, user: Accounts.UserId)
    requires i < |seats|
    ensures forall j :: 0 <= j < |seats| ==>
      (Claim(seats, i, user)[j].id == seats[j].id && Claim(seats, i, user)[j].train == seats[j].train
       && Claim(seats, i, user)[j].seatNo == seats[j].seatNo)
    ensures forall s :: s in Claim(seats, i, user) ==> s in seats || s == Claim(seats, i, user)[i]
    ensures SeatIds(Claim(seats, i, user)) == SeatIds(seats)
  {
    var r := Claim(seats, i, user);
    forall x | x in SeatIds(seats) ensures x in SeatIds(r) {
      var j :| 0 <= j < |seats| && seats[j].id == x;
      assert r[j] in r;
    }
  }

  /** Claiming a seat keeps seat numbers unique: keys, trains and numbers stay put. */
  lemma ClaimSeatNumbers(seats: seq<Seat>, i: nat, user: Accounts.UserId)
    requires i < |seats| && SeatNumbersUnique(seats)
    ensures SeatNumbersUnique(Claim(seats, i, user))
  {
    var r := Claim(seats, i, user);
    ClaimShape(seats, i, user);
    forall s, s' | s in r && s' in r && s.train == s'.train && s.seatNo == s'.seatNo
      ensures s.id == s'.id
    {
      var j :| 0 <= j < |r| && r[j] == s;
      var k :| 0 <= k < |r| && r[k] == s';
      assert seats[j] in seats && seats[k] in seats;
    }
  }

  /** Claiming a seat keeps key order: keys stay put, position by position. */
  lemma ClaimSeatKeyOrder(seats: seq<Seat>, i: nat, user: Accounts.UserId)
    requires i < |seats| && SeatsInKeyOrder(seats)
    ensures SeatsInKeyOrder(Claim(seats, i, user))
  {
    ClaimShape(seats, i, user);
  }

  lemma ClaimSeatLedger(db: Tables, i: nat, user: Accounts.UserId, now: int)
    requires i < |db.seats| && !db.seats[i].isBooked
    requires SeatsReferenceTrains(db) && SeatsInKeyOrder(db.seats) && SeatKeysIssued(db)
    requires SeatNumbersUnique(db.seats) && OccupantIffBooked(db.seats)
    ensures var r := ClaimSeat(db, i, user, now);
      SeatsReferenceTrains(r) && SeatsInKeyOrder(r.seats) && SeatKeysIssued(r)
      && SeatNumbersUnique(r.seats) && OccupantIffBooked(r.seats)
  {
    ClaimShape(db.seats, i, user);
    ClaimSeatNumbers(db.seats, i, user);
    ClaimSeatKeyOrder(db.seats, i, user);
    assert db.seats[i] in db.seats;
  }

  /** Appending a booking with the next key, for a seat the journal does not mention yet,
      keeps the journal in key order, its keys issued and one booking per seat. */
  lemma AppendBookingKeepsJournal(bookings: seq<Booking>, next: nat, nb: Booking)
    requires BookingsInKeyOrder(bookings) && OneBookingPerSeat(bookings)
    requires forall b :: b in bookings ==> b.id < next && b.seat != nb.seat
    requires nb.id == next
    ensures BookingsInKeyOrder(bookings + [nb])
    ensures forall b :: b in bookings + [nb] ==> b.id < next + 1
    ensures OneBookingPerSeat(bookings + [nb])
  {
    var r := bookings + [nb];
    forall x, y | 0 <= x < y < |r| ensures r[x].id < r[y].id {
      assert r[x] == bookings[x];
      if y == |bookings| {
        assert bookings[x] in bookings;
      } else {
        assert r[y] == bookings[y];
      }
    }
  }

  /** After the claim, every booking names an existing seat that agrees with it, and every
      booked seat is journaled. */
  lemma ClaimSeatAgree(db: Tables, i: nat, user: Accounts.UserId, now: int)
    requires i < |db.seats| && !db.seats[i].isBooked
    requires Inv(db)
    ensures var r := ClaimSeat(db, i, user, now);
      BookingsReferenceSeats(r) && BookingsAgreeWithSeats(r) && BookedSeatsJournaled(r)
  {
    var r := ClaimSeat(db, i, user, now);
    var seat := db.seats[i];
    var claimed := r.seats[i];
    var nb := Booking(db.nextBookingId, user, seat.train, seat.id, now);
    assert r.bookings == db.bookings + [nb];
    FreeSeatUnjournaled(db, i, user);
    SeatKeysUnique(db.seats);
    ClaimShape(db.seats, i, user);
    assert seat in db.seats;
    forall b, s | b in r.bookings && s in r.seats && s.id == b.seat
      ensures s.train == b.train && s.bookedBy == Some(b.user)
    {
      if s == claimed {
        assert b == nb;
      }
    }
    forall s | s in r.seats && s.isBooked ensures s.id in JournalSeatIds(r.bookings) {
      if s == claimed {
        assert nb in r.bookings;
      } else {
        var b :| b in db.bookings && b.seat == s.id;
        assert b in r.bookings;
      }
    }
  }

  lemma ClaimSeatJournal(db: Tables, i: nat, user: Accounts.UserId, now: int)
    requires i < |db.seats| && !db.seats[i].isBooked
    requires Inv(db)
    ensures var r := ClaimSeat(db, i, user, now);
      BookingsInKeyOrder(r.bookings) && BookingKeysIssued(r) && BookingsReferenceSeats(r)
      && BookingsAgreeWithSeats(r) && OneBookingPerSeat(r.bookings) && BookedSeatsJournaled(r)
  {
    var seat := db.seats[i];
    FreeSeatUnjournaled(db, i, user);
    AppendBookingKeepsJournal(db.bookings, db.nextBookingId, Booking(db.nextBookingId, user, seat.train, seat.id, now));
    ClaimSeatAgree(db, i, user, now);
  }

  /** Booking a free seat keeps the invariant. */
  lemma ClaimSeatKeepsInv(db: Tables, i: nat, user: Accounts.UserId, now: int)
    requires Inv(db) && i < |db.seats| && !db.seats[i].isBooked
    ensures Inv(ClaimSeat(db, i, user, now))
  {
    ClaimSeatLedger(db, i, user, now);
    ClaimSeatJournal(db, i, user, now);
  }

  // ---------------------------------------------------------------------------
  // Seat totals along the API's writes
  // ---------------------------------------------------------------------------

  /** Saving a new train with a positive seat total, as the add-train endpoint does, keeps
      every train's seat count equal to its total: the new train gets exactly its total and
      no other train's seats change. */
  lemma AddTrainKeepsTotals(db: Tables, t: Train)
    requires Inv(db) && SeatsMatchTotals(db)
    requires t.trainNo !in db.trains && t.totalSeats >= 1
    ensures SeatsMatchTotals(SaveTrain(db, t))
  {
    forall i | 0 <= i < |db.seats| ensures db.seats[i].train != t.trainNo {
      assert db.seats[i] in db.seats;
    }
    var written := db.(trains := db.trains[t.trainNo := t]);
    var r := SaveTrain(db, t);
    assert r == CreateSeats(written, t);
    FirstSaveProvisions(db, t);
    forall tn | tn in r.trains && r.trains[tn].totalSeats >= 1
      ensures SeatCount(r.seats, tn) == r.trains[tn].totalSeats
    {
      if tn != t.trainNo {
        CreateSeatsCounts(written, t, tn);
        assert r.trains[tn] == db.trains[tn];
      }
    }
  }

  /** Booking a seat keeps every train's seat count, so it keeps the totals matched. */
  lemma ClaimSeatKeepsTotals(db: Tables, i: nat, user: Accounts.UserId, now: int)
    requires i < |db.seats| && !db.seats[i].isBooked
    requires SeatsMatchTotals(db)
    ensures SeatsMatchTotals(ClaimSeat(db, i, user, now))
  {
    forall tn | tn in db.trains && db.trains[tn].totalSeats >= 1
      ensures SeatCount(ClaimSeat(db, i, user, now).seats, tn) == db.trains[tn].totalSeats
    {
      ClaimCounts(db.seats, i, user, tn);
    }
  }

  /** Saving a train that already has seats keeps them whatever its new total: the totals
      stay matched only when the total is unchanged. */
  lemma ResaveKeepsSeats(db: Tables, t: Train)
    requires SeatCount(db.seats, t.trainNo) > 0
    ensures SaveTrain(db, t).seats == db.seats
    ensures SeatCount(SaveTrain(db, t).seats, t.trainNo) == SeatCount(db.seats, t.trainNo)
    ensures t.totalSeats >= 1 && t.totalSeats != SeatCount(db.seats, t.trainNo) ==>
      !SeatsMatchTotals(SaveTrain(db, t))
  {
  }
}
