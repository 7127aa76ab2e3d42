/** The seat ledger and booking journal of the reservation backend, as values: the rows of
    the `Train`, `Seat` and `Booking` tables (book/models.py), the queries the views run over
    them, and the table contents each write leaves behind. The class `Storage.Store` holds
    these tables and performs the writes; the functions here are its specification. */
module Ledger {
  import opened Wrappers
  import Accounts
  import Text

  /** A row of the train table; `trainNo` is its primary key. `availableSeats` is the stored
      column, which only seat provisioning writes. */
  datatype Train = Train(
    trainNo: string,
    source: string,
    destination: string,
    totalSeats: int,
    availableSeats: int)

  /** A row of the seat table; `id` is its auto-incremented primary key. */
  datatype Seat = Seat(id: nat, seatNo: string, train: string, isBooked: bool, bookedBy: Option<Accounts.UserId>)

  /** A row of the booking journal; `id` is its auto-incremented primary key and `timestamp`
      the creation time supplied by the caller. */
  datatype Booking = Booking(id: nat, user: Accounts.UserId, train: string, seat: nat, timestamp: int)

  /** The three tables, seats and bookings in primary-key order, with the next keys that the
      database will hand out. */
  datatype Tables = Tables(
    trains: map<string, Train>,
    seats: seq<Seat>,
    bookings: seq<Booking>,
    nextSeatId: nat,
    nextBookingId: nat)

  // ---------------------------------------------------------------------------
  // Queries over the seat ledger
  // ---------------------------------------------------------------------------

  /** A seat of train `tn` that nobody has booked. */
  predicate IsFreeSeatOf(s: Seat, tn: string) {
    s.train == tn && !s.isBooked
  }

  /** `train.seats.count()`. */
  function SeatCount(seats: seq<Seat>, tn: string): (n: nat)
    ensures n <= |seats|
    ensures n == 0 <==> forall i :: 0 <= i < |seats| ==> seats[i].train != tn
  {
    if seats == [] then 0
    else (if seats[0].train == tn then 1 else 0) + SeatCount(seats[1..], tn)
  }

  /** `train.seats.filter(is_booked=False).count()`: the availability the API reports. */
  function FreeCount(seats: seq<Seat>, tn: string): (n: nat)
    ensures n <= SeatCount(seats, tn)
    ensures n == 0 <==> forall i :: 0 <= i < |seats| ==> !IsFreeSeatOf(seats[i], tn)
  {
    if seats == [] then 0
    else (if IsFreeSeatOf(seats[0], tn) then 1 else 0) + FreeCount(seats[1..], tn)
  }

  /** `Seat.objects.filter(train=train, is_booked=False).first()`: the position of the first
      free seat of the train in primary-key order, if there is one. */
  function FirstFree(seats: seq<Seat>, tn: string): (r: Option<nat>)
    ensures r.Some? ==> r.value < |seats| && IsFreeSeatOf(seats[r.value], tn)
    ensures r.Some? ==> forall j :: 0 <= j < r.value ==> !IsFreeSeatOf(seats[j], tn)
    ensures r.None? <==> FreeCount(seats, tn) == 0
  {
    if seats == [] then None
    else if IsFreeSeatOf(seats[0], tn) then Some(0)
    else match FirstFree(seats[1..], tn)
      case None => None
      case Some(i) => Some(i + 1)
  }

  /** The seat at position `i` marked booked by `user`. */
  function Claim(seats: seq<Seat>, i: nat, user: Accounts.UserId): (r: seq<Seat>)
    requires i < |seats|
    ensures |r| == |seats|
    ensures r[i].isBooked && r[i].bookedBy == Some(user)
    ensures r[i].id == seats[i].id && r[i].seatNo == seats[i].seatNo && r[i].train == seats[i].train
    ensures forall j :: 0 <= j < |seats| && j != i ==> r[j] == seats[j]
  {
    seats[i := seats[i].(isBooked := true, bookedBy := Some(user))]
  }

  /** Counting distributes over concatenation. */
  lemma {:induction false} CountsAppend(a: seq<Seat>, b: seq<Seat>, tn: string)
    ensures SeatCount(a + b, tn) == SeatCount(a, tn) + SeatCount(b, tn)
    ensures FreeCount(a + b, tn) == FreeCount(a, tn) + FreeCount(b, tn)
  {
    if a == [] {
      assert a + b == b;
    } else {
      assert (a + b)[1..] == a[1..] + b;
      CountsAppend(a[1..], b, tn);
    }
  }

  /** Booking a free seat leaves every train's seat count alone and lowers the free count of
      the seat's own train, and only that one, by exactly one. */
  lemma {:induction false} ClaimCounts(seats: seq<Seat>, i: nat, user: Accounts.UserId, tn: string)
    requires i < |seats| && !seats[i].isBooked
    ensures |Claim(seats, i, user)| == |seats|
    ensures SeatCount(Claim(seats, i, user), tn) == SeatCount(seats, tn)
    ensures FreeCount(Claim(seats, i, user), tn)
         == if seats[i].train == tn then FreeCount(seats, tn) - 1 else FreeCount(seats, tn)
  {
    var c := Claim(seats, i, user);
    if i == 0 {
      assert c[1..] == seats[1..];
    } else {
      assert c[1..] == Claim(seats[1..], i - 1, user);
      ClaimCounts(seats[1..], i - 1, user, tn);
    }
  }

  /** A booked seat is never handed out again, and booking never frees a seat. */
  lemma ClaimOnlyBooks(seats: seq<Seat>, i: nat, user: Accounts.UserId, tn: string)
    requires i < |seats|
    ensures forall j :: 0 <= j < |seats| && IsFreeSeatOf(Claim(seats, i, user)[j], tn) ==>
      j != i && IsFreeSeatOf(seats[j], tn)
    ensures FirstFree(Claim(seats, i, user), tn) != Some(i)
  {
  }

  // ---------------------------------------------------------------------------
  // Sequences of booking requests on one train
  // ---------------------------------------------------------------------------

  /** The seat ledger after one booking request by `user` on train `tn`: its first free seat
      is booked by the user, or nothing changes when there is none. */
  function Serve(seats: seq<Seat>, tn: string, user: Accounts.UserId): (r: seq<Seat>)
    ensures |r| == |seats|
    ensures FirstFree(seats, tn).None? ==> r == seats
  {
    match FirstFree(seats, tn)
    case None => seats
    case Some(i) => Claim(seats, i, user)
  }

  /** The seat ledger after `users` each ask, in order, for a seat on train `tn`, and the
      position of the seat each request got (`None` for a refused request). */
  function ClaimRun(seats: seq<Seat>, tn: string, users: seq<Accounts.UserId>): (r: (seq<Seat>, seq<Option<nat>>))
    ensures |r.0| == |seats| && |r.1| == |users|
    decreases |users|
  {
    if users == [] then (seats, [])
    else
      var rest := ClaimRun(Serve(seats, tn, users[0]), tn, users[1..]);
      (rest.0, [FirstFree(seats, tn)] + rest.1)
  }

  /** Unfolds one request of a run: the first outcome is the first request's, the others are
      those of the rest of the run on the served ledger. */
  lemma RunHead(seats: seq<Seat>, tn: string, users: seq<Accounts.UserId>)
    requires users != []
    ensures var rest := ClaimRun(Serve(seats, tn, users[0]), tn, users[1..]);
      && ClaimRun(seats, tn, users).0 == rest.0
      && ClaimRun(seats, tn, users).1[0] == FirstFree(seats, tn)
      && (forall k :: 1 <= k < |users| ==> ClaimRun(seats, tn, users).1[k] == rest.1[k - 1])
      && (forall k :: 1 <= k < |users| ==> users[k] == users[1..][k - 1])
  {
    var rest := ClaimRun(Serve(seats, tn, users[0]), tn, users[1..]);
    assert ClaimRun(seats, tn, users) == (rest.0, [FirstFree(seats, tn)] + rest.1);
  }

  /** Exactly the first `f` requests in `got` succeed. */
  ghost predicate FirstSucceed(got: seq<Option<nat>>, f: nat) {
    forall k :: 0 <= k < |got| ==> (got[k].Some? <==> k < f)
  }

  /** Every successful request in `got` got a seat of train `tn` that was free in `seats`. */
  ghost predicate GotFreeSeats(seats: seq<Seat>, tn: string, got: seq<Option<nat>>) {
    forall k :: 0 <= k < |got| && got[k].Some? ==> got[k].value < |seats| && IsFreeSeatOf(seats[got[k].value], tn)
  }

  /** Every successful request's seat is booked by that request's user in `final`. */
  ghost predicate GotBookedBy(final: seq<Seat>, got: seq<Option<nat>>, users: seq<Accounts.UserId>) {
    |got| == |users| &&
    forall k :: 0 <= k < |got| && got[k].Some? ==>
      got[k].value < |final| && final[got[k].value].isBooked && final[got[k].value].bookedBy == Some(users[k])
  }

  /** No two successful requests got the same seat. */
  ghost predicate GotDistinct(got: seq<Option<nat>>) {
    forall k, l :: 0 <= k < l < |got| && got[k].Some? && got[l].Some? ==> got[k].value != got[l].value
  }

  /** Exclusivity: when requests arrive on a train with F free seats, exactly the first F of
      them succeed; each gets a seat of that train that was free beforehand and ends up booked
      by that request's user; no two requests get the same seat; and the free count falls by
      one per success. */
  lemma Exclusivity(seats: seq<Seat>, tn: string, users: seq<Accounts.UserId>)
    ensures var (final, got) := ClaimRun(seats, tn, users);
      && FirstSucceed(got, FreeCount(seats, tn))
      && GotFreeSeats(seats, tn, got)
      && GotBookedBy(final, got, users)
      && GotDistinct(got)
      && FreeCount(final, tn) == if |users| <= FreeCount(seats, tn) then FreeCount(seats, tn) - |users| else 0
  {
    RunOutcomes(seats, tn, users);
    RunFreeCount(seats, tn, users);
    RunFree(seats, tn, users);
    RunBooked(seats, tn, users);
    RunDistinct(seats, tn, users);
  }

  /** One request lowers the free count by one when there is a free seat. */
  lemma ServeCounts(seats: seq<Seat>, tn: string, user: Accounts.UserId)
    ensures FreeCount(Serve(seats, tn, user), tn)
         == if FreeCount(seats, tn) > 0 then FreeCount(seats, tn) - 1 else 0
  {
    if FirstFree(seats, tn).Some? {
      ClaimCounts(seats, FirstFree(seats, tn).value, user, tn);
    }
  }

  /** The first F requests succeed and the rest are refused. */
  lemma {:induction false} RunOutcomes(seats: seq<Seat>, tn: string, users: seq<Accounts.UserId>)
    ensures FirstSucceed(ClaimRun(seats, tn, users).1, FreeCount(seats, tn))
    decreases |users|
  {
    if users != [] {
      var next := Serve(seats, tn, users[0]);
      RunHead(seats, tn, users);
      ServeCounts(seats, tn, users[0]);
      RunOutcomes(next, tn, users[1..]);
    }
  }

  /** The free count drops by one per success. */
  lemma {:induction false} RunFreeCount(seats: seq<Seat>, tn: string, users: seq<Accounts.UserId>)
    ensures FreeCount(ClaimRun(seats, tn, users).0, tn)
         == if |users| <= FreeCount(seats, tn) then FreeCount(seats, tn) - |users| else 0
    decreases |users|
  {
    if users != [] {
      ServeCounts(seats, tn, users[0]);
      RunFreeCount(Serve(seats, tn, users[0]), tn, users[1..]);
    }
  }

  /** Every seat free after a request was free before it, and is not the one it took. */
  lemma ServeOnlyBooks(seats: seq<Seat>, tn: string, user: Accounts.UserId)
    ensures forall j :: 0 <= j < |seats| && IsFreeSeatOf(Serve(seats, tn, user)[j], tn) ==>
      IsFreeSeatOf(seats[j], tn) && FirstFree(seats, tn) != Some(j)
  {
    if FirstFree(seats, tn).Some? {
      ClaimOnlyBooks(seats, FirstFree(seats, tn).value, user, tn);
    }
  }

  /** Every successful request got a seat of the train that was free beforehand. */
  lemma {:induction false} RunFree(seats: seq<Seat>, tn: string, users: seq<Accounts.UserId>)
    ensures GotFreeSeats(seats, tn, ClaimRun(seats, tn, users).1)
    decreases |users|
  {
    if users != [] {
      var next := Serve(seats, tn, users[0]);
      RunHead(seats, tn, users);
      ServeOnlyBooks(seats, tn, users[0]);
      RunFree(next, tn, users[1..]);
    }
  }

  /** Every successful request's seat ends up booked by that request's user. */
  lemma {:induction false} RunBooked(seats: seq<Seat>, tn: string, users: seq<Accounts.UserId>)
    ensures GotBookedBy(ClaimRun(seats, tn, users).0, ClaimRun(seats, tn, users).1, users)
    decreases |users|
  {
    if users != [] {
      var next := Serve(seats, tn, users[0]);
      RunHead(seats, tn, users);
      RunBooked(next, tn, users[1..]);
      if FirstFree(seats, tn).Some? {
        ClaimRunKeepsBooked(next, tn, users[1..], FirstFree(seats, tn).value);
      }
    }
  }

  /** No seat is handed out twice. */
  lemma {:induction false} RunDistinct(seats: seq<Seat>, tn: string, users: seq<Accounts.UserId>)
    ensures GotDistinct(ClaimRun(seats, tn, users).1)
    decreases |users|
  {
    if users != [] {
      var next := Serve(seats, tn, users[0]);
      var got := ClaimRun(seats, tn, users).1;
      var rest := ClaimRun(next, tn, users[1..]).1;
      RunHead(seats, tn, users);
      ServeOnlyBooks(seats, tn, users[0]);
      RunDistinct(next, tn, users[1..]);
      RunFree(next, tn, users[1..]);
      forall l | 1 <= l < |got| && got[l].Some? ensures got[0] != Some(got[l].value) {
        assert got[l] == rest[l - 1];
      }
    }
  }

  /** A seat that is booked stays booked, with the same occupant, through later requests. */
  lemma {:induction false} ClaimRunKeepsBooked(seats: seq<Seat>, tn: string, users: seq<Accounts.UserId>, j: nat)
    requires j < |seats| && seats[j].isBooked
    ensures ClaimRun(seats, tn, users).0[j] == seats[j]
    decreases |users|
  {
    if users != [] {
      ClaimRunKeepsBooked(Serve(seats, tn, users[0]), tn, users[1..], j);
    }
  }

  // ---------------------------------------------------------------------------
  // Seat provisioning (Train.create_seats / Train.save)
  // ---------------------------------------------------------------------------

  /** How many seats `range(1, total_seats + 1)` produces. */
  function SeatsToCreate(t: Train): nat {
    if t.totalSeats > 0 then t.totalSeats else 0
  }

  /** The seats `create_seats` bulk-creates for train `tn`: `n` free seats numbered "1" to
      "n", with the next `n` primary keys. */
  function NewSeats(tn: string, n: nat, firstId: nat): (r: seq<Seat>)
    ensures |r| == n
    ensures forall k :: 0 <= k < n ==> r[k] == Seat(firstId + k, Text.NatToDecimal(k + 1), tn, false, None)
  {
    if n == 0 then [] else NewSeats(tn, n - 1, firstId) + [Seat(firstId + n - 1, Text.NatToDecimal(n), tn, false, None)]
  }

  /** The seats of `NewSeats` all belong to `tn`, are all free, and carry the numbers 1 to n,
      each once. */
  lemma NewSeatsShape(tn: string, n: nat, firstId: nat, other: string)
    requires other != tn
    ensures SeatCount(NewSeats(tn, n, firstId), tn) == n
    ensures FreeCount(NewSeats(tn, n, firstId), tn) == n
    ensures SeatCount(NewSeats(tn, n, firstId), other) == 0
    ensures forall k :: 0 <= k < n ==> Text.DecimalToNat(NewSeats(tn, n, firstId)[k].seatNo) == k + 1
    ensures forall k, l :: 0 <= k < l < n ==> NewSeats(tn, n, firstId)[k].seatNo != NewSeats(tn, n, firstId)[l].seatNo
  {
    var r := NewSeats(tn, n, firstId);
    NewSeatsCounts(tn, n, firstId, other);
    forall k | 0 <= k < n ensures Text.DecimalToNat(r[k].seatNo) == k + 1 {
      Text.DecimalRoundTrip(k + 1);
    }
    forall k, l | 0 <= k < l < n ensures r[k].seatNo != r[l].seatNo {
      Text.DecimalInjective(k + 1, l + 1);
    }
  }

  /** The counting half of `NewSeatsShape`, by induction on n. */
  lemma {:induction false} NewSeatsCounts(tn: string, n: nat, firstId: nat, other: string)
    requires other != tn
    ensures SeatCount(NewSeats(tn, n, firstId), tn) == n
    ensures FreeCount(NewSeats(tn, n, firstId), tn) == n
    ensures SeatCount(NewSeats(tn, n, firstId), other) == 0
  {
    if n > 0 {
      var prefix := NewSeats(tn, n - 1, firstId);
      var last := Seat(firstId + n - 1, Text.NatToDecimal(n), tn, false, None);
      assert NewSeats(tn, n, firstId) == prefix + [last];
      NewSeatsCounts(tn, n - 1, firstId, other);
      CountsAppend(prefix, [last], tn);
      CountsAppend(prefix, [last], other);
      assert [last][1..] == [];
    }
  }

  /** `train.seats.all().delete()`: the seats of every other train, in order. */
  function OtherTrainsSeats(seats: seq<Seat>, tn: string): (r: seq<Seat>)
    ensures forall s :: s in r <==> s in seats && s.train != tn
  {
    if seats == [] then []
    else (if seats[0].train != tn then [seats[0]] else []) + OtherTrainsSeats(seats[1..], tn)
  }

  /** The primary keys of the seats of train `tn`. */
  function SeatIdsOf(seats: seq<Seat>, tn: string): set<nat> {
    set s | s in seats && s.train == tn :: s.id
  }

  /** The bookings that survive the deletion of the seats with keys `removed`: deleting a
      seat cascades to its bookings. */
  function SurvivingBookings(bookings: seq<Booking>, removed: set<nat>): (r: seq<Booking>)
    ensures forall b :: b in r <==> b in bookings && b.seat !in removed
  {
    if bookings == [] then []
    else (if bookings[0].seat !in removed then [bookings[0]] else []) + SurvivingBookings(bookings[1..], removed)
  }

  /** Whether `Train.save` provisions seats: a positive seat total and no seats yet. */
  predicate NeedsSeats(seats: seq<Seat>, t: Train) {
    t.totalSeats > 0 && SeatCount(seats, t.trainNo) == 0
  }

  /** The train instance after `create_seats` has set its stored availability. */
  function Provisioned(t: Train): Train {
    t.(availableSeats := t.totalSeats)
  }

  /** The tables after the deletion and the bulk insert of `create_seats`, before its final
      `save`. */
  function ReplaceSeats(db: Tables, t: Train): (r: Tables)
    ensures r.trains == db.trains && r.nextBookingId == db.nextBookingId
    ensures r.nextSeatId == db.nextSeatId + SeatsToCreate(t)
    ensures |r.seats| == |OtherTrainsSeats(db.seats, t.trainNo)| + SeatsToCreate(t)
  {
    var n := SeatsToCreate(t);
    db.(seats := OtherTrainsSeats(db.seats, t.trainNo) + NewSeats(t.trainNo, n, db.nextSeatId),
        bookings := SurvivingBookings(db.bookings, SeatIdsOf(db.seats, t.trainNo)),
        nextSeatId := db.nextSeatId + n)
  }

  /** The tables after `create_seats` on train `t`, its final nested `save` included. */
  function CreateSeats(db: Tables, t: Train): (r: Tables)
    ensures r.trains.Keys == db.trains.Keys + {t.trainNo}
    ensures r.trains[t.trainNo].availableSeats == t.totalSeats
    ensures r.seats == ReplaceSeats(db, t).seats && r.bookings == ReplaceSeats(db, t).bookings
  {
    var r := ReplaceSeats(db, t);
    r.(trains := r.trains[t.trainNo := Provisioned(t)])
  }

  /** What the deletion and insert keep: exactly the other trains' seats and exactly the
      bookings of seats that were not deleted; and `create_seats` as a whole touches no other
      train's row. */
  lemma ReplaceSeatsContents(db: Tables, t: Train)
    ensures forall s :: s in ReplaceSeats(db, t).seats && s.train != t.trainNo <==> s in db.seats && s.train != t.trainNo
    ensures forall b :: b in ReplaceSeats(db, t).bookings <==> b in db.bookings && b.seat !in SeatIdsOf(db.seats, t.trainNo)
    ensures forall tn :: tn in db.trains && tn != t.trainNo ==> CreateSeats(db, t).trains[tn] == db.trains[tn]
  {
    var kept := OtherTrainsSeats(db.seats, t.trainNo);
    var added := NewSeats(t.trainNo, SeatsToCreate(t), db.nextSeatId);
    assert ReplaceSeats(db, t).seats == kept + added;
  }

  /** The tables after `Train.save` of instance `t`: the row is written, and seats are
      provisioned when the train needs them. */
  function SaveTrain(db: Tables, t: Train): (r: Tables)
    ensures r.trains.Keys == db.trains.Keys + {t.trainNo}
    ensures r.nextBookingId == db.nextBookingId
    ensures SeatCount(db.seats, t.trainNo) > 0 || t.totalSeats <= 0 ==>
      r.seats == db.seats && r.bookings == db.bookings && r.trains[t.trainNo] == t
  {
    var written := db.(trains := db.trains[t.trainNo := t]);
    if NeedsSeats(db.seats, t) then CreateSeats(written, t) else written
  }

  /** The in-memory train instance after `Train.save`: provisioning also updates it. */
  function SavedInstance(db: Tables, t: Train): (r: Train)
    ensures r.trainNo == t.trainNo && r.source == t.source && r.destination == t.destination
    ensures r.totalSeats == t.totalSeats
    ensures r.availableSeats == if NeedsSeats(db.seats, t) then t.totalSeats else t.availableSeats
  {
    if NeedsSeats(db.seats, t) then Provisioned(t) else t
  }

  /** After `create_seats`, the train has exactly `total_seats` seats (none when the total is
      not positive), all free, and the seat count of every other train is unchanged. */
  lemma {:induction false} CreateSeatsCounts(db: Tables, t: Train, other: string)
    requires other != t.trainNo
    ensures SeatCount(ReplaceSeats(db, t).seats, t.trainNo) == SeatsToCreate(t)
    ensures FreeCount(ReplaceSeats(db, t).seats, t.trainNo) == SeatsToCreate(t)
    ensures SeatCount(ReplaceSeats(db, t).seats, other) == SeatCount(db.seats, other)
    ensures FreeCount(ReplaceSeats(db, t).seats, other) == FreeCount(db.seats, other)
  {
    var tn := t.trainNo;
    var n := SeatsToCreate(t);
    var kept := OtherTrainsSeats(db.seats, tn);
    CountsAppend(kept, NewSeats(tn, n, db.nextSeatId), tn);
    CountsAppend(kept, NewSeats(tn, n, db.nextSeatId), other);
    NewSeatsShape(tn, n, db.nextSeatId, other);
    OtherTrainsSeatsCounts(db.seats, tn, other);
  }

  /** Deleting one train's seats leaves none of them and every other train's counts alone. */
  lemma {:induction false} OtherTrainsSeatsCounts(seats: seq<Seat>, tn: string, other: string)
    requires other != tn
    ensures SeatCount(OtherTrainsSeats(seats, tn), tn) == 0
    ensures SeatCount(OtherTrainsSeats(seats, tn), other) == SeatCount(seats, other)
    ensures FreeCount(OtherTrainsSeats(seats, tn), tn) == 0
    ensures FreeCount(OtherTrainsSeats(seats, tn), other) == FreeCount(seats, other)
  {
    if seats != [] {
      var head := if seats[0].train != tn then [seats[0]] else [];
      assert OtherTrainsSeats(seats, tn) == head + OtherTrainsSeats(seats[1..], tn);
      OtherTrainsSeatsCounts(seats[1..], tn, other);
      CountsAppend(head, OtherTrainsSeats(seats[1..], tn), tn);
      CountsAppend(head, OtherTrainsSeats(seats[1..], tn), other);
      if head != [] {
        assert head[1..] == [];
      }
    }
  }

  /** `Train.save` provisions at most once: the nested `save` inside `create_seats` finds the
      new seats and stops, and saving the returned instance again changes nothing. */
  lemma SaveTrainIdempotent(db: Tables, t: Train)
    ensures !NeedsSeats(SaveTrain(db, t).seats, SavedInstance(db, t))
    ensures SaveTrain(SaveTrain(db, t), SavedInstance(db, t)) == SaveTrain(db, t)
  {
    var r := SaveTrain(db, t);
    if NeedsSeats(db.seats, t) {
      var written := db.(trains := db.trains[t.trainNo := t]);
      CreateSeatsCounts(written, t, t.trainNo + "'");
      assert r.trains[t.trainNo] == Provisioned(t);
      assert r.trains[t.trainNo := Provisioned(t)] == r.trains;
    } else {
      assert r.trains[t.trainNo := t] == r.trains;
    }
  }

  /** A train saved for the first time with a positive seat total gets exactly that many
      seats, all free, and its stored availability equals the total. */
  lemma FirstSaveProvisions(db: Tables, t: Train)
    requires t.totalSeats >= 1
    requires SeatCount(db.seats, t.trainNo) == 0
    ensures SeatCount(SaveTrain(db, t).seats, t.trainNo) == t.totalSeats
    ensures FreeCount(SaveTrain(db, t).seats, t.trainNo) == t.totalSeats
    ensures SaveTrain(db, t).trains[t.trainNo].availableSeats == t.totalSeats
    ensures SaveTrain(db, t).bookings == db.bookings
  {
    var written := db.(trains := db.trains[t.trainNo := t]);
    CreateSeatsCounts(written, t, t.trainNo + "'");
    assert SeatIdsOf(db.seats, t.trainNo) == {};
    SurvivingNothingRemoved(db.bookings);
  }

  /** A newly added train with n seats sells exactly n: of n + 1 booking requests the first
      n succeed, with n different seats, and the last is refused because the train is full. */
  lemma FreshTrainSellsOut(db: Tables, t: Train, users: seq<Accounts.UserId>)
    requires t.totalSeats >= 1 && SeatCount(db.seats, t.trainNo) == 0
    requires |users| == t.totalSeats + 1
    ensures var (final, got) := ClaimRun(SaveTrain(db, t).seats, t.trainNo, users);
      && (forall k :: 0 <= k < t.totalSeats ==> got[k].Some?)
      && got[t.totalSeats].None?
      && GotDistinct(got)
      && FreeCount(final, t.trainNo) == 0
  {
    FirstSaveProvisions(db, t);
    SellsOut(SaveTrain(db, t).seats, t.trainNo, users);
  }

  /** On a newly added train, the k-th request (counting from 0) gets the seat numbered
      k + 1: seats are handed out in the order they were created. */
  lemma FreshTrainSeatOrder(db: Tables, t: Train, users: seq<Accounts.UserId>)
    requires t.totalSeats >= 1 && SeatCount(db.seats, t.trainNo) == 0
    ensures var seats := SaveTrain(db, t).seats;
      var got := ClaimRun(seats, t.trainNo, users).1;
      forall k :: 0 <= k < |users| && k < t.totalSeats ==>
        got[k].Some? && got[k].value < |seats| && seats[got[k].value].seatNo == Text.NatToDecimal(k + 1)
  {
    var tn := t.trainNo;
    var kept := OtherTrainsSeats(db.seats, tn);
    var added := NewSeats(tn, t.totalSeats, db.nextSeatId);
    var written := db.(trains := db.trains[tn := t]);
    assert NeedsSeats(db.seats, t);
    assert SaveTrain(db, t) == CreateSeats(written, t);
    assert ReplaceSeats(written, t).seats == kept + added;
    AppendedRunOrder(kept, added, tn, users);
  }

  /** Requests on a train whose free seats are the seats `added` after all of `kept` get the
      added seats in order. */
  lemma AppendedRunOrder(kept: seq<Seat>, added: seq<Seat>, tn: string, users: seq<Accounts.UserId>)
    requires forall s :: s in kept ==> s.train != tn
    requires forall k :: 0 <= k < |added| ==> IsFreeSeatOf(added[k], tn)
    ensures var got := ClaimRun(kept + added, tn, users).1;
      forall k :: 0 <= k < |users| && k < |added| ==>
        got[k].Some? && got[k].value < |kept + added| && (kept + added)[got[k].value] == added[k]
  {
    var seats := kept + added;
    AppendedFreeSeats(kept, added, tn);
    RunInOrder(seats, tn, users, |kept|, |added|);
    var got := ClaimRun(seats, tn, users).1;
    assert |got| == |users| && GotInOrder(got, |kept|, |added|);
    forall k | 0 <= k < |users| && k < |added|
      ensures got[k].Some? && got[k].value < |seats| && seats[got[k].value] == added[k]
    {
      assert got[k] == Some(|kept| + k);
      assert seats[|kept| + k] == added[k];
    }
  }

  /** Other trains' seats followed by free seats of train `tn`: the free seats of `tn` are
      exactly the appended ones. */
  lemma AppendedFreeSeats(kept: seq<Seat>, added: seq<Seat>, tn: string)
    requires forall s :: s in kept ==> s.train != tn
    requires forall k :: 0 <= k < |added| ==> IsFreeSeatOf(added[k], tn)
    ensures forall j :: 0 <= j < |kept + added| ==> (IsFreeSeatOf((kept + added)[j], tn) <==> |kept| <= j)
  {
    forall j | 0 <= j < |kept + added| ensures IsFreeSeatOf((kept + added)[j], tn) <==> |kept| <= j {
      if j < |kept| {
        assert (kept + added)[j] == kept[j] && kept[j] in kept;
      } else {
        assert (kept + added)[j] == added[j - |kept|];
      }
    }
  }

  /** The first m requests in `got` got the positions p, p + 1, ... in order. */
  ghost predicate GotInOrder(got: seq<Option<nat>>, p: nat, m: nat) {
    forall k :: 0 <= k < |got| && k < m ==> got[k] == Some(p + k)
  }

  /** When a train's free seats are exactly the positions p to p + m - 1, successive
      requests get them in that order. */
  lemma {:induction false} RunInOrder(seats: seq<Seat>, tn: string, users: seq<Accounts.UserId>, p: nat, m: nat)
    requires p + m <= |seats|
    requires forall j :: 0 <= j < |seats| ==> (IsFreeSeatOf(seats[j], tn) <==> p <= j < p + m)
    ensures GotInOrder(ClaimRun(seats, tn, users).1, p, m)
    decreases |users|
  {
    if users != [] && m > 0 {
      var next := Serve(seats, tn, users[0]);
      ServeAt(seats, tn, users[0], p, m);
      RunInOrder(next, tn, users[1..], p + 1, m - 1);
      RunHead(seats, tn, users);
      InOrderStep(ClaimRun(seats, tn, users).1, ClaimRun(next, tn, users[1..]).1, p, m);
    }
  }

  /** One request on a train whose free seats are the positions p to p + m - 1, with m > 0,
      gets position p and leaves the positions p + 1 to p + m - 1 free. */
  lemma ServeAt(seats: seq<Seat>, tn: string, user: Accounts.UserId, p: nat, m: nat)
    requires 0 < m && p + m <= |seats|
    requires forall j :: 0 <= j < |seats| ==> (IsFreeSeatOf(seats[j], tn) <==> p <= j < p + m)
    ensures FirstFree(seats, tn) == Some(p)
    ensures forall j :: 0 <= j < |seats| ==>
      (IsFreeSeatOf(Serve(seats, tn, user)[j], tn) <==> p + 1 <= j < p + 1 + (m - 1))
  {
    FirstFreeAt(seats, tn, p, m);
    assert Serve(seats, tn, user) == Claim(seats, p, user);
    ClaimFreeSeats(seats, p, user, tn);
  }

  /** Outcomes in order: a first outcome at p followed by outcomes in order from p + 1. */
  lemma InOrderStep(got: seq<Option<nat>>, rest: seq<Option<nat>>, p: nat, m: nat)
    requires 0 < m && |got| == |rest| + 1 && got[0] == Some(p)
    requires forall k :: 1 <= k < |got| ==> got[k] == rest[k - 1]
    requires GotInOrder(rest, p + 1, m - 1)
    ensures GotInOrder(got, p, m)
  {
    forall k | 1 <= k < |got| && k < m ensures got[k] == Some(p + k) {
      assert got[k] == rest[k - 1];
    }
  }

  /** The first free seat of a train whose free seats are the positions p to p + m - 1, with
      m > 0, is at p. */
  lemma FirstFreeAt(seats: seq<Seat>, tn: string, p: nat, m: nat)
    requires 0 < m && p + m <= |seats|
    requires forall j :: 0 <= j < |seats| ==> (IsFreeSeatOf(seats[j], tn) <==> p <= j < p + m)
    ensures FirstFree(seats, tn) == Some(p)
  {
    assert IsFreeSeatOf(seats[p], tn);
    var r := FirstFree(seats, tn);
    assert r.Some?;
    assert !(r.value > p);
  }

  /** After a claim, the free seats of a train are its free seats before, less the claimed
      one. */
  lemma ClaimFreeSeats(seats: seq<Seat>, i: nat, user: Accounts.UserId, tn: string)
    requires i < |seats|
    ensures forall j :: 0 <= j < |seats| ==>
      (IsFreeSeatOf(Claim(seats, i, user)[j], tn) <==> j != i && IsFreeSeatOf(seats[j], tn))
  {
  }

  /** One request more than there are free seats: all but the last succeed. */
  lemma SellsOut(seats: seq<Seat>, tn: string, users: seq<Accounts.UserId>)
    requires |users| == FreeCount(seats, tn) + 1
    ensures var (final, got) := ClaimRun(seats, tn, users);
      && (forall k :: 0 <= k < FreeCount(seats, tn) ==> got[k].Some?)
      && got[FreeCount(seats, tn)].None?
      && GotDistinct(got)
      && FreeCount(final, tn) == 0
  {
    Exclusivity(seats, tn, users);
  }

  lemma {:induction false} SurvivingNothingRemoved(bookings: seq<Booking>)
    ensures SurvivingBookings(bookings, {}) == bookings
  {
    if bookings != [] {
      SurvivingNothingRemoved(bookings[1..]);
    }
  }

  // ---------------------------------------------------------------------------
  // Booking a seat (SeatBookingView.post, successful path)
  // ---------------------------------------------------------------------------

  /** The tables after the seat at position `i` is booked by `user`: the seat is marked and
      one booking with the next key is appended to the journal. */
  function ClaimSeat(db: Tables, i: nat, user: Accounts.UserId, now: int): (r: Tables)
    requires i < |db.seats|
    ensures r.trains == db.trains && r.nextSeatId == db.nextSeatId
    ensures r.nextBookingId == db.nextBookingId + 1
    ensures |r.bookings| == |db.bookings| + 1 && r.bookings[..|db.bookings|] == db.bookings
    ensures r.bookings[|db.bookings|] == Booking(db.nextBookingId, user, db.seats[i].train, db.seats[i].id, now)
  {
    db.(seats := Claim(db.seats, i, user),
        bookings := db.bookings + [Booking(db.nextBookingId, user, db.seats[i].train, db.seats[i].id, now)],
        nextBookingId := db.nextBookingId + 1)
  }

  /** Booking the free seat at position `i` marks that seat and no other, appends exactly one
      booking, leaves the trains alone, and lowers the free count of the seat's train by one. */
  lemma ClaimSeatWrites(db: Tables, i: nat, user: Accounts.UserId, now: int)
    requires i < |db.seats| && !db.seats[i].isBooked
    ensures var r := ClaimSeat(db, i, user, now);
      && |r.seats| == |db.seats|
      && r.seats[i] == db.seats[i].(isBooked := true, bookedBy := Some(user))
      && (forall j :: 0 <= j < |r.seats| && j != i ==> r.seats[j] == db.seats[j])
      && r.bookings == db.bookings + [Booking(db.nextBookingId, user, db.seats[i].train, db.seats[i].id, now)]
      && r.trains == db.trains
      && FreeCount(r.seats, db.seats[i].train) == FreeCount(db.seats, db.seats[i].train) - 1
  {
    ClaimCounts(db.seats, i, user, db.seats[i].train);
  }

  // ---------------------------------------------------------------------------
  // Lookups (BookingDetailsView.get)
  // ---------------------------------------------------------------------------

  /** `Booking.objects.get(id=id, user=user)`, or `None` for `DoesNotExist`. */
  function FindBooking(bookings: seq<Booking>, id: nat, user: Accounts.UserId): (r: Option<Booking>)
    ensures r.Some? ==> r.value in bookings && r.value.id == id && r.value.user == user
    ensures r.None? ==> forall b :: b in bookings ==> !(b.id == id && b.user == user)
  {
    if bookings == [] then None
    else if bookings[0].id == id && bookings[0].user == user then Some(bookings[0])
    else FindBooking(bookings[1..], id, user)
  }

  /** The seat row with primary key `id`, if any. */
  function FindSeat(seats: seq<Seat>, id: nat): (r: Option<Seat>)
    ensures r.Some? ==> r.value in seats && r.value.id == id
    ensures r.None? ==> forall s :: s in seats ==> s.id != id
  {
    if seats == [] then None
    else if seats[0].id == id then Some(seats[0])
    else FindSeat(seats[1..], id)
  }
}
