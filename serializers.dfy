/** The request validation of book/serializers.py: the registration serializer (field rules,
    the password confirmation and the user it creates), the train serializer's field rules,
    and the availability the train-availability serializer reports. */
module Serializers {
  import opened Wrappers
  import Accounts
  import opened Ledger
  import Integrity

  /** One complaint about one input field. */
  datatype FieldError =
    | Required              // the field is absent
    | Blank                 // the field is the empty string
    | TooLong(limit: nat)   // more characters than `max_length`
    | TooShort(limit: nat)  // fewer characters than the minimum length
    | NotUnique             // the value is already the key of a stored row
    | BelowMinimum(least: int)
    | PasswordsMustMatch    // the object-level check of `validate`

  /** The errors of a rejected input, by field name; fields without complaints are absent. */
  type Errors = map<string, set<FieldError>>

  /** Keeps the fields that have complaints. */
  function Report(entries: map<string, set<FieldError>>): (errs: Errors)
    ensures forall f :: f in errs <==> f in entries && entries[f] != {}
    ensures forall f :: f in errs ==> errs[f] == entries[f]
  {
    map f | f in entries && entries[f] != {} :: entries[f]
  }

  /** The presence checks of a required text field that may not be blank. */
  function PresenceErrors(v: Option<string>): (errs: set<FieldError>)
    ensures errs == {} <==> v.Some? && v.value != ""
  {
    if v.None? then {Required} else if v.value == "" then {Blank} else {}
  }

  /** The checks of a required, non-blank text field of at most `maxLength` and at least
      `minLength` characters whose value may not be one of `taken`. All validators of a
      present, non-blank value report. */
  function TextErrors(v: Option<string>, maxLength: nat, minLength: nat, taken: set<string>): (errs: set<FieldError>)
    ensures errs == {} <==>
      v.Some? && v.value != "" && minLength <= |v.value| <= maxLength && v.value !in taken
    ensures v.None? ==> errs == {Required}
    ensures v.Some? && v.value != "" ==>
      && (TooLong(maxLength) in errs <==> |v.value| > maxLength)
      && (TooShort(minLength) in errs <==> |v.value| < minLength)
      && (NotUnique in errs <==> v.value in taken)
  {
    if v.None? || v.value == "" then PresenceErrors(v)
    else
      (if |v.value| > maxLength then {TooLong(maxLength)} else {})
      + (if |v.value| < minLength then {TooShort(minLength)} else {})
      + (if v.value in taken then {NotUnique} else {})
  }

  // ---------------------------------------------------------------------------
  // Registration (UserRegistrationSerializer)
  // ---------------------------------------------------------------------------

  /** The request body of a registration; `None` marks an absent key. */
  datatype RegistrationInput = RegistrationInput(
    username: Option<string>,
    name: Option<string>,
    password: Option<string>,
    confirmPassword: Option<string>)

  /** The validated data, `confirm_password` dropped. */
  datatype Registration = Registration(username: string, name: string, password: string)

  /** The username column: 4 to 50 characters, unique. */
  predicate AcceptableUsername(u: Option<string>, taken: set<string>) {
    u.Some? && 4 <= |u.value| <= 50 && u.value !in taken
  }

  /** The name column: present, non-blank, at most 100 characters. */
  predicate AcceptableName(n: Option<string>) {
    n.Some? && 1 <= |n.value| <= 100
  }

  /** An optional text value that is there and not empty: what Python's truthiness test on a
      request parameter accepts. */
  predicate Given(p: Option<string>) {
    p.Some? && p.value != ""
  }

  /** `is_valid()` of the registration serializer against the usernames already `taken`:
      the field checks first, then `validate`'s password confirmation. */
  function ValidateRegistration(input: RegistrationInput, taken: set<string>): (r: Result<Registration, Errors>)
    ensures r.Success? <==>
      && AcceptableUsername(input.username, taken) && AcceptableName(input.name)
      && Given(input.password) && Given(input.confirmPassword)
      && input.password == input.confirmPassword
    ensures r.Success? ==>
      r.value == Registration(input.username.value, input.name.value, input.password.value)
    ensures AcceptableUsername(input.username, taken) && AcceptableName(input.name)
      && Given(input.password) && Given(input.confirmPassword) && input.password != input.confirmPassword
      ==> r == Failure(map["confirm_password" := {PasswordsMustMatch}])
    ensures input.username.None? ==> r.Failure? && "username" in r.error && r.error["username"] == {Required}
    ensures r.Failure? ==> r.error != map[] && forall f :: f in r.error ==> r.error[f] != {}
  {
    var errs := Report(map[
      "username" := TextErrors(input.username, 50, 4, taken),
      "name" := TextErrors(input.name, 100, 0, {}),
      "password" := PresenceErrors(input.password),
      "confirm_password" := PresenceErrors(input.confirmPassword)]);
    if errs != map[] then
      assert !AcceptableUsername(input.username, taken) || !AcceptableName(input.name)
        || !Given(input.password) || !Given(input.confirmPassword) by {
        var f :| f in errs;
      }
      Failure(errs)
    else
      assert "username" !in errs && "name" !in errs && "password" !in errs && "confirm_password" !in errs;
      if input.password.value != input.confirmPassword.value then
        Failure(map["confirm_password" := {PasswordsMustMatch}])
      else
        Success(Registration(input.username.value, input.name.value, input.password.value))
  }

  /** The extra fields `create` passes to `create_user`: the name alone. */
  function RegistrationFields(reg: Registration): Accounts.ExtraFields {
    Accounts.ExtraFields(Some(reg.name), None, None, None, None)
  }

  /** Registration as the view runs it: validate, then `create`, which drops
      `confirm_password` and creates the user from exactly the validated username, password
      and name. A registered user is an active, ordinary user. */
  method Register(table: Accounts.UserTable, input: RegistrationInput) returns (r: Result<Accounts.User, Errors>)
    requires table.Valid()
    modifies table
    ensures table.Valid()
    ensures ValidateRegistration(input, old(table.Usernames())).Failure? ==>
      && r == Failure(ValidateRegistration(input, old(table.Usernames())).error)
      && table.users == old(table.users) && table.nextUserId == old(table.nextUserId)
    ensures ValidateRegistration(input, old(table.Usernames())).Success? ==>
      var reg := ValidateRegistration(input, old(table.Usernames())).value;
      && r == Success(Accounts.NewUser(old(table.nextUserId), reg.username, Some(reg.password), RegistrationFields(reg)))
      && table.users == old(table.users) + [r.value]
      && table.nextUserId == old(table.nextUserId) + 1
    ensures r.Success? ==>
      && r.value.username == input.username.value && r.value.name == input.name.value
      && r.value.password == input.password
      && r.value.isActive && !r.value.isAdmin && !r.value.isStaff && !r.value.isSuperuser
  {
    var v := ValidateRegistration(input, table.Usernames());
    if v.Failure? {
      return Failure(v.error);
    }
    var reg := v.value;
    var created := table.CreateUser(Some(reg.username), Some(reg.password), RegistrationFields(reg));
    match created
    case Success(u) =>
      r := Success(u);
    case Failure(_) =>
      assert false;
  }

  // ---------------------------------------------------------------------------
  // Train input (TrainSerializer)
  // ---------------------------------------------------------------------------

  /** The request body of an add-train request; `None` marks an absent key. */
  datatype TrainInput = TrainInput(
    trainNo: Option<string>,
    source: Option<string>,
    destination: Option<string>,
    totalSeats: Option<int>)

  /** `train_no`: present, non-blank, at most 20 characters, not already a train's key. */
  predicate AcceptableTrainNo(v: Option<string>, existing: set<string>) {
    v.Some? && 1 <= |v.value| <= 20 && v.value !in existing
  }

  /** `source` and `destination`: present, non-blank, at most 100 characters. */
  predicate AcceptablePlace(v: Option<string>) {
    v.Some? && 1 <= |v.value| <= 100
  }

  function SeatTotalErrors(v: Option<int>): (errs: set<FieldError>)
    ensures errs == {} <==> v.Some? && v.value >= 1
  {
    if v.None? then {Required} else if v.value < 1 then {BelowMinimum(1)} else {}
  }

  /** `is_valid()` of the train serializer against the train numbers that exist. An accepted
      train has the model's default stored availability, 0. */
  function ValidateTrain(input: TrainInput, existing: set<string>): (r: Result<Train, Errors>)
    ensures r.Success? <==>
      && AcceptableTrainNo(input.trainNo, existing)
      && AcceptablePlace(input.source) && AcceptablePlace(input.destination)
      && input.totalSeats.Some? && input.totalSeats.value >= 1
    ensures r.Success? ==>
      r.value == Train(input.trainNo.value, input.source.value, input.destination.value, input.totalSeats.value, 0)
    ensures input.totalSeats.Some? && input.totalSeats.value < 1 ==>
      r.Failure? && "total_seats" in r.error && BelowMinimum(1) in r.error["total_seats"]
    ensures input.trainNo.Some? && input.trainNo.value != "" && input.trainNo.value in existing ==>
      r.Failure? && "train_no" in r.error && NotUnique in r.error["train_no"]
    ensures r.Failure? ==> r.error != map[] && forall f :: f in r.error ==> r.error[f] != {}
  {
    var errs := Report(map[
      "train_no" := TextErrors(input.trainNo, 20, 0, existing),
      "source" := TextErrors(input.source, 100, 0, {}),
      "destination" := TextErrors(input.destination, 100, 0, {}),
      "total_seats" := SeatTotalErrors(input.totalSeats)]);
    if errs != map[] then
      assert !AcceptableTrainNo(input.trainNo, existing) || !AcceptablePlace(input.source)
        || !AcceptablePlace(input.destination) || input.totalSeats.None? || input.totalSeats.value < 1 by {
        var f :| f in errs;
      }
      Failure(errs)
    else
      assert "train_no" !in errs && "source" !in errs && "destination" !in errs && "total_seats" !in errs;
      Success(Train(input.trainNo.value, input.source.value, input.destination.value, input.totalSeats.value, 0))
  }

  /** A train the serializer accepts is always provisioned when saved: it gets exactly
      `total_seats` seats, all free, its stored availability becomes the total, and no booking
      is touched. */
  lemma AcceptedTrainIsProvisioned(db: Tables, input: TrainInput)
    requires Integrity.Inv(db)
    requires ValidateTrain(input, db.trains.Keys).Success?
    ensures var t := ValidateTrain(input, db.trains.Keys).value;
      && NeedsSeats(db.seats, t)
      && SeatCount(SaveTrain(db, t).seats, t.trainNo) == t.totalSeats
      && FreeCount(SaveTrain(db, t).seats, t.trainNo) == t.totalSeats
      && SaveTrain(db, t).trains[t.trainNo].availableSeats == t.totalSeats
      && SaveTrain(db, t).bookings == db.bookings
  {
    var t := ValidateTrain(input, db.trains.Keys).value;
    forall i | 0 <= i < |db.seats| ensures db.seats[i].train != t.trainNo {
      assert db.seats[i] in db.seats;
    }
    FirstSaveProvisions(db, t);
  }

  // ---------------------------------------------------------------------------
  // Availability (TrainAvailabilitySerializer)
  // ---------------------------------------------------------------------------

  /** One entry of the availability response. */
  datatype AvailabilityRow = AvailabilityRow(
    trainNo: string,
    source: string,
    destination: string,
    totalSeats: int,
    availableSeats: nat)

  /** A train as the availability serializer reports it: its row fields, and as availability
      the number of its seats that are not booked, counted afresh (the stored
      `available_seats` column is not consulted). */
  function AvailabilityOf(seats: seq<Seat>, t: Train): (row: AvailabilityRow)
    ensures row.trainNo == t.trainNo && row.source == t.source && row.destination == t.destination
    ensures row.totalSeats == t.totalSeats
    ensures row.availableSeats <= SeatCount(seats, t.trainNo)
    ensures row.availableSeats == 0 <==> forall i :: 0 <= i < |seats| ==> !IsFreeSeatOf(seats[i], t.trainNo)
  {
    AvailabilityRow(t.trainNo, t.source, t.destination, t.totalSeats, FreeCount(seats, t.trainNo))
  }

  /** Booking a free seat lowers the reported availability of its train by exactly one and
      leaves every other train's alone, while the stored `available_seats` column, which only
      provisioning writes, does not move. */
  lemma AvailabilityAfterBooking(db: Tables, i: nat, user: Accounts.UserId, now: int, t: Train)
    requires i < |db.seats| && !db.seats[i].isBooked
    ensures AvailabilityOf(ClaimSeat(db, i, user, now).seats, t).availableSeats
         == if db.seats[i].train == t.trainNo then AvailabilityOf(db.seats, t).availableSeats - 1
            else AvailabilityOf(db.seats, t).availableSeats
    ensures ClaimSeat(db, i, user, now).trains == db.trains
  {
    ClaimCounts(db.seats, i, user, t.trainNo);
  }

  /** A freshly provisioned train reports all its seats available. */
  lemma ProvisionedTrainFullyAvailable(db: Tables, t: Train)
    requires t.totalSeats >= 1 && SeatCount(db.seats, t.trainNo) == 0
    ensures AvailabilityOf(SaveTrain(db, t).seats, t).availableSeats == t.totalSeats
  {
    FirstSaveProvisions(db, t);
  }
}
