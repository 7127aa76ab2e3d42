# Train seat reservation: a verified model

This project is a Dafny model of the core of a Django REST backend for reserving train seats. It models the parts that decide who gets which seat:

- **Train provisioning.** Saving a train with a positive seat total and no seats creates seats numbered "1" to the total, all free. Re-provisioning first deletes the train's old seats; deleting a seat deletes its bookings by cascade.
- **Seat booking.** A request names a train. The first free seat of that train is marked booked by the requesting user, and one booking row is appended to the journal.
- **Queries.** The route search matches source and destination case-insensitively and reports live seat availability. The booking lookup answers only the booking's owner.
- **Validation and gates.** The registration and train-input serializers, the user manager (`create_user`, `create_superuser` and the `User.save` hook), the administrator check on adding trains, and the admin API-key middleware.

Module layout:

- `Wrappers`: `Option` and `Result`.
- `Text`: ASCII case folding, substring search and the decimal rendering of seat numbers.
- `Accounts`: the user table, as a class `UserTable`.
- `Ledger`: the train, seat and booking rows as values. It also holds the queries and the table contents that each write produces, as functions, with the lemmas about them.
- `Integrity`: the table constraints as one invariant `Inv`, and proofs that every write keeps it.
- `Storage`: the database as a class `Store`. Its methods `Save`, `CreateSeats` and `ClaimSeat` are the model's `Train.save`, `Train.create_seats` and the booking writes. Each is proved to produce exactly the `Ledger` function of the previous tables, and to keep `Inv`.
- `Serializers`: request validation and the availability count.
- `Views`: the add-train, route-search, booking and booking-lookup endpoints, as status code and body.
- `AdminMiddleware`: the API-key gate.

Modelling choices:

- **Seat order.** Seats and bookings are kept in primary-key order. An unordered `.first()` returns the row with the smallest key, so it becomes "the lowest-position free seat". `Integrity.FirstFreeHasLeastKey` proves the two agree.
- **Nested save.** `Train.save` and `Train.create_seats` call each other: `create_seats` ends with a `save`. They are mutually recursive methods whose termination measure proves that the nested save never provisions again.
- **The train instance.** Each method receives the in-memory train instance as a parameter and returns it as it stands afterwards.

Behaviour of the source that the model keeps as written:

- `create_superuser` does not set `is_superuser`. So the `User.save` hook forces `is_admin` only for callers who pass `is_superuser=True` (`Accounts.SuperuserDefaults`).
- The stored `available_seats` column is written only by provisioning. Bookings do not lower it. The availability that the route search reports is counted afresh from the seats (`Serializers.AvailabilityAfterBooking`).
- The 403 response of the admin gate echoes both the presented key and the configured key (`AdminMiddleware.Call`, outcome `Forbidden`).
- The route search's "found" answer (200) returns a list; its "not found" answer (404) carries its text under `message` rather than `error`.
- The migration file gives `total_seats` a default of 0 and has no `available_seats` column. The model follows `book/models.py`.

## Model

| member | source | states |
|---|---|---|
| Text.IContains | book/views.py:109-112 | `icontains` holds exactly when the lower-cased needle occurs at some position of the lower-cased text |
| Text.Contains | book/views.py:109-112 | the text contains the needle exactly when the needle occurs at some position of it |
| Text.CaseBlind | book/views.py:109-112 | lower-casing either argument does not change an `icontains` match |
| Text.NatToDecimal | book/models.py:68 | a seat number is rendered as a non-empty string of decimal digits without leading zeros |
| Text.DecimalRoundTrip | book/models.py:68 | reading a rendered seat number back gives the number |
| Text.DecimalInjective | book/models.py:68 | different seat numbers render as different strings |
| Accounts.SaveAdjust | book/models.py:32-36 | a saved superuser is an administrator; a non-superuser is saved unchanged; only `is_admin` can change |
| Accounts.SuperuserFields | book/models.py:14-18 | `is_admin` and `is_staff` default to true and keep an explicitly passed value; other fields are passed on as given |
| Accounts.NewUser | book/models.py:6-12 | the created row has the given username and password, and the model defaults for fields not passed; superuser implies admin |
| Accounts.UserTable.constructor | book/models.py:20-30 | a new user table is empty, satisfies its invariant and issues keys from the start |
| Accounts.SuperuserDefaults | book/models.py:14-18 | `create_superuser` gives an admin and staff user unless told otherwise; explicit `is_admin=False` holds only without `is_superuser=True`; it never sets `is_superuser` itself |
| Accounts.UserTable.CreateUser | book/models.py:6-12 | a missing or empty username raises and changes nothing; a taken username is refused and changes nothing; otherwise exactly one row is appended, with a fresh key; the table invariant is kept |
| Accounts.UserTable.CreateSuperuser | book/models.py:14-18 | as `create_user` with the superuser defaults; a created superuser is admin and staff unless those flags were passed |
| Ledger.SeatCount | book/models.py:84 | the number of a train's seats is zero exactly when no seat belongs to the train |
| Ledger.FreeCount | book/serializers.py:59-60 | the number of a train's unbooked seats is at most its seat count, and zero exactly when it has no free seat |
| Ledger.FirstFree | book/views.py:141-144 | the result is a free seat of the train with no free seat of the train before it; there is none exactly when the free count is zero |
| Ledger.Claim | book/views.py:161-164 | marking a seat booked sets its flag and occupant, keeps its key, number and train, and changes no other seat |
| Ledger.CountsAppend | book/serializers.py:59-60 | seat and free counts add up over concatenated ledgers |
| Ledger.ClaimCounts | book/views.py:161-164 | booking a free seat keeps every seat count and lowers the free count of that seat's train, and only that train, by one |
| Ledger.ClaimOnlyBooks | book/views.py:141-164 | booking never frees a seat, and the seat just booked is not offered again |
| Ledger.Serve | book/views.py:141-164 | a request on a train without a free seat leaves the seats unchanged, and no request changes their number |
| Ledger.ServeCounts | book/views.py:141-164 | one request lowers the train's free count by one when it has a free seat, and leaves it at zero otherwise |
| Ledger.ServeOnlyBooks | book/views.py:141-164 | after one request every free seat was free before, and it is not the seat the request got |
| Ledger.ClaimRun | book/views.py:141-164 | a run of booking requests on one train keeps the ledger's length and records one outcome per request |
| Ledger.Exclusivity | book/views.py:141-164 | on a train with F free seats, exactly the first F requests succeed; each gets a seat of the train that was free before and ends up booked by that user; no seat goes to two requests; the free count falls by one per success |
| Ledger.RunOutcomes | book/views.py:141-152 | exactly the first F requests succeed, F being the train's free count beforehand; later ones are refused |
| Ledger.RunFreeCount | book/views.py:141-164 | after the run the free count has dropped by the number of requests, down to zero at the lowest |
| Ledger.RunFree | book/views.py:141-152 | every successful request got a seat of the train that was free before the run |
| Ledger.RunBooked | book/views.py:155-164 | every successful request's seat ends up booked by that request's user |
| Ledger.RunDistinct | book/views.py:141-164 | no two successful requests got the same seat |
| Ledger.ClaimRunKeepsBooked | book/views.py:141-144 | a booked seat keeps its occupant through any later requests |
| Ledger.NewSeats | book/models.py:65-71 | the seats built for provisioning are n free seats of the train, with no occupant, numbered 1 to n, with consecutive fresh keys |
| Ledger.NewSeatsShape | book/models.py:65-74 | the new seats give the train n seats, all free, numbered 1 to n with no number repeated, and no seat of any other train |
| Ledger.NewSeatsCounts | book/models.py:65-74 | the new seats count as n seats of the train, all free, and none of any other train |
| Ledger.OtherTrainsSeats | book/models.py:62 | deleting a train's seats keeps exactly the seats of other trains |
| Ledger.SurvivingBookings | book/models.py:124-127 | deleting seats removes exactly the bookings of those seats |
| Ledger.ReplaceSeats | book/models.py:62-74 | the deletion and bulk insert keep the trains, keep exactly the other trains' seats, keep exactly the bookings of seats that were not deleted, and advance the seat key counter by the number of new seats |
| Ledger.CreateSeats | book/models.py:57-77 | `create_seats` leaves the seats and bookings of the deletion and insert, sets the train's stored availability to its total, and changes no other train |
| Ledger.ReplaceSeatsContents | book/models.py:62-74 | the deletion and insert keep exactly the other trains' seats and exactly the bookings of seats not deleted; `create_seats` changes no other train's row |
| Ledger.SaveTrain | book/models.py:79-85 | saving writes the train's key; a train that has seats, or a non-positive total, keeps its seats and bookings and is stored as given |
| Ledger.SavedInstance | book/models.py:76-85 | the instance after `save` has the same number, route and total; its availability becomes the total exactly when the save provisioned seats |
| Ledger.CreateSeatsCounts | book/models.py:57-77 | after provisioning the train has exactly max(total, 0) seats, all free; every other train's seat and free counts are unchanged |
| Ledger.OtherTrainsSeatsCounts | book/models.py:62 | after the deletion the train has no seats, and other trains' counts are unchanged |
| Ledger.SaveTrainIdempotent | book/models.py:79-85 | after a save the train no longer needs seats, and saving the saved instance again changes nothing |
| Ledger.FirstSaveProvisions | book/models.py:57-85 | a train with a positive total and no seats gets exactly `total_seats` free seats; its stored availability becomes the total; no booking is touched |
| Ledger.FreshTrainSellsOut | book/views.py:141-152 | on a newly added train with n seats, the first n of n + 1 requests succeed with distinct seats and the last is refused |
| Ledger.SellsOut | book/views.py:141-152 | of one request more than there are free seats, all but the last succeed, with distinct seats, and the train is then full |
| Ledger.FreshTrainSeatOrder | book/models.py:65-74 | on a newly added train, the k-th booking request (from 0) gets the seat numbered k + 1, for every k below the total |
| Ledger.RunInOrder | book/views.py:141-164 | when a train's free seats are exactly a block of consecutive positions, successive requests get them in order |
| Ledger.ServeAt | book/views.py:141-164 | a request on a train whose free seats are a block starting at p gets p and leaves the rest of the block free |
| Ledger.InOrderStep | book/views.py:141-164 | outcomes in order from p + 1 preceded by the outcome p are outcomes in order from p |
| Ledger.FirstFreeAt | book/views.py:141-144 | when a train's free seats are a block starting at p, the first free seat is at p |
| Ledger.ClaimFreeSeats | book/views.py:161-164 | after a claim the train's free seats are those before, less the claimed one |
| Ledger.AppendedFreeSeats | book/models.py:62-74 | after the deletion and insert, the train's free seats are exactly the inserted ones |
| Ledger.AppendedRunOrder | book/views.py:141-164 | when a train's free seats are inserted after every seat of other trains, successive requests get the inserted seats in insertion order |
| Ledger.SurvivingNothingRemoved | book/models.py:124-127 | deleting no seats deletes no booking |
| Ledger.ClaimSeatWrites | book/views.py:155-164 | a booking marks the chosen seat as booked by the user and no other seat; appends exactly one booking with the next key; leaves the trains alone; lowers the train's free count by one |
| Ledger.FindBooking | book/views.py:195-198 | a found booking is in the journal and matches both the key and the user; no match means no such booking for that user |
| Ledger.FindSeat | book/views.py:203 | a found seat is in the ledger with that key; none means no seat has it |
| Ledger.ClaimSeat | book/views.py:155-164 | a booking appends one journal entry with the next key, the user, the seat's train and key and the time; the journal before it is unchanged; trains and the seat key counter are untouched |
| Integrity.Empty | book/models.py:90-132 | the empty database satisfies every table constraint |
| Integrity.SeatKeysUnique | book/models.py:90-107 | seat keys are unique |
| Integrity.SeatNumbersDistinct | book/models.py:91-92 | no seat number occurs twice on a train |
| Integrity.JournalTriplesUnique | book/models.py:131-132 | no two bookings share a (user, train, seat) triple, because no two share a seat |
| Integrity.FirstFreeHasLeastKey | book/views.py:141-144 | the first free seat in ledger order is the train's free seat with the smallest primary key |
| Integrity.LeastKeyAt | book/views.py:141-144 | in a key-ordered ledger, a seat with no free seat of the train before it has a key no larger than any free seat of the train |
| Integrity.FreeSeatUnjournaled | book/models.py:131-132 | a free seat has no booking, so booking it never violates the booking uniqueness constraint |
| Integrity.WriteTrainKeepsInv | book/models.py:81 | writing a train row keeps every table constraint |
| Integrity.SeatsHeadFirst | book/models.py:90-107 | in a key-ordered seat ledger the first seat's key is below every other, and the rest stays key-ordered |
| Integrity.SeatsConsInKeyOrder | book/models.py:90-107 | a seat with a key below all of a key-ordered ledger's keys can be put in front of it |
| Integrity.BookingsHeadFirst | book/models.py:112-113 | in a key-ordered journal the first booking's key is below every other, and the rest stays key-ordered |
| Integrity.BookingsConsInKeyOrder | book/models.py:112-113 | a booking with a key below all of a key-ordered journal's keys can be put in front of it |
| Integrity.OtherTrainsSeatsInKeyOrder | book/models.py:62 | deleting a train's seats keeps the rest in key order |
| Integrity.SurvivingBookingsInKeyOrder | book/models.py:124-127 | the cascade keeps the remaining bookings in key order |
| Integrity.ReplaceSeatsKeyOrder | book/models.py:62-74 | delete-then-insert keeps seats and bookings in key order with keys below the next key |
| Integrity.NewSeatsNumbersDiffer | book/models.py:65-71 | two different new seats get different numbers |
| Integrity.NewSeatsNumbersUnique | book/models.py:91-92 | the new seats satisfy the seat-number uniqueness constraint among themselves |
| Integrity.ReplaceSeatsNumbers | book/models.py:91-92 | delete-then-insert keeps seat numbers unique per train |
| Integrity.ReplaceSeatsJournal | book/models.py:124-127 | after the cascade every booking refers to an existing seat that agrees with it, and every booked seat still has its booking |
| Integrity.ReplaceSeatsKeepsInv | book/models.py:62-74 | the deletion and bulk insert keep every table constraint |
| Integrity.CreateSeatsKeepsInv | book/models.py:57-77 | `create_seats` keeps every table constraint |
| Integrity.SaveTrainKeepsInv | book/models.py:79-85 | `Train.save` keeps every table constraint |
| Integrity.ClaimShape | book/views.py:161-164 | marking a seat booked changes no seat's key, train or number |
| Integrity.ClaimSeatNumbers | book/views.py:161-164 | marking a seat booked keeps seat numbers unique per train |
| Integrity.ClaimSeatKeyOrder | book/views.py:161-164 | marking a seat booked keeps the seats in key order |
| Integrity.ClaimSeatLedger | book/views.py:161-164 | marking a free seat keeps the seat-table constraints |
| Integrity.AppendBookingKeepsJournal | book/views.py:155-159 | appending a booking with the next key for a seat with no booking keeps the journal key-ordered, its keys issued and one booking per seat |
| Integrity.ClaimSeatAgree | book/views.py:155-164 | after a booking every journal entry names an existing seat of its train occupied by its user, and every booked seat has its entry |
| Integrity.ClaimSeatJournal | book/views.py:155-164 | the new booking keeps the journal constraints: keys ordered and issued, foreign keys, agreement with the seat, one booking per seat, every booked seat journaled |
| Integrity.ClaimSeatKeepsInv | book/views.py:155-164 | booking a free seat keeps every table constraint |
| Integrity.AddTrainKeepsTotals | book/models.py:57-85 | saving a new train with a positive total gives it exactly that many seats and keeps every other train's count, so every train with a positive total still has exactly that many seats |
| Integrity.ClaimSeatKeepsTotals | book/views.py:155-164 | a booking keeps every train's seat count, so seat counts that match totals stay matched |
| Integrity.ResaveKeepsSeats | book/models.py:79-85 | saving a train that already has seats keeps them, whatever its new total; a changed positive total then no longer matches the seat count |
| Storage.Store.constructor | book/models.py:46-132 | a new database is empty and satisfies the constraints |
| Storage.Store.Save | book/models.py:79-85 | `Train.save` leaves exactly the tables of `Ledger.SaveTrain` and the instance of `Ledger.SavedInstance`; the constraints are kept; the nested save does not provision again |
| Storage.Store.CreateSeats | book/models.py:57-77 | `create_seats` leaves exactly the tables of `Ledger.CreateSeats`: the deletion, the cascade, seats "1" to the total, and the stored availability set to the total; the constraints are kept |
| Storage.SeatBatch | book/models.py:65-71 | the loop builds exactly the free seats numbered 1 to n of the train, with consecutive keys from the next key |
| Storage.Store.ClaimSeat | book/views.py:155-164 | the booking row is created with the next key, then the seat is marked; the result is exactly `Ledger.ClaimSeat` and the constraints are kept |
| Serializers.PresenceErrors | book/serializers.py:5-14 | a required text field has no complaint exactly when it is present and not blank |
| Serializers.TextErrors | book/serializers.py:16-22 | a text field has no complaint exactly when it is present, non-blank, within its length bounds and not taken; each length or uniqueness violation is reported |
| Serializers.ValidateRegistration | book/serializers.py:4-28 | registration is accepted exactly when the username is 4 to 50 characters and free, the name is 1 to 100 characters, and both passwords are given and equal; a mismatch with otherwise valid fields is reported on `confirm_password` |
| Serializers.Register | book/serializers.py:30-39 | a rejected registration changes nothing; an accepted one creates exactly one user from the validated username, password and name; `confirm_password` is dropped; the user is active and neither admin, staff nor superuser |
| Serializers.SeatTotalErrors | book/serializers.py:49 | `total_seats` has no complaint exactly when it is present and at least 1 |
| Serializers.ValidateTrain | book/serializers.py:41-50 | a train is accepted exactly when `train_no` is 1 to 20 characters and unused, source and destination are 1 to 100 characters, and `total_seats` is at least 1; stored availability starts at 0 |
| Serializers.AcceptedTrainIsProvisioned | book/serializers.py:41-50 | an accepted train always gets provisioned on save, with exactly `total_seats` free seats and stored availability equal to the total |
| Serializers.AvailabilityOf | book/serializers.py:52-60 | the reported availability is at most the train's seat count, and zero exactly when it has no free seat |
| Serializers.AvailabilityAfterBooking | book/serializers.py:59-60 | a booking lowers the reported availability of its train by one, leaves other trains' availability alone, and does not touch the stored `available_seats` |
| Serializers.ProvisionedTrainFullyAvailable | book/serializers.py:59-60 | a freshly provisioned train reports all its seats available |
| Views.AddTrain | book/views.py:65-85 | a non-admin gets 403 and a rejected input gets 400 with its field errors, both with no change; otherwise the train is saved and gets `total_seats` free seats, with 201; when every train with a positive total had exactly that many seats, that stays true |
| Views.RouteRows | book/views.py:109-121 | exactly the trains on the route are listed; each row carries the train's number, source, destination and `total_seats`, and as availability its live count of free seats |
| Views.TrainAvailability | book/views.py:97-122 | a missing or empty source or destination gives 400; otherwise 404 when no train is on the route, else 200 with the route's trains |
| Views.NotFoundIffNoTrainOnRoute | book/views.py:114-118 | the search answers 404 exactly when no train matches both source and destination |
| Views.RouteSearchCaseBlind | book/views.py:109-112 | the search answer does not depend on the case of the query |
| Views.RouteSearchAfterBooking | book/views.py:97-122 | a booking never changes the status of a search: a 400 or 404 answer stays exactly the same, and a 200 answer lists the same trains with the same fields, the booked train showing one seat fewer |
| Views.BookSeat | book/views.py:129-181 | no train number gives 400, an unknown train 404 and a full train 400, each with no change; otherwise 201 with the train's free seat of smallest key booked by the caller, exactly one booking with a fresh key appended, every other seat and the trains unchanged, and the free count down by one; on a known train the seats are those of one step of a request run (`Ledger.Serve`); seat counts matching totals stay matched |
| Views.BookingDetails | book/views.py:192-214 | 200 exactly when a booking with that key belongs to the caller, reporting that booking's own seat, train and timestamp; otherwise 404, including for another user's booking |
| Views.BookingCanBeLookedUp | book/views.py:155-208 | right after booking, the owner finds the booking under the reported key with the booked seat and train; any other user gets 404 |
| AdminMiddleware.Init | book/middleware/AdminMiddleware.py:7-12 | the key is `ADMIN_API_KEY` from the environment, or "CUSTOM_API_KEY" when unset |
| AdminMiddleware.Call | book/middleware/AdminMiddleware.py:14-23 | a request is forwarded unchanged exactly when its path is outside "/api/admin/" or it carries the configured key; otherwise 403, reporting the presented and the configured key |
| AdminMiddleware.NonAdminPathsPass | book/middleware/AdminMiddleware.py:16-23 | non-admin paths pass whatever their headers |
| AdminMiddleware.AdminPathsNeedTheKey | book/middleware/AdminMiddleware.py:16-21 | under the admin prefix a missing header is refused, and only the configured (or default) key passes |
| AdminMiddleware.OnlyTheKeyVariableMatters | book/middleware/AdminMiddleware.py:9-12 | the gate's decisions depend on the environment only through `ADMIN_API_KEY`, read once at construction |
| AdminMiddleware.PrefixNeedsTrailingSlash | book/middleware/AdminMiddleware.py:16-23 | any path that continues "/api/admin" with something other than "/", or stops there, is not gated and is forwarded without a key; every path that continues it with "/" is gated |

## Left out

- Seat totals: every train with a positive `total_seats` has exactly that many seats only along the API's writes (`Integrity.SeatsMatchTotals`). Saving an existing train with a changed `total_seats` keeps its old seats (book/models.py:84), so this is not part of the table invariant `Integrity.Inv`; `Integrity.ResaveKeepsSeats` states the breach.
- Concurrency: each request is one sequential, atomic step. The race between choosing a free seat and saving it, under concurrent transactions, is outside a sequential model.
- Authentication and tokens (`authenticate`, token issuance, the login view): the requesting user is a parameter. The registration view's token and response body are not modelled.
- Password hashing (`set_password`) is a library call: the stored credential is the password as given.
- Accounts.UserTable.CreateUser: the username field's validators, at most 50 and at least 4 characters, are not applied. They run only when a model is fully cleaned or a serializer validates; `create_user` called directly does neither.
- Serializers.TextErrors: whitespace trimming of text fields is not modelled. A value of spaces only counts as non-blank here, though the framework reports it as blank. Lengths are measured untrimmed, and `Serializers.Register` stores " bob " where the framework stores "bob".
- Serializers.ValidateRegistration: error message texts and their order within a field are not modelled. Errors are reported as a set of kinds per field.
- Serializers.ValidateTrain: input of the wrong type, such as a non-integer `total_seats`, is not modelled. The input already carries an integer.
- Views.BookSeat: the generic handler that returns 500 with the exception text is not modelled. Storage failures cannot be modelled, and the only integrity error a booking could raise is proved unreachable (`Integrity.FreeSeatUnjournaled`).
- Views.TrainAvailability: the order of the trains in the response list is not modelled. The answer is keyed by train number, the primary key.
- Booking timestamps come from the clock. Here they are the parameter `now`.
- `icontains` depends on the database collation. It is modelled with ASCII lower-casing; Unicode case folding is not modelled.
- Integer columns are unbounded here. The database's integer range is not modelled.
- Storage.Store.CreateSeats: requires the train's row to exist, as the seat table's foreign key does. It is only reached through `Save`, after the row is written.
- The `total_seats` model default of 5 is not modelled: the only way the API creates trains requires the field.
- Deleting users, and the `SET_NULL` and cascade rules on user references, are not modelled: no operation deletes users.
- The migration file, URL routing, the debugging output of the availability view and the commented-out block at the end of the serializers file are not modelled.
