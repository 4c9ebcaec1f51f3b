# Restaurant reservations: booking rules, modelled in Dafny

This project models the reservation side of a small restaurant-booking web API.
The restaurant has a fixed set of tables numbered 1 to 15. A reservation holds a
database key, a customer name, a timestamp, a party size and a table number.
The API lists reservations, looks one up by customer name, and creates, edits
and deletes them. The rules that matter are these:

- **Availability.** The tables free at a timestamp are 1..15 minus the table numbers booked at exactly that timestamp.
- **Create.** Create checks three things in order: the timestamp is in the future, the table is free, and no reservation under that customer name exists. Only then does it insert.
- **Edit.** Edit overwrites all four fields of the first record under a name. It re-checks neither table availability nor the customer name.
- **Delete.** Delete removes that record. It then answers with the tables free at the record's timestamp, and makes sure the freed table is in that answer.

Modules follow the application's namespaces:

- `Models` (models.dfy): the `Reservation` record and an `Option` for "first match or null".
- `ViewModels` (models.dfy): the request/response shape `ReservationView` and the future-date validation rule.
- `Repository` (repository.dfy): `ReservationStore`, a class over a `seq<Reservation>`. It has first-match lookups, add, remove, list-all and a commit that reports success.
- `Availability` (availability.dfy): the pipeline that computes free tables, written as functions. `Except` keeps LINQ's semantics (distinct, in order of the first list).
- `Controllers` (reservation_controller.dfy): `ReservationController`, its endpoints as methods on the store, and the store invariants. The invariants are: no table double-booked at a timestamp, tables within 1..15, and customer names unique.
- `Scenarios` (scenarios.dfy): an Alice/Bob walk-through, written as a client that relies only on the controller's contracts.

Inputs from outside the program become parameters:

- `now` is the clock reading used by the future-date rule.
- `key` is the key the database generates for a new row.
- `affectedRows` is the row count the database reports on commit.

Timestamps are integers. The program compares them for equality in the availability query (ReservationController.cs:135) and for order against the clock in the future-date rule (ReservationViewModel.cs:22); an integer supports both. In the program, the lookups run in the database. For name lookups, the database's collation decides whether case or trailing spaces count. For every lookup, the database's row order decides which match is "first". The model assumes exact, case-sensitive equality and takes the order in which reservations were added as the store order.

Two behaviours of the code are reproduced as written rather than as a cleaner design would have them:

- Create returns Ok even when the commit reports no affected rows (ReservationController.cs:107-110).
- A failed commit in edit or delete gives 400 "request invalid", not a separate persistence-failure outcome (ReservationController.cs:171, 217).

## Model

| member | source | states |
|---|---|---|
| ViewModels.IsFutureDate | restaurantReservation/ViewModels/ReservationViewModel.cs:19-23 | a reservation timestamp is valid only when it is strictly later than the current clock reading |
| ViewModels.ToView | restaurantReservation/Controllers/ReservationController.cs:34-40 | the listed view of a reservation carries exactly the reservation's name, timestamp, guests and table |
| ViewModels.FromView | restaurantReservation/Controllers/ReservationController.cs:85-91 | the entity create builds carries the given key, and its view gives back the four request fields unchanged |
| Repository.Lookup | restaurantReservation/Models/Repository.cs:67-68 | the entity returned is the first stored reservation that satisfies the filter, and there is none exactly when no reservation satisfies it |
| Repository.FirstMatch | restaurantReservation/Models/Repository.cs:65-75 | the position found is the first stored reservation that satisfies the filter; there is no position exactly when no reservation satisfies it |
| Repository.ReservationStore.constructor | restaurantReservation/Models/Repository.cs:10-13 | the store starts out holding the context's reservations |
| Repository.ReservationStore.SaveChanges | restaurantReservation/Models/Repository.cs:15-18 | the commit reports success if and only if more than zero rows were affected |
| Repository.ReservationStore.AddReservation | restaurantReservation/Models/Repository.cs:49-52 | exactly one entity is added, after every reservation already stored, all of which are kept |
| Repository.ReservationStore.DeleteReservation | restaurantReservation/Models/Repository.cs:54-57 | exactly the given entity is removed; all other reservations stay, in order (multiset of the rest plus the entity equals the old contents) |
| Repository.ReservationStore.GetAllReservations | restaurantReservation/Models/Repository.cs:59-63 | returns every stored reservation, in store order, nothing added or dropped |
| Repository.ReservationStore.FindIndex | restaurantReservation/Models/Repository.cs:67-74 | the scan behind FirstOrDefault finds the first reservation matching the filter, or reports that none does |
| Repository.ReservationStore.GetReservation | restaurantReservation/Models/Repository.cs:65-69 | returns the first stored reservation with the given key, or nothing exactly when no reservation has that key |
| Repository.ReservationStore.GetReservationByCustomerName | restaurantReservation/Models/Repository.cs:71-75 | returns the first stored reservation whose customer name equals the argument exactly, or nothing exactly when no name matches |
| Availability.Range | restaurantReservation/Controllers/ReservationController.cs:136 | the table universe, `count` consecutive integers from `start`, as Enumerable.Range yields them; its contents are stated by RangeContents |
| Availability.RangeContents | restaurantReservation/Controllers/ReservationController.cs:136 | Range(1, 15) holds exactly the integers 1..15, strictly ascending |
| Availability.BookedTables | restaurantReservation/Controllers/ReservationController.cs:135 | a table number is in the booked list exactly when some reservation has that table at exactly the given timestamp |
| Availability.Except | restaurantReservation/Controllers/ReservationController.cs:137 | the result holds exactly the elements of the first list not in the second, with no duplicates, and is ascending whenever the first list is |
| Availability.AvailableTables | restaurantReservation/Controllers/ReservationController.cs:132-138 | a table is offered exactly when it lies in 1..15 and no reservation holds it at exactly that timestamp (so free and booked tables partition 1..15); the list is strictly ascending |
| Availability.ExceptNothing | restaurantReservation/Controllers/ReservationController.cs:137 | Except returns a duplicate-free list unchanged when none of its elements is excluded |
| Availability.AvailableWhenNothingBooked | restaurantReservation/Controllers/ReservationController.cs:135-137 | with no reservation at the timestamp, the answer is exactly [1, 2, ..., 15] |
| Controllers.WithFreedTable | restaurantReservation/Controllers/ReservationController.cs:201-206 | the delete answer always contains the freed table, adds nothing else, keeps the free list as its prefix, and stays duplicate-free |
| Controllers.CreatePreservesConsistency | restaurantReservation/Controllers/ReservationController.cs:94-107 | a record that passed create's table check and name check keeps a consistent store consistent (no double booking, tables in 1..15, unique names) |
| Controllers.RemovePreservesConsistency | restaurantReservation/Controllers/ReservationController.cs:191 | removing any reservation keeps a consistent store consistent |
| Controllers.RemovalFreesTable | restaurantReservation/Controllers/ReservationController.cs:199-206 | in a store without double bookings, deleting a reservation whose table is within 1..15 makes that table free at its timestamp, so the defensive append is never needed there |
| Controllers.EditCanDoubleBook | restaurantReservation/Controllers/ReservationController.cs:155-159 | an edit of a consistent store can put a record on a table already taken at that timestamp |
| Controllers.EditCanDuplicateNameAndLeaveRange | restaurantReservation/Controllers/ReservationController.cs:155-159 | an edit can give a record another customer's name and a table outside 1..15 |
| Controllers.ReservationController.constructor | restaurantReservation/Controllers/ReservationController.cs:16-19 | the controller works on the repository it is given |
| Controllers.ReservationController.GetAllReservations | restaurantReservation/Controllers/ReservationController.cs:23-49 | answers Ok with one view per stored reservation, in store order, each carrying that reservation's name, timestamp, guests and table |
| Controllers.ReservationController.GetReservationByCustomerName | restaurantReservation/Controllers/ReservationController.cs:55-69 | answers NotFound exactly when no reservation has that name, otherwise Ok with the first one that has it |
| Controllers.ReservationController.GetAvailableTables | restaurantReservation/Controllers/ReservationController.cs:132-138 | the list computed from the stored reservations is the availability at that timestamp |
| Controllers.ReservationController.AddReservation | restaurantReservation/Controllers/ReservationController.cs:74-127 | rejects a non-future timestamp, then a table not free at that timestamp (including any table outside 1..15), then a name already on file, each time leaving the store unchanged; otherwise appends exactly one record with the four given fields and returns it whatever the commit reports; keeps a consistent store consistent |
| Controllers.ReservationController.EditReservationByCustomerName | restaurantReservation/Controllers/ReservationController.cs:145-172 | NotFound with the store unchanged when no name matches; otherwise overwrites the four fields of the first match only, keeping its key, with no re-check, and answers Ok with the edited record only when the commit reports success |
| Controllers.ReservationController.DeleteReservationByCustomerName | restaurantReservation/Controllers/ReservationController.cs:177-218 | NotFound with the store unchanged when no name matches; otherwise removes exactly the first match and, on a successful commit, answers with the availability at its timestamp, with the freed table appended if missing; keeps a consistent store consistent |

## Left out

- Exceptions are not modelled. The source catches them and answers 500, or 400 in create. Store calls in the model cannot fail.
- async/await is not modelled. Every operation runs sequentially, so the race between two concurrent creates that both pass the checks is not represented.
- EF Core change tracking is not modelled. Add, remove and edit change the stored list at once. A commit that reports zero rows only changes the answer; nothing is rolled back.
- Entity identity is value equality. DeleteReservation removes the first stored value equal to the entity it is given. The controller only passes it a value it just read from the store, so in that use it removes the record that was found.
- Edit's in-place assignment to the fetched entity is modelled as replacing the record at its position in the list.
- Validation of the request model covers only the future-date rule (ReservationViewModel.cs:17-24), with the clock reading passed in as `now`. The framework applies it on its own for the two endpoints that take a reservation body, create and edit; the model applies it only where the controller checks it itself, in create.
- Controllers.ReservationController.EditReservationByCustomerName: does not apply the future-date rule; the program answers 400 to a past timestamp before the edit action runs (ReservationController.cs:11), leaving the store unchanged.
- Repository.ReservationStore.GetReservationByCustomerName: compares names by exact, case-sensitive equality. The program runs this comparison in the database, whose collation is not part of this model, so case or trailing spaces may not count there. The same goes for Repository.FirstMatch when it searches by name. Key lookups compare integers, so collation does not affect them; only row order does.
- Repository.ReservationStore.GetAllReservations: returns reservations in the order they were added. The program issues no ORDER BY, so the database chooses the order of the list and which match FirstOrDefault returns first; the model fixes insertion order for both.
- Database key generation is not modelled. Create receives the generated key as a parameter, and nothing about key uniqueness is assumed or proved.
- DateTime is an integer timestamp. It is compared for equality in the availability query (ReservationController.cs:135) and for order against the clock in the future-date rule (ReservationViewModel.cs:22); an integer supports both. Time zones and calendar arithmetic are not modelled.
- User accounts, password management, JWT issuance, the user-related repository methods and the view models' data annotations are not part of this model. They delegate to the identity library and to framework validation.
