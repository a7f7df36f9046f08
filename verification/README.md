# Spook reservation app: login lookup, store-hour merge and booking table

A Dafny model of three pieces of the Spook Android reservation app:

- **Login** (`Register.kt`). The login button checks that both text fields are non-empty. If one is empty, it raises the "Username and password are required" flag. Otherwise it looks the credentials up in the collected user list with `filter { username == u && password == p }.map { userId }.firstOrNull()`. No id shows "Incorrect Credentials"; an id opens the home page for that user. Module `Register` (file `register.dfy`).
- **Store card data** (`StoreList.kt`). Several store rows may share a name, and each row's `avHours` is a comma-separated string. For a name, the screen keeps the rows with that name. If there are none, it shows nothing. Otherwise it shows one card: the first such row, plus the hours of all such rows, split on `","` and deduplicated so the first occurrence is kept. Module `StoreList` (file `store_list.dfy`).
- **Booking table** (`BookingDAO.kt`). The Room DAO's `insert`, `delete`, `deleteAllBookings`, `getAllBookings` and `getBookingsForUser` work over a table keyed by the booking's primary key. The table is a class holding a map, with mutating methods and query functions. Module `BookingDao` (file `booking_dao.dfy`).

`optional.dfy` holds the `Option` type that stands in for Kotlin's nullable `Int?`.

## Model

| member | source | states |
|---|---|---|
| Register.Matches | app/src/main/java/Register.kt:55 | the filter's condition: the user name and the password both equal the input |
| Register.FilterMatching | app/src/main/java/Register.kt:55 | a user is kept exactly when it is in the list and both its user name and its password equal the input |
| Register.FilterMatchingAppend | app/src/main/java/Register.kt:55 | filtering keeps list order: the filter of a concatenation is the concatenation of the filters |
| Register.UserIds | app/src/main/java/Register.kt:56 | the ids in list order, one per user |
| Register.FirstOrNull | app/src/main/java/Register.kt:57 | null exactly for an empty list, otherwise the first element |
| Register.Lookup | app/src/main/java/Register.kt:54-59 | no id exactly when no user matches both fields; a returned id belongs to a user whose user name and password both equal the input |
| Register.LookupIsFirstMatch | app/src/main/java/Register.kt:54-57 | the id returned is that of the earliest matching user, even when later users also match |
| Register.LookupInEmptyList | app/src/main/java/Register.kt:45-57 | the initial empty user list yields no id |
| Register.ReadyToLogin | app/src/main/java/Register.kt:151 | the login button's guard: both the user name and the password field are non-empty |
| Register.PressLogin | app/src/main/java/Register.kt:151-155 | an empty field raises the error flag and skips the lookup; with both filled, the outcome is "incorrect credentials" exactly when no user matches, and a login goes to the id the lookup returns, which is the first matching user's |
| Register.EmptyCredentialsNeverLogIn | app/src/main/java/Register.kt:151-155 | a successful login always belongs to a user whose stored user name and password are both non-empty |
| Register.AliceScenario | app/src/main/java/Register.kt:52-63 | with one account "alice"/"secret": the right password logs in, a password that differs only in case is refused, an empty password raises the error flag |
| StoreList.Split | app/src/main/java/com/example/room_setup_composables/ui/theme/StoreList.kt:34 | splitting on "," gives one more piece than there are commas, and no piece holds a comma |
| StoreList.SplitThenJoin | app/src/main/java/com/example/room_setup_composables/ui/theme/StoreList.kt:34 | joining the pieces with "," gives back the original hour string |
| StoreList.JoinThenSplit | app/src/main/java/com/example/room_setup_composables/ui/theme/StoreList.kt:34 | splitting a join of one or more comma-free pieces gives back those pieces |
| StoreList.Distinct | app/src/main/java/com/example/room_setup_composables/ui/theme/StoreList.kt:34 | the result has no duplicates, holds exactly the input's elements, and is no longer than the input |
| StoreList.DistinctKeepsFirstOccurrenceOrder | app/src/main/java/com/example/room_setup_composables/ui/theme/StoreList.kt:34 | kept elements are ordered by the position of their first occurrence in the input |
| StoreList.DistinctOfDuplicateFree | app/src/main/java/com/example/room_setup_composables/ui/theme/StoreList.kt:34 | a duplicate-free list is returned unchanged |
| StoreList.DistinctIsIdempotent | app/src/main/java/com/example/room_setup_composables/ui/theme/StoreList.kt:34 | deduplicating twice is the same as deduplicating once |
| StoreList.FilterByName | app/src/main/java/com/example/room_setup_composables/ui/theme/StoreList.kt:28 | a store is kept exactly when it is in the list and its name equals the filter name |
| StoreList.FilterByNameAppend | app/src/main/java/com/example/room_setup_composables/ui/theme/StoreList.kt:28 | filtering keeps list order: the filter of a concatenation is the concatenation of the filters |
| StoreList.FilterByNameHead | app/src/main/java/com/example/room_setup_composables/ui/theme/StoreList.kt:33 | the first filtered store is the earliest store in the list with that name |
| StoreList.AllHours | app/src/main/java/com/example/room_setup_composables/ui/theme/StoreList.kt:34 | an hour piece occurs exactly when it is a comma-separated piece of some given store's hours |
| StoreList.AllHoursOfOneStore | app/src/main/java/com/example/room_setup_composables/ui/theme/StoreList.kt:34 | one store contributes exactly its split pieces, in string order |
| StoreList.AllHoursAppend | app/src/main/java/com/example/room_setup_composables/ui/theme/StoreList.kt:34 | pieces come store by store, in list order |
| StoreList.MergeStoreHours | app/src/main/java/com/example/room_setup_composables/ui/theme/StoreList.kt:28-37 | no card exactly when no store has the name; otherwise the card's store has the name, its hours hold no duplicates, and an hour is listed exactly when it is a piece of some store with that name |
| StoreList.MergeRepresentativeIsFirst | app/src/main/java/com/example/room_setup_composables/ui/theme/StoreList.kt:31-33 | the card shows the first store in the list with that name |
| StoreList.MergeHoursInFirstOccurrenceOrder | app/src/main/java/com/example/room_setup_composables/ui/theme/StoreList.kt:34 | merged hours are ordered by their first occurrence among the matching stores' pieces |
| StoreList.MergedPiecesInStoreOrder | app/src/main/java/com/example/room_setup_composables/ui/theme/StoreList.kt:28-34 | the pieces of earlier matching stores come before those of later ones |
| StoreList.UntrimmedPiecesStayDistinct | app/src/main/java/com/example/room_setup_composables/ui/theme/StoreList.kt:34 | pieces are not trimmed before deduplication: an hour and the same hour after a space are both listed |
| BookingDao.AllRows | app/src/main/java/BookingDAO.kt:14-15 | selecting all rows gives exactly the rows stored in the table |
| BookingDao.RowsForUser | app/src/main/java/BookingDAO.kt:20-21 | selecting by user gives exactly the table's rows whose userId equals the argument |
| BookingDao.InsertRow | app/src/main/java/BookingDAO.kt:8-9 | the table with the booking stored under its key and every other key's row unchanged |
| BookingDao.DeleteRow | app/src/main/java/BookingDAO.kt:11-12 | the table without the row under the booking's key, every other row unchanged |
| BookingDao.InsertRowEffect | app/src/main/java/BookingDAO.kt:8-9 | inserting a fresh-keyed row adds exactly that row to all rows and to its user's rows, leaves other users' rows unchanged, and adds one row |
| BookingDao.InsertAllRows | app/src/main/java/BookingDAO.kt:8-9 | after inserting, all rows are the old rows plus the new one |
| BookingDao.InsertUserRows | app/src/main/java/BookingDAO.kt:8-9 | after inserting, a user's rows gain the new row exactly when it is that user's booking |
| BookingDao.DeleteRowEffect | app/src/main/java/BookingDAO.kt:11-12 | deleting removes the row under the booking's key, keeps every other row, and shrinks the table by at most one row |
| BookingDao.RowsForUserAreRows | app/src/main/java/BookingDAO.kt:14-21 | every row selected for a user is also among all rows |
| BookingDao.EmptyTableHasNoRows | app/src/main/java/BookingDAO.kt:17-18 | an emptied table answers both queries with no rows |
| BookingDao.BookingTable.GetAllBookings | app/src/main/java/BookingDAO.kt:14-15 | snapshot of every row currently in the table |
| BookingDao.BookingTable.GetBookingsForUser | app/src/main/java/BookingDAO.kt:20-21 | snapshot of the current rows of the given user, a subset of all rows |
| BookingDao.BookingTable.Insert | app/src/main/java/BookingDAO.kt:8-9 | the new row is listed among all rows and for its user; other users' lists are unchanged; one row more |
| BookingDao.BookingTable.Delete | app/src/main/java/BookingDAO.kt:11-12 | no row keeps the booking's key; every other row is unchanged; at most one row fewer |
| BookingDao.BookingTable.DeleteAllBookings | app/src/main/java/BookingDAO.kt:17-18 | afterwards all rows and every user's rows are empty |
| BookingDao.CreateThenList | app/src/main/java/BookingDAO.kt:8-21 | read-after-write: a booking just inserted is listed for its user |

## Left out

- Slot availability (`SlotViewModel.kt`): every operation forwards to `SlotDao` queries whose SQL lives in `SlotDao`, which this model does not cover. Capacity arithmetic, clamping at zero and atomicity are therefore not modelled.
- Reactive streams (`Flow`, `StateFlow`, `collectAsState`): the queries are modelled as point-in-time snapshots of the table or the list.
- Concurrency and the ordering of asynchronous updates: the modelled code implements neither.
- Row order of the DAO queries: the SQL has no `ORDER BY`, so results are sets of rows.
- BookingDao.BookingTable.Insert: requires a key not yet in the table. What `@Insert` does on a key conflict depends on the `Booking` entity's primary-key declaration, which is not part of this model.
- The `Booking`, `User` and `Store` entity classes are not part of this model. `User` holds the fields the login lookup reads (`userId`, `username`, `password`). `Store` holds `name` and `avHours`, which the merge reads, and `info` and `location`, which `StoreCard` shows. `Booking` holds `userId`, which `getBookingsForUser` selects on, and `storeId`, `date` and `persons`, which the booking history in ProfileScreen.kt shows. `bookingId` stands for the booking's primary key.
- User interface: navigation, route-argument parsing, the toast, the test button, the three-second hiding of the error message, and all of `StoreCard` rendering (including the `trim()` applied when an hour is drawn).
- Registration and the random user id: registration is not part of the modelled code.
- `ProfileScreen.kt` and `MainActivity.kt`: composables and activity wiring only.
