/**
 * The booking table and its data-access operations (app/src/main/java/BookingDAO.kt).
 *
 * The table is keyed by the booking's primary key. `insert` adds a row, `delete`
 * removes the row with the given booking's key, `deleteAllBookings` empties the
 * table, and the two queries select every row or the rows of one user. The queries
 * carry no ORDER BY, so their results are stated as sets of rows.
 */
module BookingDao {

  /** A row of the booking table; `bookingId` stands for its primary key. */
  datatype Booking = Booking(bookingId: int, userId: int, storeId: int, date: string, persons: int)

  /** The rows of the table, each under its primary key. */
  type Table = map<int, Booking>

  /** Every row is stored under its own key. */
  predicate WellKeyed(table: Table) {
    forall k :: k in table ==> table[k].bookingId == k
  }

  /** `SELECT * FROM booking_table`: exactly the rows stored in the table. */
  function AllRows(table: Table): (rows: set<Booking>)
    requires WellKeyed(table)
    ensures forall b :: b in rows <==> b.bookingId in table && table[b.bookingId] == b
  {
    set k | k in table :: table[k]
  }

  /** `SELECT * FROM booking_table WHERE userId = :userId`: exactly the rows of that user. */
  function RowsForUser(table: Table, userId: int): (rows: set<Booking>)
    requires WellKeyed(table)
    ensures forall b :: b in rows <==> b in AllRows(table) && b.userId == userId
  {
    set k | k in table && table[k].userId == userId :: table[k]
  }

  /** The table after `@Insert` of a row whose key is not yet present. */
  function InsertRow(table: Table, booking: Booking): (after: Table)
    ensures after.Keys == table.Keys + {booking.bookingId}
    ensures after[booking.bookingId] == booking
    ensures forall k :: k in table && k != booking.bookingId ==> after[k] == table[k]
  {
    table[booking.bookingId := booking]
  }

  /** The table after `@Delete`, which matches the row by primary key only. */
  function DeleteRow(table: Table, booking: Booking): (after: Table)
    ensures after.Keys == table.Keys - {booking.bookingId}
    ensures forall k :: k in after ==> after[k] == table[k]
  {
    table - {booking.bookingId}
  }

  /**
   * Inserting a row with a fresh key adds exactly that row: it appears among all
   * rows and among its user's rows, every other user's rows stay as they were, and
   * the table holds one row more.
   */
  lemma InsertRowEffect(table: Table, booking: Booking)
    requires WellKeyed(table) && booking.bookingId !in table
    ensures WellKeyed(InsertRow(table, booking))
    ensures AllRows(InsertRow(table, booking)) == AllRows(table) + {booking}
    ensures RowsForUser(InsertRow(table, booking), booking.userId) == RowsForUser(table, booking.userId) + {booking}
    ensures forall v :: v != booking.userId ==> RowsForUser(InsertRow(table, booking), v) == RowsForUser(table, v)
    ensures |AllRows(InsertRow(table, booking))| == |AllRows(table)| + 1
  {
    InsertAllRows(table, booking);
    forall v {
      InsertUserRows(table, booking, v);
    }
    assert booking !in AllRows(table);
  }

  /** After an insert, all rows are the old rows plus the inserted one. */
  lemma InsertAllRows(table: Table, booking: Booking)
    requires WellKeyed(table) && booking.bookingId !in table
    ensures WellKeyed(InsertRow(table, booking))
    ensures AllRows(InsertRow(table, booking)) == AllRows(table) + {booking}
  {
    var after := InsertRow(table, booking);
    forall b ensures b in AllRows(after) <==> b in AllRows(table) + {booking} {
      if b.bookingId == booking.bookingId {
        assert b in AllRows(table) <==> false;
      }
    }
  }

  /** After an insert, a user's rows gain the inserted row exactly when it is theirs. */
  lemma InsertUserRows(table: Table, booking: Booking, v: int)
    requires WellKeyed(table) && booking.bookingId !in table
    ensures WellKeyed(InsertRow(table, booking))
    ensures RowsForUser(InsertRow(table, booking), v)
         == RowsForUser(table, v) + (if v == booking.userId then {booking} else {})
  {
    InsertAllRows(table, booking);
  }

  /**
   * Deleting removes the row stored under the given booking's key, if any, and no
   * other: every other key keeps its row, and the table shrinks by at most one row.
   */
  lemma DeleteRowEffect(table: Table, booking: Booking)
    requires WellKeyed(table)
    ensures WellKeyed(DeleteRow(table, booking))
    ensures booking.bookingId !in DeleteRow(table, booking)
    ensures forall k :: k in table && k != booking.bookingId ==> k in DeleteRow(table, booking) && DeleteRow(table, booking)[k] == table[k]
    ensures booking.bookingId in table ==> AllRows(DeleteRow(table, booking)) == AllRows(table) - {table[booking.bookingId]}
    ensures booking.bookingId !in table ==> AllRows(DeleteRow(table, booking)) == AllRows(table)
    ensures |AllRows(table)| - 1 <= |AllRows(DeleteRow(table, booking))| <= |AllRows(table)|
  {
    var after := DeleteRow(table, booking);
    if booking.bookingId in table {
      var gone := table[booking.bookingId];
      assert AllRows(after) == AllRows(table) - {gone};
    } else {
      assert after == table;
    }
  }

  /** The rows of one user are among all rows. */
  lemma RowsForUserAreRows(table: Table, userId: int)
    requires WellKeyed(table)
    ensures RowsForUser(table, userId) <= AllRows(table)
  {
  }

  /** A table with no rows answers both queries with no rows. */
  lemma EmptyTableHasNoRows(userId: int)
    ensures AllRows(map[]) == {} && RowsForUser(map[], userId) == {}
  {
  }

  /** The Room DAO over the booking table, with the table as its state. */
  class BookingTable {
    var table: Table

    ghost predicate Valid()
      reads this
    {
      WellKeyed(table)
    }

    constructor ()
      ensures Valid() && table == map[]
    {
      table := map[];
    }

    /** `getAllBookings()`, as a snapshot of the current rows. */
    function GetAllBookings(): (rows: set<Booking>)
      reads this
      requires Valid()
      ensures forall b :: b in rows <==> b.bookingId in table && table[b.bookingId] == b
    {
      AllRows(table)
    }

    /** `getBookingsForUser(userId)`, as a snapshot of the current rows. */
    function GetBookingsForUser(userId: int): (rows: set<Booking>)
      reads this
      requires Valid()
      ensures rows <= GetAllBookings()
      ensures forall b :: b in rows <==> b in GetAllBookings() && b.userId == userId
    {
      RowsForUser(table, userId)
    }

    /** `insert(booking)` for a booking whose key is not in the table yet. */
    method Insert(booking: Booking)
      requires Valid() && booking.bookingId !in table
      modifies this
      ensures Valid() && table == InsertRow(old(table), booking)
      ensures GetAllBookings() == old(GetAllBookings()) + {booking}
      ensures booking in GetBookingsForUser(booking.userId)
      ensures forall v :: v != booking.userId ==> GetBookingsForUser(v) == old(GetBookingsForUser(v))
      ensures |GetAllBookings()| == |old(GetAllBookings())| + 1
    {
      InsertRowEffect(table, booking);
      table := InsertRow(table, booking);
    }

    /** `delete(booking)`: removes the row with the booking's key, if there is one. */
    method Delete(booking: Booking)
      requires Valid()
      modifies this
      ensures Valid() && table == DeleteRow(old(table), booking)
      ensures booking.bookingId !in table
      ensures forall k :: k in old(table) && k != booking.bookingId ==> k in table && table[k] == old(table)[k]
      ensures |old(GetAllBookings())| - 1 <= |GetAllBookings()| <= |old(GetAllBookings())|
    {
      DeleteRowEffect(table, booking);
      table := DeleteRow(table, booking);
    }

    /** `deleteAllBookings()`: afterwards no query returns any row. */
    method DeleteAllBookings()
      requires Valid()
      modifies this
      ensures Valid() && table == map[]
      ensures GetAllBookings() == {}
      ensures forall u :: GetBookingsForUser(u) == {}
    {
      table := map[];
    }
  }

  /** Read-after-write: a booking just made is listed for its user. */
  method CreateThenList(dao: BookingTable, booking: Booking) returns (listed: set<Booking>)
    requires dao.Valid() && booking.bookingId !in dao.table
    modifies dao
    ensures dao.Valid() && booking in listed && listed == dao.GetBookingsForUser(booking.userId)
  {
    dao.Insert(booking);
    listed := dao.GetBookingsForUser(booking.userId);
  }
}
