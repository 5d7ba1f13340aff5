/**
 * The `reservations` table and the queries and writes the application runs
 * against it (src/Models/Reservation.php). The table is kept in row order;
 * every `ORDER BY` is applied when a query reads it.
 */
module Reservations {
  import opened Wrappers
  import opened Strings
  import opened Sorting
  import opened Hex
  import opened Calendar

  datatype Reservation = Reservation(
    id: string,
    userId: int,
    userEmail: string,
    area: string,
    responsible: string,
    numPeople: int,
    date: string,
    startTime: string,
    endTime: string,
    comment: string,
    createdAt: string,
    updatedAt: string)

  /**
   * The seven editable fields a reservation form carries. `comment` may be
   * missing, in which case the table stores ''.
   */
  datatype Draft = Draft(
    area: string,
    responsible: string,
    numPeople: int,
    date: string,
    startTime: string,
    endTime: string,
    comment: Option<string>)

  /** The dashboard counters. */
  datatype Stats = Stats(total: nat, today: nat, upcoming: nat)

  /** `ORDER BY reservation_date ASC, start_time ASC`. */
  function ScheduleKey(r: Reservation): Key {
    (r.date, r.startTime)
  }

  /** `ORDER BY start_time ASC`. */
  function StartKey(r: Reservation): Key {
    (r.startTime, "")
  }

  /** `id` is the table's primary key. */
  ghost predicate IdsUnique(rows: seq<Reservation>) {
    forall i, j :: 0 <= i < j < |rows| ==> rows[i].id != rows[j].id
  }

  /** `SELECT * FROM reservations WHERE id = ?`, first match in row order. */
  function Lookup(rows: seq<Reservation>, id: string): (r: Option<Reservation>)
    ensures r.Some? ==> r.value in rows && r.value.id == id
    ensures r.None? <==> forall x :: x in rows ==> x.id != id
  {
    FirstWhere(rows, (x: Reservation) => x.id == id)
  }

  /** In a table with a unique key, the row found is the row with that id. */
  lemma LookupUnique(rows: seq<Reservation>, i: nat)
    requires IdsUnique(rows) && i < |rows|
    ensures Lookup(rows, rows[i].id) == Some(rows[i])
  {
    var v := Lookup(rows, rows[i].id).value;
    var j :| 0 <= j < |rows| && rows[j] == v;
    assert i == j;
  }

  /** The fields of the form as a row carries them (for comparing a row with its input). */
  predicate Carries(r: Reservation, d: Draft) {
    r.area == d.area && r.responsible == d.responsible && r.numPeople == d.numPeople
    && r.date == d.date && r.startTime == d.startTime && r.endTime == d.endTime
    && r.comment == d.comment.GetOr("")
  }

  /** The row `INSERT INTO reservations` writes. */
  function NewRow(id: string, userId: int, userEmail: Option<string>, d: Draft, now: string): (r: Reservation)
    ensures r.id == id && r.userId == userId && Carries(r, d)
    ensures r.userEmail == (if userEmail.Some? then userEmail.value else "")
    ensures r.comment == (if d.comment.Some? then d.comment.value else "")
    ensures r.createdAt == now && r.updatedAt == now
  {
    Reservation(id, userId, userEmail.GetOr(""), d.area, d.responsible, d.numPeople,
                d.date, d.startTime, d.endTime, d.comment.GetOr(""), now, now)
  }

  /** The row `UPDATE reservations SET ...` leaves: only the editable fields change. */
  function Edited(r: Reservation, d: Draft): (e: Reservation)
    ensures e.id == r.id && e.userId == r.userId && e.userEmail == r.userEmail
    ensures e.createdAt == r.createdAt && e.updatedAt == r.updatedAt
    ensures Carries(e, d)
    ensures e.comment == (if d.comment.Some? then d.comment.value else "")
  {
    r.(area := d.area, responsible := d.responsible, numPeople := d.numPeople,
       date := d.date, startTime := d.startTime, endTime := d.endTime,
       comment := d.comment.GetOr(""))
  }

  /** PHP truthiness of the `?string $excludeId` argument: null, '' and '0' exclude nothing. */
  predicate Excludes(excludeId: Option<string>) {
    excludeId.Some? && !Empty(excludeId.value)
  }

  /** The `WHERE` clause of `hasTimeConflict`, for one row. */
  predicate Clashes(r: Reservation, date: string, start: string, end: string, excludeId: Option<string>) {
    r.date == date && Less(r.startTime, end) && Less(start, r.endTime)
    && !(Excludes(excludeId) && r.id == excludeId.value)
  }

  /** `DELETE FROM reservations WHERE id = ?`. */
  function Removed(rows: seq<Reservation>, id: string): (r: seq<Reservation>)
    ensures forall x :: x in r <==> x in rows && x.id != id
    ensures (forall x :: x in rows ==> x.id != id) ==> r == rows
    ensures |r| <= |rows|
  {
    if rows == [] then []
    else if rows[0].id == id then Removed(rows[1..], id)
    else
      var rest := Removed(rows[1..], id);
      assert rows == [rows[0]] + rows[1..];
      [rows[0]] + rest
  }

  /** Deleting keeps the other rows in their order, hence the primary key stays unique. */
  lemma {:induction false} RemovedKeepsIdsUnique(rows: seq<Reservation>, id: string)
    requires IdsUnique(rows)
    ensures IdsUnique(Removed(rows, id))
    ensures Lookup(rows, id).Some? ==> |Removed(rows, id)| == |rows| - 1
  {
    if rows != [] {
      RemovedKeepsIdsUnique(rows[1..], id);
      var rest := Removed(rows[1..], id);
      if rows[0].id != id {
        forall j | 0 < j < |[rows[0]] + rest| ensures rows[0].id != ([rows[0]] + rest)[j].id {
          assert rest[j - 1] in rows[1..];
        }
      } else {
        assert forall x :: x in rows[1..] ==> x.id != id;
      }
    }
  }

  /** Rows with unique ids are pairwise distinct. */
  lemma DistinctRows(rows: seq<Reservation>)
    requires IdsUnique(rows)
    ensures forall i, j :: 0 <= i < j < |rows| ==> rows[i] != rows[j]
  {
  }

  /** The condition `reservation_date = day`. */
  function OnDay(day: string): Reservation -> bool
  {
    (x: Reservation) => x.date == day
  }

  /** The condition `reservation_date >= day`. */
  function FromDay(day: string): Reservation -> bool
  {
    (x: Reservation) => LessEq(day, x.date)
  }

  /** `COUNT(*) ... WHERE reservation_date = today` counts the distinct reservations on that day. */
  lemma TodayCount(rows: seq<Reservation>, today: string)
    requires IdsUnique(rows)
    ensures |Where(rows, OnDay(today))| == |set r | r in rows && r.date == today|
  {
    DistinctRows(rows);
    WhereCount(rows, OnDay(today), set r | r in rows && r.date == today);
  }

  /** `COUNT(*) ... WHERE reservation_date >= today` counts the distinct reservations from that day on. */
  lemma UpcomingCount(rows: seq<Reservation>, today: string)
    requires IdsUnique(rows)
    ensures |Where(rows, FromDay(today))| == |set r | r in rows && LessEq(today, r.date)|
  {
    DistinctRows(rows);
    WhereCount(rows, FromDay(today), set r | r in rows && LessEq(today, r.date));
  }

  /** Deleting is filtering: the rows kept are those whose id differs, in their order. */
  lemma {:induction false} RemovedIsWhere(rows: seq<Reservation>, id: string, keep: Reservation -> bool)
    requires forall x :: keep(x) == (x.id != id)
    ensures Removed(rows, id) == Where(rows, keep)
  {
    if rows != [] {
      RemovedIsWhere(rows[1..], id, keep);
    }
  }

  class ReservationStore {
    /** The rows of the table, in insertion order. */
    var rows: seq<Reservation>

    ghost predicate Valid()
      reads this
    {
      IdsUnique(rows)
    }

    constructor ()
      ensures Valid() && rows == []
    {
      rows := [];
    }

    /** `findById`: the row with that id, or null. */
    function FindById(id: string): (r: Option<Reservation>)
      reads this
      ensures r.Some? ==> r.value in rows && r.value.id == id
      ensures r.None? <==> forall x :: x in rows ==> x.id != id
    {
      Lookup(rows, id)
    }

    /** `getAll`: every row, by date and then start time. */
    function GetAll(): (r: seq<Reservation>)
      reads this
      ensures multiset(r) == multiset(rows)
      ensures SortedBy(r, ScheduleKey)
    {
      SortBy(rows, ScheduleKey)
    }

    /** `getByUserId`: exactly the rows of one user, by date and then start time. */
    function GetByUserId(userId: int): (r: seq<Reservation>)
      reads this
      ensures forall x :: multiset(r)[x] == if x.userId == userId then multiset(rows)[x] else 0
      ensures SortedBy(r, ScheduleKey)
    {
      var mine := Where(rows, (x: Reservation) => x.userId == userId);
      assert forall x :: multiset(mine)[x] == if x.userId == userId then multiset(rows)[x] else 0 by {
        forall x { WhereMultiset(rows, (x: Reservation) => x.userId == userId, x); }
      }
      SortBy(mine, ScheduleKey)
    }

    /** `getByDate`: exactly the rows of one day, by start time. */
    function GetByDate(date: string): (r: seq<Reservation>)
      reads this
      ensures forall x :: multiset(r)[x] == if x.date == date then multiset(rows)[x] else 0
      ensures forall i, j :: 0 <= i < j < |r| ==> LessEq(r[i].startTime, r[j].startTime)
    {
      var day := Where(rows, (x: Reservation) => x.date == date);
      assert forall x :: multiset(day)[x] == if x.date == date then multiset(rows)[x] else 0 by {
        forall x { WhereMultiset(rows, (x: Reservation) => x.date == date, x); }
      }
      var r := SortBy(day, StartKey);
      assert forall i, j :: 0 <= i < j < |r| ==> KeyLe(StartKey(r[i]), StartKey(r[j]));
      r
    }

    /**
     * `getByMonth`: the rows whose date lies BETWEEN the first and the last
     * day of the month, both written `YYYY-MM-DD`, by date and start time.
     */
    function GetByMonth(year: int, month: int): (r: seq<Reservation>)
      requires 1 <= year <= 9999 && 1 <= month <= 12
      reads this
      ensures forall x :: multiset(r)[x] ==
                (if LessEq(FormatDate(year, month, 1), x.date)
                    && LessEq(x.date, FormatDate(year, month, DaysInMonth(year, month)))
                 then multiset(rows)[x] else 0)
      ensures SortedBy(r, ScheduleKey)
    {
      var first, last := FormatDate(year, month, 1), FormatDate(year, month, DaysInMonth(year, month));
      var p := (x: Reservation) => LessEq(first, x.date) && LessEq(x.date, last);
      var inMonth := Where(rows, p);
      assert forall x :: multiset(inMonth)[x] == if p(x) then multiset(rows)[x] else 0 by {
        forall x { WhereMultiset(rows, p, x); }
      }
      SortBy(inMonth, ScheduleKey)
    }

    /**
     * `hasTimeConflict`: whether some row on `date` other than the excluded
     * one has a time range that overlaps [start, end).
     */
    function HasTimeConflict(date: string, start: string, end: string, excludeId: Option<string>): (b: bool)
      reads this
      ensures b <==> exists x :: x in rows && Clashes(x, date, start, end, excludeId)
    {
      var clashing := Where(rows, (x: Reservation) => Clashes(x, date, start, end, excludeId));
      assert clashing != [] ==> clashing[0] in clashing;
      |clashing| > 0
    }

    /**
     * `getStats`: how many rows there are, how many fall on `today` and how
     * many on `today` or later.
     */
    function GetStats(today: string): (s: Stats)
      requires Valid()
      reads this
      ensures s.total == |set r | r in rows|
      ensures s.today == |set r | r in rows && r.date == today|
      ensures s.upcoming == |set r | r in rows && LessEq(today, r.date)|
      ensures s.today <= s.upcoming <= s.total
    {
      DistinctRows(rows);
      DistinctCardinality(rows);
      TodayCount(rows, today);
      UpcomingCount(rows, today);
      WhereMonotone(rows, OnDay(today), FromDay(today));
      Stats(|rows|, |Where(rows, OnDay(today))|, |Where(rows, FromDay(today))|)
    }

    /**
     * `create`: inserts a row under the identifier `bin2hex(random_bytes(8))`
     * and returns that identifier; when the identifier is already taken the
     * INSERT fails on the primary key and null is returned.
     */
    method Create(userId: int, userEmail: Option<string>, d: Draft, random: seq<Byte>, now: string)
      returns (id: Option<string>)
      requires Valid() && |random| == 8
      modifies this
      ensures Valid()
      ensures old(Lookup(rows, BinToHex(random))).Some? ==> id == None && rows == old(rows)
      ensures old(Lookup(rows, BinToHex(random))).None? ==>
                id == Some(BinToHex(random))
                && rows == old(rows) + [NewRow(BinToHex(random), userId, userEmail, d, now)]
      ensures id.Some? ==> |id.value| == 16 && FindById(id.value) == Some(NewRow(id.value, userId, userEmail, d, now))
    {
      var newId := BinToHex(random);
      if Lookup(rows, newId).Some? {
        id := None;
      } else {
        var row := NewRow(newId, userId, userEmail, d, now);
        rows := rows + [row];
        id := Some(newId);
        LookupUnique(rows, |rows| - 1);
      }
    }

    /**
     * `update`: overwrites the editable fields of the row with that id (if
     * any); `updated_at` is not touched. The statement succeeds whether or
     * not a row matched.
     */
    method Update(id: string, d: Draft) returns (ok: bool)
      requires Valid()
      modifies this
      ensures Valid() && ok
      ensures |rows| == |old(rows)|
      ensures forall i :: 0 <= i < |rows| ==>
                rows[i] == if old(rows[i]).id == id then Edited(old(rows[i]), d) else old(rows[i])
    {
      var before := rows;
      rows := seq(|before|, i requires 0 <= i < |before| =>
                if before[i].id == id then Edited(before[i], d) else before[i]);
      ok := true;
    }

    /** `delete`: removes the row with that id, if any; every other row stays as it was. */
    method Delete(id: string) returns (ok: bool)
      requires Valid()
      modifies this
      ensures Valid() && ok
      ensures rows == Removed(old(rows), id)
    {
      RemovedKeepsIdsUnique(rows, id);
      rows := Removed(rows, id);
      ok := true;
    }
  }

  /** A row of a month listing is a row of that calendar month, when its date is well formed. */
  lemma MonthListingIsCalendarMonth(store: ReservationStore, year: int, month: int,
                                    x: Reservation, y: int, m: int, d: int)
    requires IsDate(year, month, 1) && IsDate(y, m, d)
    requires x in store.rows && x.date == FormatDate(y, m, d)
    ensures x in store.GetByMonth(year, month) <==> y == year && m == month
  {
    MonthRangeIsMonth(year, month, y, m, d);
    var r := store.GetByMonth(year, month);
    assert x in r <==> multiset(r)[x] > 0;
    assert multiset(store.rows)[x] > 0;
  }
}
