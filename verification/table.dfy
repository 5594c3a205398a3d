/** The `reservations` table as a sequence of rows, and what the service's
    queries, update and delete do to it: the conflict count, the lookup by
    id, the ordered listing, the column update and the delete. The insert
    is a plain append, written where the service creates a row. */
module Table {
  import opened Outcomes
  import opened Interval

  /** One row of the table. Timestamps are integers. */
  datatype Reservation = Reservation(
    id: int,
    spaceName: string,
    userName: string,
    startTime: int,
    endTime: int)

  /** A partial update. A name is supplied when it is present and not empty
      (a JavaScript truthy string); a timestamp is supplied when present
      (None stands for a missing or empty timestamp). */
  datatype Patch = Patch(
    spaceName: Option<string>,
    userName: Option<string>,
    startTime: Option<int>,
    endTime: Option<int>)

  /** The columns an update may set. */
  datatype Column = SpaceNameColumn | UserNameColumn | StartTimeColumn | EndTimeColumn

  /** JavaScript truthiness of an optional string. */
  predicate Filled(o: Option<string>) {
    o.Some? && o.value != ""
  }

  /** `supplied || current` for a name. */
  function OrName(o: Option<string>, current: string): string {
    if Filled(o) then o.value else current
  }

  /** `supplied || current` for a timestamp. */
  function OrTime(o: Option<int>, current: int): int {
    if o.Some? then o.value else current
  }

  /** The update supplies the space or either end of the interval, so the
      slot has to be checked again. */
  predicate TouchesSlot(p: Patch) {
    p.startTime.Some? || p.endTime.Some? || Filled(p.spaceName)
  }

  /** The update supplies at least one column. */
  predicate AnySupplied(p: Patch) {
    TouchesSlot(p) || Filled(p.userName)
  }

  /** The row after the supplied columns of `p` are written over it. */
  function ApplyPatch(row: Reservation, p: Patch): Reservation {
    Reservation(
      row.id,
      OrName(p.spaceName, row.spaceName),
      OrName(p.userName, row.userName),
      OrTime(p.startTime, row.startTime),
      OrTime(p.endTime, row.endTime))
  }

  /** Exclusion applies only to a truthy id, that is a present, non-zero one. */
  predicate Excludes(excludeId: Option<int>) {
    excludeId.Some? && excludeId.value != 0
  }

  /** The row takes part in the conflict query: it is not the excluded one. */
  predicate Counted(row: Reservation, excludeId: Option<int>) {
    !(Excludes(excludeId) && row.id == excludeId.value)
  }

  /** The WHERE clause of the conflict query, for one row. */
  predicate Matches(row: Reservation, spaceName: string, startTime: int, endTime: int, excludeId: Option<int>) {
    row.spaceName == spaceName
    && ThreeClause(row.startTime, row.endTime, startTime, endTime)
    && Counted(row, excludeId)
  }

  /** `SELECT COUNT(*)` of the conflict query: zero exactly when no row
      matches. */
  function CountConflicts(
    rows: seq<Reservation>, spaceName: string, startTime: int, endTime: int, excludeId: Option<int>): (n: nat)
    ensures n <= |rows|
    ensures n == 0 <==> forall i | 0 <= i < |rows| :: !Matches(rows[i], spaceName, startTime, endTime, excludeId)
  {
    if rows == [] then 0
    else
      (if Matches(rows[0], spaceName, startTime, endTime, excludeId) then 1 else 0)
      + CountConflicts(rows[1..], spaceName, startTime, endTime, excludeId)
  }

  /** Some row carries this id. */
  predicate HasId(rows: seq<Reservation>, id: int) {
    exists i | 0 <= i < |rows| :: rows[i].id == id
  }

  /** `SELECT * ... WHERE id = $1`, first row or nothing. */
  function FindById(rows: seq<Reservation>, id: int): (found: Option<Reservation>)
    ensures found.Some? <==> HasId(rows, id)
    ensures found.Some? ==> found.value in rows && found.value.id == id
  {
    if rows == [] then None
    else if rows[0].id == id then Some(rows[0])
    else FindById(rows[1..], id)
  }

  /** `DELETE ... WHERE id = $1`: keeps exactly the rows with another id
      (how many times each is kept is `RemoveCounts`). The number of removed
      rows is positive exactly when the id was present. */
  function Remove(rows: seq<Reservation>, id: int): (kept: seq<Reservation>)
    ensures forall x :: x in kept <==> x in rows && x.id != id
    ensures !HasId(kept, id)
    ensures |kept| <= |rows|
    ensures |kept| < |rows| <==> HasId(rows, id)
  {
    if rows == [] then []
    else if rows[0].id == id then Remove(rows[1..], id)
    else [rows[0]] + Remove(rows[1..], id)
  }

  /** The delete keeps each row with another id exactly as many times as
      the table held it, and no row with the id. */
  lemma {:induction false} RemoveCounts(rows: seq<Reservation>, id: int)
    ensures forall x :: multiset(Remove(rows, id))[x] == if x.id == id then 0 else multiset(rows)[x]
  {
    if rows != [] {
      RemoveCounts(rows[1..], id);
      assert rows == [rows[0]] + rows[1..];
    }
  }

  /** `UPDATE ... SET <supplied columns> WHERE id = $n`: every row with that
      id gets the supplied columns, every other row is left as it was. */
  function UpdateWhere(rows: seq<Reservation>, id: int, p: Patch): (updated: seq<Reservation>)
    ensures |updated| == |rows|
    ensures forall i | 0 <= i < |rows| ::
      updated[i] == if rows[i].id == id then ApplyPatch(rows[i], p) else rows[i]
  {
    if rows == [] then []
    else [if rows[0].id == id then ApplyPatch(rows[0], p) else rows[0]] + UpdateWhere(rows[1..], id, p)
  }

  /** Rows listed by non-decreasing start time. */
  predicate SortedByStart(rows: seq<Reservation>) {
    forall i, j | 0 <= i < j < |rows| :: rows[i].startTime <= rows[j].startTime
  }

  /** A row that starts no later than the head of a sorted list may be put
      in front of it. */
  lemma PrependSorted(y: Reservation, rest: seq<Reservation>)
    requires SortedByStart(rest)
    requires rest != [] ==> y.startTime <= rest[0].startTime
    ensures SortedByStart([y] + rest)
  {
    var all := [y] + rest;
    forall i, j | 0 <= i < j < |all| ensures all[i].startTime <= all[j].startTime {
      assert all[j] == rest[j - 1];
      if i > 0 {
        assert all[i] == rest[i - 1];
      }
    }
  }

  /** Insert one row into a list sorted by start time. */
  function InsertByStart(x: Reservation, sorted: seq<Reservation>): (r: seq<Reservation>)
    requires SortedByStart(sorted)
    ensures SortedByStart(r)
    ensures multiset(r) == multiset(sorted) + multiset{x}
    ensures r[0] == x || (sorted != [] && r[0] == sorted[0])
  {
    if sorted == [] || x.startTime <= sorted[0].startTime then
      PrependSorted(x, sorted);
      [x] + sorted
    else
      var tail := sorted[1..];
      assert SortedByStart(tail) by {
        forall i, j | 0 <= i < j < |tail| ensures tail[i].startTime <= tail[j].startTime {
          assert tail[i] == sorted[i + 1] && tail[j] == sorted[j + 1];
        }
      }
      var rest := InsertByStart(x, tail);
      PrependSorted(sorted[0], rest);
      assert sorted == [sorted[0]] + tail;
      [sorted[0]] + rest
  }

  /** `SELECT * ... ORDER BY start_time`: the same rows, by start time. */
  function SortByStart(rows: seq<Reservation>): (r: seq<Reservation>)
    ensures SortedByStart(r)
    ensures multiset(r) == multiset(rows)
  {
    if rows == [] then []
    else
      assert rows == [rows[0]] + rows[1..];
      InsertByStart(rows[0], SortByStart(rows[1..]))
  }

  /** Two rows book the same space for a shared instant. */
  predicate Clash(x: Reservation, y: Reservation) {
    x.spaceName == y.spaceName && Overlaps(x.startTime, x.endTime, y.startTime, y.endTime)
  }

  /** The table's invariant: no two rows double-book a space. */
  predicate NoDoubleBooking(rows: seq<Reservation>) {
    forall i, j | 0 <= i < |rows| && 0 <= j < |rows| && i != j :: !Clash(rows[i], rows[j])
  }

  /** Ids identify rows. */
  predicate UniqueIds(rows: seq<Reservation>) {
    forall i, j | 0 <= i < |rows| && 0 <= j < |rows| && i != j :: rows[i].id != rows[j].id
  }

  /** Ids come from a sequence that starts at 1 and has reached `nextId`. */
  predicate IdsBelow(rows: seq<Reservation>, nextId: int) {
    forall i | 0 <= i < |rows| :: 1 <= rows[i].id < nextId
  }

  /** Every row starts strictly before it ends. */
  predicate AllWellFormed(rows: seq<Reservation>) {
    forall i | 0 <= i < |rows| :: WellFormed(rows[i].startTime, rows[i].endTime)
  }

  // ---------------------------------------------------------------------
  // The conflict query

  /** A zero count rules out a clash, in either direction, with every row
      the query counted. */
  lemma NoConflictMeansNoClash(rows: seq<Reservation>, c: Reservation, excludeId: Option<int>)
    requires CountConflicts(rows, c.spaceName, c.startTime, c.endTime, excludeId) == 0
    ensures forall i | 0 <= i < |rows| && Counted(rows[i], excludeId) ::
      !Clash(rows[i], c) && !Clash(c, rows[i])
  {
  }

  /** On well-formed data the query reports a conflict exactly when a
      counted row clashes with the candidate: no missed double booking and
      no false rejection. */
  lemma ConflictIffClash(rows: seq<Reservation>, c: Reservation, excludeId: Option<int>)
    requires AllWellFormed(rows) && WellFormed(c.startTime, c.endTime)
    ensures CountConflicts(rows, c.spaceName, c.startTime, c.endTime, excludeId) > 0 <==>
      exists i | 0 <= i < |rows| :: Counted(rows[i], excludeId) && Clash(rows[i], c)
  {
  }

  /** Excluding a truthy id counts exactly what an unexcluded query counts
      on the table without that id's rows. */
  lemma {:induction false} ExclusionSkipsOnlyThatId(
    rows: seq<Reservation>, spaceName: string, startTime: int, endTime: int, id: int)
    requires id != 0
    ensures CountConflicts(rows, spaceName, startTime, endTime, Some(id))
         == CountConflicts(Remove(rows, id), spaceName, startTime, endTime, None)
  {
    if rows != [] {
      ExclusionSkipsOnlyThatId(rows[1..], spaceName, startTime, endTime, id);
      if rows[0].id != id {
        var tail := Remove(rows[1..], id);
        assert ([rows[0]] + tail)[1..] == tail;
      }
    }
  }

  /** An id of 0 is falsy: it excludes nothing. */
  lemma {:induction false} ZeroIdExcludesNothing(
    rows: seq<Reservation>, spaceName: string, startTime: int, endTime: int)
    ensures CountConflicts(rows, spaceName, startTime, endTime, Some(0))
         == CountConflicts(rows, spaceName, startTime, endTime, None)
  {
    if rows != [] {
      ZeroIdExcludesNothing(rows[1..], spaceName, startTime, endTime);
    }
  }

  // ---------------------------------------------------------------------
  // Lookup and update

  /** With unique ids the lookup returns the one row carrying the id. */
  lemma FindUnique(rows: seq<Reservation>, k: int)
    requires UniqueIds(rows) && 0 <= k < |rows|
    ensures FindById(rows, rows[k].id) == Some(rows[k])
  {
  }

  /** After the update the lookup returns the first matching row with the
      supplied columns written over it (what `RETURNING *` yields). */
  lemma {:induction false} FindAfterUpdate(rows: seq<Reservation>, id: int, p: Patch)
    requires FindById(rows, id).Some?
    ensures FindById(UpdateWhere(rows, id, p), id) == Some(ApplyPatch(FindById(rows, id).value, p))
  {
    if rows[0].id != id {
      FindAfterUpdate(rows[1..], id, p);
    }
  }

  // ---------------------------------------------------------------------
  // The invariant under insert, update and delete

  /** Prepending a row that clashes with no row of a valid table, and
      shares no id with one, keeps it valid. */
  lemma ConsKeepsInvariant(x: Reservation, rows: seq<Reservation>)
    requires NoDoubleBooking(rows) && UniqueIds(rows)
    requires forall y | y in rows :: !Clash(x, y) && !Clash(y, x) && x.id != y.id
    ensures NoDoubleBooking([x] + rows) && UniqueIds([x] + rows)
  {
  }

  /** Insert preserves the invariant when the conflict query found nothing,
      whatever the shape of the new interval. */
  lemma InsertKeepsNoDoubleBooking(rows: seq<Reservation>, row: Reservation)
    requires NoDoubleBooking(rows)
    requires CountConflicts(rows, row.spaceName, row.startTime, row.endTime, None) == 0
    ensures NoDoubleBooking(rows + [row])
  {
  }

  /** Update preserves the invariant when it either leaves the slot alone or
      the query on the merged slot, excluding the row's own id, found
      nothing. */
  lemma UpdateKeepsInvariant(rows: seq<Reservation>, id: int, p: Patch)
    requires NoDoubleBooking(rows) && UniqueIds(rows)
    requires FindById(rows, id).Some?
    requires var m := ApplyPatch(FindById(rows, id).value, p);
      !TouchesSlot(p) || CountConflicts(rows, m.spaceName, m.startTime, m.endTime, Some(id)) == 0
    ensures NoDoubleBooking(UpdateWhere(rows, id, p)) && UniqueIds(UpdateWhere(rows, id, p))
  {
    var cur := FindById(rows, id).value;
    var m := ApplyPatch(cur, p);
    var k :| 0 <= k < |rows| && rows[k] == cur;
    var after := UpdateWhere(rows, id, p);
    assert after[k] == m;
    if TouchesSlot(p) {
      NoConflictMeansNoClash(rows, m, Some(id));
    }
    forall i, j | 0 <= i < |after| && 0 <= j < |after| && i != j
      ensures !Clash(after[i], after[j]) && after[i].id != after[j].id
    {
      if i == k {
        assert rows[j].id != id && after[j] == rows[j];
        assert Counted(rows[j], Some(id));
      } else if j == k {
        assert rows[i].id != id && after[i] == rows[i];
        assert Counted(rows[i], Some(id));
      } else {
        assert after[i] == rows[i] && after[j] == rows[j];
      }
    }
  }

  /** Appending a row with the sequence's next id keeps ids unique and
      issued by the sequence, which has then moved on by one. */
  lemma InsertFreshKeepsIds(rows: seq<Reservation>, row: Reservation, nextId: int)
    requires UniqueIds(rows) && IdsBelow(rows, nextId)
    requires 1 <= nextId && row.id == nextId
    ensures UniqueIds(rows + [row]) && IdsBelow(rows + [row], nextId + 1)
  {
  }

  /** An update never changes an id, so every id is still one the sequence
      issued. */
  lemma UpdateKeepsIdsBelow(rows: seq<Reservation>, id: int, p: Patch, nextId: int)
    requires IdsBelow(rows, nextId)
    ensures forall i | 0 <= i < |rows| :: UpdateWhere(rows, id, p)[i].id == rows[i].id
    ensures IdsBelow(UpdateWhere(rows, id, p), nextId)
  {
  }

  /** A delete keeps only rows that were there. */
  lemma RemoveKeepsIdsBelow(rows: seq<Reservation>, id: int, nextId: int)
    requires IdsBelow(rows, nextId)
    ensures IdsBelow(Remove(rows, id), nextId)
  {
  }

  /** Delete preserves the invariant: removing rows cannot create a clash. */
  lemma {:induction false} RemoveKeepsInvariant(rows: seq<Reservation>, id: int)
    requires NoDoubleBooking(rows) && UniqueIds(rows)
    ensures NoDoubleBooking(Remove(rows, id)) && UniqueIds(Remove(rows, id))
  {
    if rows != [] {
      var tail := rows[1..];
      assert NoDoubleBooking(tail) && UniqueIds(tail) by {
        forall i, j | 0 <= i < |tail| && 0 <= j < |tail| && i != j
          ensures !Clash(tail[i], tail[j]) && tail[i].id != tail[j].id
        {
          assert tail[i] == rows[i + 1] && tail[j] == rows[j + 1];
        }
      }
      RemoveKeepsInvariant(tail, id);
      if rows[0].id != id {
        var kept := Remove(tail, id);
        forall y | y in kept
          ensures !Clash(rows[0], y) && !Clash(y, rows[0]) && rows[0].id != y.id
        {
          var j :| 0 <= j < |tail| && tail[j] == y;
          assert rows[j + 1] == y;
        }
        ConsKeepsInvariant(rows[0], kept);
      }
    }
  }
}
