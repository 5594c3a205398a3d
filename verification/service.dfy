/** The reservation service: a `reservations` table held in place, with a
    sequence that hands out ids, and the operations that read it or change
    it while keeping any space from being booked twice for one instant. */
module Service {
  import opened Outcomes
  import opened Interval
  import opened Table

  /** The booking summary the service hands to the chat notifier after a
      successful insert. */
  datatype Notice = Notice(spaceName: string, userName: string, startTime: int, endTime: int)

  class ReservationService {
    /** The rows of the `reservations` table, in storage order. */
    var rows: seq<Reservation>
    /** The next value of the table's id sequence. */
    var nextId: int
    /** Notifications attempted so far, oldest first. Delivery is best
        effort: whether one arrives never changes an operation's result. */
    var outbox: seq<Notice>

    /** Ids are unique and issued by the sequence, and no space is booked
        twice for one instant. */
    ghost predicate Valid()
      reads this
    {
      1 <= nextId && UniqueIds(rows) && IdsBelow(rows, nextId) && NoDoubleBooking(rows)
    }

    constructor ()
      ensures Valid()
      ensures rows == [] && nextId == 1 && outbox == []
    {
      rows := [];
      nextId := 1;
      outbox := [];
    }

    /** Does any row for `spaceName` other than the excluded one collide
        with [startTime, endTime) under the three-clause test? */
    function CheckTimeConflict(spaceName: string, startTime: int, endTime: int, excludeId: Option<int>): (conflict: bool)
      reads this
      ensures conflict <==>
        exists i | 0 <= i < |rows| ::
          rows[i].spaceName == spaceName
          && ThreeClause(rows[i].startTime, rows[i].endTime, startTime, endTime)
          && !(Excludes(excludeId) && rows[i].id == excludeId.value)
    {
      CountConflicts(rows, spaceName, startTime, endTime, excludeId) > 0
    }

    /** All rows, earliest start first. */
    function GetReservations(): (list: seq<Reservation>)
      reads this
      ensures multiset(list) == multiset(rows)
      ensures forall i, j | 0 <= i < j < |list| :: list[i].startTime <= list[j].startTime
    {
      SortByStart(rows)
    }

    /** The row with this id, or nothing when there is none. */
    function GetReservationById(id: int): (found: Option<Reservation>)
      requires Valid()
      reads this
      ensures found.None? <==> forall i | 0 <= i < |rows| :: rows[i].id != id
      ensures forall i | 0 <= i < |rows| && rows[i].id == id :: found == Some(rows[i])
    {
      var r := FindById(rows, id);
      assert forall i | 0 <= i < |rows| && rows[i].id == id :: r == Some(rows[i]) by {
        forall i | 0 <= i < |rows| && rows[i].id == id ensures r == Some(rows[i]) {
          FindUnique(rows, i);
        }
      }
      r
    }

    /** Book [startTime, endTime) of `spaceName` for `userName` unless the
        conflict query finds a colliding row; on success, attempt a
        notification and return the stored row. */
    method CreateReservation(spaceName: string, userName: string, startTime: int, endTime: int)
      returns (r: Result<Reservation>)
      requires Valid()
      modifies this
      ensures Valid()
      ensures old(CheckTimeConflict(spaceName, startTime, endTime, None)) ==>
        r == Err(SpaceAlreadyBooked(spaceName))
        && rows == old(rows) && nextId == old(nextId) && outbox == old(outbox)
      ensures !old(CheckTimeConflict(spaceName, startTime, endTime, None)) ==>
        r == Ok(Reservation(old(nextId), spaceName, userName, startTime, endTime))
        && rows == old(rows) + [r.value]
        && nextId == old(nextId) + 1
        && outbox == old(outbox) + [Notice(spaceName, userName, startTime, endTime)]
      ensures r.Ok? ==> !HasId(old(rows), r.value.id)
    {
      var hasConflict := CheckTimeConflict(spaceName, startTime, endTime, None);
      if hasConflict {
        return Err(SpaceAlreadyBooked(spaceName));
      }
      var created := Reservation(nextId, spaceName, userName, startTime, endTime);
      InsertKeepsNoDoubleBooking(rows, created);
      InsertFreshKeepsIds(rows, created, nextId);
      rows := rows + [created];
      nextId := nextId + 1;
      // the notifier swallows its own failures, so its outcome is dropped
      outbox := outbox + [Notice(spaceName, userName, startTime, endTime)];
      r := Ok(created);
    }

    /** Update the supplied columns of row `id`. An unknown id gives
        nothing; a supplied space or time is checked, merged with the
        current values, against every other row; an update that supplies no
        column returns the current row. */
    method UpdateReservation(id: int, patch: Patch) returns (r: Result<Option<Reservation>>)
      requires Valid()
      modifies this`rows
      ensures Valid()
      ensures !old(HasId(rows, id)) ==> r == Ok(None) && rows == old(rows)
      ensures old(HasId(rows, id)) ==>
        var cur := old(FindById(rows, id)).value;
        var merged := ApplyPatch(cur, patch);
        if TouchesSlot(patch)
           && old(CheckTimeConflict(merged.spaceName, merged.startTime, merged.endTime, Some(id))) then
          r == Err(SpaceAlreadyBooked(merged.spaceName)) && rows == old(rows)
        else if !AnySupplied(patch) then
          r == Ok(Some(cur)) && rows == old(rows)
        else
          r == Ok(Some(merged)) && rows == UpdateWhere(old(rows), id, patch)
    {
      var current := FindById(rows, id);
      if current.None? {
        return Ok(None);
      }
      var cur := current.value;

      if patch.startTime.Some? || patch.endTime.Some? || Filled(patch.spaceName) {
        var spaceName := OrName(patch.spaceName, cur.spaceName);
        var startTime := OrTime(patch.startTime, cur.startTime);
        var endTime := OrTime(patch.endTime, cur.endTime);
        var hasConflict := CheckTimeConflict(spaceName, startTime, endTime, Some(id));
        if hasConflict {
          return Err(SpaceAlreadyBooked(spaceName));
        }
      }

      var fields: seq<Column> := [];
      if Filled(patch.spaceName) {
        fields := fields + [SpaceNameColumn];
      }
      if Filled(patch.userName) {
        fields := fields + [UserNameColumn];
      }
      if patch.startTime.Some? {
        fields := fields + [StartTimeColumn];
      }
      if patch.endTime.Some? {
        fields := fields + [EndTimeColumn];
      }
      assert |fields| == 0 <==> !AnySupplied(patch);
      if |fields| == 0 {
        return Ok(Some(cur));
      }

      UpdateKeepsInvariant(rows, id, patch);
      UpdateKeepsIdsBelow(rows, id, patch, nextId);
      FindAfterUpdate(rows, id, patch);
      rows := UpdateWhere(rows, id, patch);
      // RETURNING * yields the updated row
      var returned := FindById(rows, id);
      r := Ok(returned);
    }

    /** Remove the rows with this id and say whether there were any. */
    method DeleteReservation(id: int) returns (deleted: bool)
      requires Valid()
      modifies this`rows
      ensures Valid()
      ensures deleted == old(HasId(rows, id))
      ensures rows == Remove(old(rows), id)
      ensures !HasId(rows, id)
    {
      var before := |rows|;
      RemoveKeepsInvariant(rows, id);
      RemoveKeepsIdsBelow(rows, id, nextId);
      rows := Remove(rows, id);
      var rowCount := before - |rows|;
      deleted := rowCount > 0;
    }
  }

  /** Clients of the service's contracts: bookings of a single space, with
      times in minutes since midnight (600 is 10:00). An overlapping
      request is refused and a touching one is accepted. */
  method CreateScenario() {
    var svc := new ReservationService();

    var alice := svc.CreateReservation("SpaceA", "Alice", 600, 660);
    assert alice == Ok(Reservation(1, "SpaceA", "Alice", 600, 660));

    // overlaps Alice's booking
    var bob := svc.CreateReservation("SpaceA", "Bob", 630, 690);
    assert Matches(svc.rows[0], "SpaceA", 630, 690, None);
    assert bob == Err(SpaceAlreadyBooked("SpaceA"));

    // touches Alice's booking at 11:00 without overlapping it
    var carol := svc.CreateReservation("SpaceA", "Carol", 660, 720);
    assert carol == Ok(Reservation(2, "SpaceA", "Carol", 660, 720));
  }

  /** Restating a row's own end time does not collide with that row. */
  method UpdateOwnSlotScenario() {
    var svc := new ReservationService();
    var alice := svc.CreateReservation("SpaceA", "Alice", 600, 660);
    assert alice == Ok(Reservation(1, "SpaceA", "Alice", 600, 660));
    var carol := svc.CreateReservation("SpaceA", "Carol", 660, 720);
    assert carol == Ok(Reservation(2, "SpaceA", "Carol", 660, 720));
    assert svc.rows == [alice.value, carol.value];

    var same := svc.UpdateReservation(1, Patch(None, None, None, Some(660)));
    assert same == Ok(Some(alice.value));
  }

  /** Stretching a row over the next booking of its space is refused. */
  method UpdateOverlapScenario() {
    var svc := new ReservationService();
    var alice := svc.CreateReservation("SpaceA", "Alice", 600, 660);
    assert alice == Ok(Reservation(1, "SpaceA", "Alice", 600, 660));
    var carol := svc.CreateReservation("SpaceA", "Carol", 660, 720);
    assert carol == Ok(Reservation(2, "SpaceA", "Carol", 660, 720));
    assert svc.rows == [alice.value, carol.value];

    assert Matches(svc.rows[1], "SpaceA", 600, 690, Some(1));
    var longer := svc.UpdateReservation(1, Patch(None, None, None, Some(690)));
    assert longer == Err(SpaceAlreadyBooked("SpaceA"));
  }

  /** A second delete of the same id finds nothing. */
  method DeleteScenario() {
    var svc := new ReservationService();
    var alice := svc.CreateReservation("SpaceA", "Alice", 600, 660);
    var first := svc.DeleteReservation(1);
    assert first;
    var second := svc.DeleteReservation(1);
    assert !second;
  }

  /** The service never checks that a booking starts before it ends, so an
      inverted booking is stored, and it then blocks a well-formed booking
      that shares no instant with it. */
  method InvertedRowScenario() {
    var svc := new ReservationService();
    var inverted := svc.CreateReservation("SpaceA", "Alice", 720, 600);
    assert inverted == Ok(Reservation(1, "SpaceA", "Alice", 720, 600));

    assert Matches(svc.rows[0], "SpaceA", 630, 690, None);
    var blocked := svc.CreateReservation("SpaceA", "Bob", 630, 690);
    assert blocked == Err(SpaceAlreadyBooked("SpaceA"));
  }

  /** The same two requests in the other order are both accepted: the
      well-formed booking does not block the inverted one. */
  method WellFormedFirstScenario() {
    var svc := new ReservationService();
    var bob := svc.CreateReservation("SpaceA", "Bob", 630, 690);
    assert bob == Ok(Reservation(1, "SpaceA", "Bob", 630, 690));

    assert !Matches(svc.rows[0], "SpaceA", 720, 600, None);
    var inverted := svc.CreateReservation("SpaceA", "Alice", 720, 600);
    assert inverted == Ok(Reservation(2, "SpaceA", "Alice", 720, 600));
  }
}
