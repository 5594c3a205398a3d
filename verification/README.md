# Reservation service: conflict detection and the reservation table

This project models the core of a room-booking service: a `reservations`
table of rows `{id, space_name, user_name, start_time, end_time}` and the
service that creates, lists, fetches, updates and deletes rows while
refusing any booking that collides with an existing one for the same space.

The model has four modules:

- `Outcomes` (outcomes.dfy): `Option`, the `SpaceAlreadyBooked` error, and
  `Result`.
- `Interval` (interval.dfy): the conflict query's three-clause comparison and
  the half-open overlap test `a < e && s < b`. It also gives the reference
  meaning of a collision, "some instant lies in both intervals", and proves
  how the three agree and where they part.
- `Table` (table.dfy): the table as a sequence of rows, and what each
  query, update and delete statement of the service does to it. A row is
  the `Reservation` datatype, the service's `Reservation` interface
  (reservation.service.ts:5-11). The interface's `id` is optional only
  because a row has none before the insert; every stored row carries one,
  so the datatype's `id` is always present. The module covers the
  `COUNT(*)` conflict query, lookup by id, `ORDER BY start_time`, the
  column `UPDATE` and the `DELETE`. The `INSERT` is a plain append of one
  row, written inline in `CreateReservation` (service.dfy). The module also
  holds the table invariant (no two rows of one space overlap, ids are
  unique and come from the id sequence) and the lemmas that insert, update
  and delete keep it.
- `Service` (service.dfy): class `ReservationService`. It holds the table
  (`rows`), the id sequence (`nextId`) and the notifications attempted
  (`outbox`). The read-only queries are functions over that state. Create,
  update and delete are methods that change it, and each one keeps `Valid()`.
  `CreateScenario`, `UpdateOwnSlotScenario`, `UpdateOverlapScenario` and
  `DeleteScenario` book one space using only the contracts. An overlapping
  booking is refused, a touching one is accepted, an update is not refused
  for colliding with its own row, and a second delete returns false.
  `InvertedRowScenario` stores an inverted booking and shows it blocking a
  well-formed one; `WellFormedFirstScenario` makes the same two requests in
  the other order and both are accepted.

Timestamps are integers. A partial update is a `Patch` of four optional
fields, and a field counts as supplied only when it is JavaScript-truthy:
a present, non-empty name, or a present timestamp. The exclusion id of the
conflict query applies only when it is truthy (present and non-zero).

A central result is `OverlapsImpliesThreeClause`. The query's three
comparisons catch every half-open overlap, whatever the shape of the
intervals. So the no-double-booking invariant is kept by create and update
even though the service never checks that a booking starts before it ends.
Well-formedness is needed only for the converse, that the query never
rejects a booking that does not overlap (`ThreeClauseIffOverlaps`,
`ConflictIffClash`).

Three facts about the code shape the model:

- The service never checks that `start_time < end_time`. Create and update
  therefore accept empty and inverted intervals, and such an interval
  changes what the conflict query decides:
  - A stored empty or inverted row, such as [20, 10), makes the query
    reject every candidate that starts no later than 20 and ends no earlier
    than 10. This holds even for a well-formed candidate such as [12, 15),
    which shares no instant with the row (`IllFormedRowRejectsCandidate`,
    `InvertedRowScenario`).
  - An empty or inverted candidate whose start lies inside a booking is
    rejected, although it books no instant
    (`IllFormedCandidateInsideIsRejected`).
  - The outcome depends on the order of the requests. The query's test is
    symmetric on well-formed intervals (`ThreeClauseSymmetricWhenWellFormed`)
    but not on inverted ones. An inverted booking [20, 10) blocks a later
    [12, 15), yet if [12, 15) is booked first, [20, 10) is accepted after
    it (`BookingOrderDecidesInverted`, `InvertedRowScenario`,
    `WellFormedFirstScenario`).
  - None of this lets a real overlap through: `OverlapsImpliesThreeClause`
    holds for all intervals.
- The conflict query tests three OR'd comparisons
  (reservation.service.ts:27-29). On well-formed intervals they are
  exactly the half-open overlap test.
- The listing is ordered by `start_time` only. The model promises nothing
  about the order of ties.

## Model

| member | source | states |
|---|---|---|
| Interval.OverlapsImpliesThreeClause | servicio_reservas/src/reservations/reservation.service.ts:26-30 | every half-open overlap `a < e && s < b` satisfies the query's three-clause test, for all intervals |
| Interval.ThreeClauseIffOverlaps | servicio_reservas/src/reservations/reservation.service.ts:26-30 | on well-formed intervals the three-clause test holds iff `a < e && s < b` |
| Interval.SharesInstantImpliesOverlaps | servicio_reservas/src/reservations/reservation.service.ts:26-30 | two intervals with a common instant always pass the overlap test |
| Interval.OverlapsIffSharesInstant | servicio_reservas/src/reservations/reservation.service.ts:26-30 | on well-formed intervals the overlap test holds iff some instant lies in both |
| Interval.TouchingDoNotConflict | servicio_reservas/src/reservations/reservation.service.ts:27-29 | intervals that only touch at a boundary neither conflict nor share an instant, in either order |
| Interval.OverlapsSymmetric | servicio_reservas/src/reservations/reservation.service.ts:26-30 | overlap does not depend on which interval is the booked one |
| Interval.OverlapsReflexive | servicio_reservas/src/reservations/reservation.service.ts:26-30 | a well-formed interval overlaps itself and shares an instant with itself |
| Interval.IllFormedCandidateInsideIsRejected | servicio_reservas/src/reservations/reservation.service.ts:27 | an empty or inverted candidate whose start lies inside a booking passes the three-clause test although it books no instant |
| Interval.IllFormedRowRejectsCandidate | servicio_reservas/src/reservations/reservation.service.ts:29 | an empty or inverted stored row [a, b) makes the three-clause test hold for every candidate with s <= a and b <= e, although the row holds no instant |
| Interval.ThreeClause | servicio_reservas/src/reservations/reservation.service.ts:27-29 | the three OR'd comparisons of the conflict query, for a booked row [a, b) and a candidate [s, e): the row starts at or before the candidate's start and ends after it, or starts before the candidate's end and ends at or after it, or lies within the candidate |
| Interval.ThreeClauseSymmetricWhenWellFormed | servicio_reservas/src/reservations/reservation.service.ts:27-29 | on well-formed intervals the three-clause test gives the same answer with the booked row and the candidate swapped |
| Interval.BookingOrderDecidesInverted | servicio_reservas/src/reservations/reservation.service.ts:27-29 | an inverted booking [a, b) blocks every well-formed candidate with b <= s and e <= a, while that candidate, booked first, does not block the inverted one |
| Table.Filled | servicio_reservas/src/reservations/reservation.service.ts:92-93 | an optional name is supplied exactly when it is JavaScript-truthy: present and not empty |
| Table.OrName | servicio_reservas/src/reservations/reservation.service.ts:93 | the or-fallback of the merge for a name: the supplied name when truthy, otherwise the current one |
| Table.OrTime | servicio_reservas/src/reservations/reservation.service.ts:94-95 | the or-fallback of the merge for a timestamp: the supplied timestamp when present, otherwise the current one |
| Table.TouchesSlot | servicio_reservas/src/reservations/reservation.service.ts:92 | the guard of the re-check: a start time, an end time or a truthy space name is supplied |
| Table.AnySupplied | servicio_reservas/src/reservations/reservation.service.ts:108-125 | at least one column is pushed into `fields`, so `fields.length === 0` is its negation |
| Table.ApplyPatch | servicio_reservas/src/reservations/reservation.service.ts:108-123 | the row after the update: id kept, each truthy supplied column written over the current value, every other column kept |
| Table.Excludes | servicio_reservas/src/reservations/reservation.service.ts:21 | the `excludeId ?` test: the exclusion applies only to a present, non-zero id |
| Table.Counted | servicio_reservas/src/reservations/reservation.service.ts:21-35 | a row takes part in the count unless the exclusion applies and the row carries the excluded id (`AND id != $4`) |
| Table.Matches | servicio_reservas/src/reservations/reservation.service.ts:25-30 | the whole WHERE clause for one row: same space name, the three-clause test, and not the excluded row |
| Table.CountConflicts | servicio_reservas/src/reservations/reservation.service.ts:22-38 | the count is at most the number of rows, and is zero iff no row has the space, passes the three-clause test and is not the excluded row |
| Table.FindById | servicio_reservas/src/reservations/reservation.service.ts:75-79 | returns a row iff some row has the id; a returned row is in the table and carries the id |
| Table.Remove | servicio_reservas/src/reservations/reservation.service.ts:134-137 | keeps exactly the rows with another id; no row with the id is left; fewer rows remain iff the id was present |
| Table.RemoveCounts | servicio_reservas/src/reservations/reservation.service.ts:134-137 | after the delete, each row with another id occurs exactly as often as before, and no row with the id occurs |
| Table.UpdateWhere | servicio_reservas/src/reservations/reservation.service.ts:104-131 | same length; each row with the id gets the supplied columns written over it, every other row is unchanged |
| Table.InsertByStart | servicio_reservas/src/reservations/reservation.service.ts:69-73 | inserting into a start-sorted list gives a start-sorted list with that row added |
| Table.SortByStart | servicio_reservas/src/reservations/reservation.service.ts:69-73 | the result is sorted by start time and is a permutation of the rows |
| Table.NoConflictMeansNoClash | servicio_reservas/src/reservations/reservation.service.ts:43-51 | a zero count means no counted row overlaps the candidate in the same space, in either direction |
| Table.ConflictIffClash | servicio_reservas/src/reservations/reservation.service.ts:20-38 | on well-formed rows and candidate, the count is positive iff a counted row of the same space overlaps the candidate |
| Table.ExclusionSkipsOnlyThatId | servicio_reservas/src/reservations/reservation.service.ts:21-35 | with a non-zero exclusion id the count equals the unexcluded count on the table without that id's rows |
| Table.ZeroIdExcludesNothing | servicio_reservas/src/reservations/reservation.service.ts:21-35 | an exclusion id of 0 is falsy and counts the same as no exclusion |
| Table.FindUnique | servicio_reservas/src/reservations/reservation.service.ts:75-79 | with unique ids, lookup by a row's id returns exactly that row |
| Table.FindAfterUpdate | servicio_reservas/src/reservations/reservation.service.ts:127-131 | after the update, lookup by the id returns the previously found row with the supplied columns written over it |
| Table.InsertKeepsNoDoubleBooking | servicio_reservas/src/reservations/reservation.service.ts:43-60 | if the unexcluded count for the new row is zero, appending it keeps no two same-space rows overlapping |
| Table.InsertFreshKeepsIds | servicio_reservas/src/reservations/reservation.service.ts:53-60 | a row with the sequence's next id keeps ids unique and below the advanced sequence |
| Table.UpdateKeepsInvariant | servicio_reservas/src/reservations/reservation.service.ts:92-131 | an update that leaves the slot alone, or whose merged slot has a zero count excluding its own id, keeps no double booking and unique ids |
| Table.UpdateKeepsIdsBelow | servicio_reservas/src/reservations/reservation.service.ts:127-131 | every row keeps its own id through an update, so every id is still one the sequence issued |
| Table.RemoveKeepsIdsBelow | servicio_reservas/src/reservations/reservation.service.ts:134-137 | a delete leaves only ids that were issued |
| Table.RemoveKeepsInvariant | servicio_reservas/src/reservations/reservation.service.ts:134-137 | a delete keeps no double booking and unique ids |
| Service.ReservationService.CheckTimeConflict | servicio_reservas/src/reservations/reservation.service.ts:20-38 | true iff some row has the space, passes the three-clause test, and is not the excluded row when the exclusion id is truthy |
| Service.ReservationService.GetReservations | servicio_reservas/src/reservations/reservation.service.ts:69-73 | all rows, as a permutation of the table, in non-decreasing start time |
| Service.ReservationService.GetReservationById | servicio_reservas/src/reservations/reservation.service.ts:75-79 | nothing iff no row has the id, otherwise the one row that has it |
| Service.ReservationService.CreateReservation | servicio_reservas/src/reservations/reservation.service.ts:41-67 | on conflict, SpaceAlreadyBooked with the space and no change; otherwise one appended row with the inputs and a fresh id, which is returned, one notice attempted, and the invariant kept |
| Service.ReservationService.UpdateReservation | servicio_reservas/src/reservations/reservation.service.ts:81-132 | unknown id gives nothing with no change; a supplied space or time is checked merged, excluding its own id, and a conflict raises SpaceAlreadyBooked with no write; nothing supplied returns the current row; otherwise only the supplied columns of that row change and the merged row is returned; invariant kept |
| Service.ReservationService.DeleteReservation | servicio_reservas/src/reservations/reservation.service.ts:134-137 | true iff a row had the id; afterwards no row has it and all other rows remain, so a second delete returns false; invariant kept |

## Left out

- SQL text assembly is not modelled. That covers the `$n` placeholders, the
  `fields.join` and the parameter arrays. Only their effect is kept: which
  rows the statement selects, and which columns it sets.
- The Postgres pool and connection handling (database.service.ts) is I/O
  plumbing. Infrastructure failures, such as an unreachable database, are
  not modelled.
- The chat notification is an HTTP call. It is modelled only as a `Notice`
  appended to `outbox` after the insert. The notifier swallows its own
  errors, so the result of create never depends on delivery. The recipient,
  which comes from the process environment, and the message text are left
  out.
- The controller, the NestJS modules and the DTO validation decorators are
  framework wiring. The model does not require names to be non-empty or
  timestamps to be date strings.
- The table schema is not part of this model. The model assumes `id` is a
  serial column whose sequence starts at 1 and advances by one per insert
  (`nextId`, `IdsBelow`); the scenarios rely on this for the ids 1 and 2.
  A sequence value consumed by a failed insert is not modelled.
- update-reservation.dto.ts is not part of this model. A `Patch` therefore
  carries no `id` field, and the code never writes one anyway.
- The check-then-act race between the conflict query and the write is not
  modelled. Concurrent requests cannot be expressed in this sequential
  model, and the code has no lock or transaction.
- ISO-8601 parsing and time zones are not modelled. Timestamps are totally
  ordered integers.
- UpdateReservation: the `|| null` fallback after `RETURNING *` is not
  modelled. In a sequential run the row found at the start is still there,
  so the update always returns it.
