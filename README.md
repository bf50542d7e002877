# Chronos room booking: conflict engine, availability and approval workflow in Dafny

Chronos is a Spring backend for booking university rooms. A room is taken either by
a recurring class slot (an academic schedule entry for one weekday) or by a one-off
event reservation. This project models the part of the backend that decides whether
a room is taken, which rooms are free, how a reservation moves through its approval
workflow, and how a reservation is created only when its room is free.

- `Model` (model.dfy) declares the entities: rooms, buildings, class slots,
  reservations and approval logs, plus the status, weekday and room-type enums and
  the strict overlap test `start < requestedEnd && end > requestedStart`. Dates are
  epoch-day numbers and times of day are integers. `JavaTime` (java_time.dfy) gives
  the weekday of an epoch day, as `LocalDate.getDayOfWeek` computes it.
- The three repositories (`AcademicScheduleRepository`, `EventReservationRepository`
  and `RoomRepository`) turn each JPQL `WHERE` clause and derived query into a
  filter over a table snapshot, which is a sequence of rows in storage order. The
  one `ORDER BY` becomes a sort. Both are built from the `Seqs` helpers.
- `ConflictService` and `RoomAvailabilityService` are pure functions over those
  snapshots. The ghost predicate `ConflictService.RoomOccupied` defines what
  "taken" means, and every query result is proved against it.
- `Persistence.ReservationStore` is the mutable state: the reservations table and
  the append-only approval-log table. JPA `save` is modelled by
  `Persistence.Upsert`. Two store invariants are stated there:
  - `NoDoubleBooking`: no two occupying reservations overlap in one room;
  - `ClearOfClasses`: no occupying reservation overlaps a class slot of its room.
- `ApprovalService` is the status state machine. It has a specification function
  `Approval` and a transactional method `ApproveReservation` on the store.
- `EventReservationController` is the creation guard. It has a specification
  function `Creation` and the method `CreateReservation`. Both workflows are
  proved to keep the store invariants.

Behaviour of the code worth knowing, all of it modelled as written:
- `createReservation` stores the status the request carries. PENDING is only
  the entity's default (model/EventReservation.kt:37), and nothing resets it.
- APPROVED is not final: the transition table lets an approved reservation be
  cancelled (service/ApprovalService.kt:135-137).
- Creation does not check that a reservation starts before it ends.
  `findConflicts` performs no window check, so the guard accepts an inverted window.
- A creation request whose id names a stored reservation replaces that row, as JPA
  `save` merges it. The invariants are proved for this case too.

## Model

| member | source | states |
|---|---|---|
| Seqs.FilterCounts | src/main/kotlin/com/chronos/chronosbackend/repository/EventReservationRepository.kt:16-39 | a query's `WHERE` filter returns each matching row exactly as often as the table holds it, and no other row |
| AcademicScheduleRepository.FindByRoomId | src/main/kotlin/com/chronos/chronosbackend/repository/AcademicScheduleRepository.kt:11 | exactly the class slots of that room |
| AcademicScheduleRepository.FindByDayOfWeek | src/main/kotlin/com/chronos/chronosbackend/repository/AcademicScheduleRepository.kt:13 | exactly the class slots on that weekday |
| AcademicScheduleRepository.FindConflictingSchedules | src/main/kotlin/com/chronos/chronosbackend/repository/AcademicScheduleRepository.kt:15-28 | exactly the slots of the room on the weekday that strictly overlap the window |
| AcademicScheduleRepository.BackToBackSlotsDoNotConflict | src/main/kotlin/com/chronos/chronosbackend/repository/AcademicScheduleRepository.kt:20 | a slot that ends at the window's start or starts at its end is never returned |
| EventReservationRepository.IndexOfId | src/main/kotlin/com/chronos/chronosbackend/repository/EventReservationRepository.kt:10 | the position of the row with that id, or none exactly when no row has it |
| EventReservationRepository.FindById | src/main/kotlin/com/chronos/chronosbackend/repository/EventReservationRepository.kt:10 | a stored row with that id, or none exactly when no row has it |
| EventReservationRepository.FindByStatus | src/main/kotlin/com/chronos/chronosbackend/repository/EventReservationRepository.kt:12 | exactly the reservations with that status |
| EventReservationRepository.FindConflictingReservations | src/main/kotlin/com/chronos/chronosbackend/repository/EventReservationRepository.kt:16-30 | exactly the PENDING, ADVISOR_APPROVED or APPROVED reservations of the room on that date that strictly overlap the window |
| EventReservationRepository.InactiveReservationsNeverConflict | src/main/kotlin/com/chronos/chronosbackend/repository/EventReservationRepository.kt:20 | a REJECTED or CANCELLED reservation is never returned, whatever its times |
| EventReservationRepository.BackToBackReservationsDoNotConflict | src/main/kotlin/com/chronos/chronosbackend/repository/EventReservationRepository.kt:21-23 | back-to-back bookings are never returned |
| EventReservationRepository.EarlierOrSameIsTotalPreorder | src/main/kotlin/com/chronos/chronosbackend/repository/EventReservationRepository.kt:37 | ordering by (date, start time) is total and transitive |
| EventReservationRepository.FindApprovedReservationsBetween | src/main/kotlin/com/chronos/chronosbackend/repository/EventReservationRepository.kt:32-39 | the APPROVED and ADVISOR_APPROVED reservations dated within the inclusive range, each as often as stored, PENDING excluded, sorted by date then start time |
| RoomRepository.FindById | src/main/kotlin/com/chronos/chronosbackend/repository/RoomRepository.kt:8 | a stored room with that id, or none exactly when no room has it |
| RoomRepository.FindByIsAvailableTrue | src/main/kotlin/com/chronos/chronosbackend/repository/RoomRepository.kt:10 | exactly the rooms flagged available |
| RoomRepository.FindByBuildingIdAndIsAvailableTrue | src/main/kotlin/com/chronos/chronosbackend/repository/RoomRepository.kt:12 | exactly the available rooms of that building |
| RoomRepository.FindByRoomTypeAndIsAvailableTrue | src/main/kotlin/com/chronos/chronosbackend/repository/RoomRepository.kt:14 | exactly the available rooms of that type |
| RoomRepository.FindByCapacityGreaterThanEqualAndIsAvailableTrue | src/main/kotlin/com/chronos/chronosbackend/repository/RoomRepository.kt:16 | exactly the available rooms with a capacity of at least the minimum; a room without capacity never qualifies |
| RoomRepository.FindAvailableRoomsByBuildingAndType | src/main/kotlin/com/chronos/chronosbackend/repository/RoomRepository.kt:18-24 | exactly the available rooms matching both building and type |
| RoomRepository.FindByIdFindsStoredRoom | src/main/kotlin/com/chronos/chronosbackend/repository/RoomRepository.kt:8 | under the primary key, looking up a stored room's id yields that room |
| ConflictService.ConvertToDayOfWeek | src/main/kotlin/com/chronos/chronosbackend/service/ConflictService.kt:93-103 | the weekday enum value with the same name as the date's calendar weekday |
| ConflictService.ConvertToDayOfWeekIsOneToOne | src/main/kotlin/com/chronos/chronosbackend/service/ConflictService.kt:93-103 | two dates map to the same weekday exactly when their calendar weekdays coincide |
| ConflictService.ConvertToDayOfWeekIsOnto | src/main/kotlin/com/chronos/chronosbackend/service/ConflictService.kt:93-103 | every weekday value is the image of some date |
| ConflictService.HasConflict | src/main/kotlin/com/chronos/chronosbackend/service/ConflictService.kt:26-57 | fails with the time-range error when start >= end; otherwise true exactly when the room is occupied (a class slot on the weekday or an occupying reservation on the date overlaps) |
| ConflictService.FindConflicts | src/main/kotlin/com/chronos/chronosbackend/service/ConflictService.kt:63-88 | hasConflict exactly when the room is occupied, and exactly when either list is non-empty; one description per matching slot and per matching reservation, in query order; no window check |
| ConflictService.HasConflictAgreesWithFindConflicts | src/main/kotlin/com/chronos/chronosbackend/service/ConflictService.kt:26-88 | on a proper window the boolean check and the detailed search agree |
| ConflictService.InvalidWindowFailsBeforeAnyLookup | src/main/kotlin/com/chronos/chronosbackend/service/ConflictService.kt:33 | on an empty or inverted window the result is the error whatever the tables hold |
| ConflictService.AcademicConflictShortCircuits | src/main/kotlin/com/chronos/chronosbackend/service/ConflictService.kt:36-46 | a matching class slot makes the answer true whatever the reservations table holds |
| ConflictService.NoAcademicConflictDefersToReservations | src/main/kotlin/com/chronos/chronosbackend/service/ConflictService.kt:49-56 | with no matching class slot the answer is whether some reservation conflicts |
| ConflictService.InactiveReservationIsInvisible | src/main/kotlin/com/chronos/chronosbackend/service/ConflictService.kt:75-77 | adding a REJECTED or CANCELLED reservation changes nothing in the detailed result |
| ConflictService.ClassSlotsRecurWeekly | src/main/kotlin/com/chronos/chronosbackend/service/ConflictService.kt:69-73 | the class-slot conflicts of a date and of the same date a week later are the same |
| ConflictService.TouchingIntervalsDoNotConflict | src/main/kotlin/com/chronos/chronosbackend/service/ConflictService.kt:63-88 | when every slot of the room on the date's weekday and every reservation of the room on that date ends by the window's start or starts at its end or later, there is no conflict |
| RoomAvailabilityService.GetCandidateRooms | src/main/kotlin/com/chronos/chronosbackend/service/RoomAvailabilityService.kt:89-110 | every candidate is a stored room flagged available |
| RoomAvailabilityService.CandidatesFollowPrecedence | src/main/kotlin/com/chronos/chronosbackend/service/RoomAvailabilityService.kt:94-109 | a room is a candidate exactly when it is available and passes the first applicable filter: building and type, building, type, minimum capacity, or none |
| RoomAvailabilityService.LowerPrecedenceFiltersAreIgnored | src/main/kotlin/com/chronos/chronosbackend/service/RoomAvailabilityService.kt:94-109 | once a building or a type is given, the minimum capacity has no effect |
| RoomAvailabilityService.KeepConflictFree | src/main/kotlin/com/chronos/chronosbackend/service/RoomAvailabilityService.kt:32-40 | keeps exactly the free candidates in order; fails with the time-range error exactly when there is a candidate and the window is not proper |
| RoomAvailabilityService.FindAvailableRooms | src/main/kotlin/com/chronos/chronosbackend/service/RoomAvailabilityService.kt:20-52 | one summary per free candidate, in candidate order, copying id, number, building name, type, capacity, floor and description; an error exactly when there is a candidate and start >= end, and that error is the time-range error ("Start time must be before end time") |
| RoomAvailabilityService.AvailableRoomsAreConflictFreeCandidates | src/main/kotlin/com/chronos/chronosbackend/service/RoomAvailabilityService.kt:29-40 | every returned summary belongs to a candidate for which the conflict check answers false |
| RoomAvailabilityService.IsRoomAvailable | src/main/kotlin/com/chronos/chronosbackend/service/RoomAvailabilityService.kt:57-87 | available exactly when the room exists, is flagged available and is not occupied; available means no reason and no conflicts; unavailable always carries a reason |
| RoomAvailabilityService.UnknownRoomIsNotFound | src/main/kotlin/com/chronos/chronosbackend/service/RoomAvailabilityService.kt:63-67 | an unknown id gives unavailable, "Room not found", no conflicts |
| RoomAvailabilityService.FlaggedRoomSkipsConflictSearch | src/main/kotlin/com/chronos/chronosbackend/service/RoomAvailabilityService.kt:69-74 | a room flagged unavailable gives "Room is marked as unavailable", and the answer does not depend on the schedule or reservation tables |
| RoomAvailabilityService.OccupiedRoomListsItsConflicts | src/main/kotlin/com/chronos/chronosbackend/service/RoomAvailabilityService.kt:76-83 | an occupied room gives "Room has conflicts" with the class-slot descriptions followed by the reservation descriptions |
| RoomAvailabilityService.SummariesIdentifyRooms | src/main/kotlin/com/chronos/chronosbackend/service/RoomAvailabilityService.kt:41-51 | under the rooms key, a stored room's summary is among the summaries exactly when the room is among the kept rooms |
| RoomAvailabilityService.SummaryReturnedIffFree | src/main/kotlin/com/chronos/chronosbackend/service/RoomAvailabilityService.kt:20-52 | on a proper window, a candidate's summary is returned exactly when the candidate is free |
| RoomAvailabilityService.CandidateAvailableIffFree | src/main/kotlin/com/chronos/chronosbackend/service/RoomAvailabilityService.kt:57-87 | a candidate is reported available by the single-room check exactly when it is free |
| RoomAvailabilityService.FindAvailableRoomsAgreesWithIsRoomAvailable | src/main/kotlin/com/chronos/chronosbackend/service/RoomAvailabilityService.kt:20-87 | on a proper window, a candidate is listed by the search exactly when the single-room check reports it available |
| Persistence.MaxId | src/main/kotlin/com/chronos/chronosbackend/controller/EventReservationController.kt:89 | bounds every stored id from above, is at least 0, and is itself a stored id unless it is 0 |
| Persistence.NextId | src/main/kotlin/com/chronos/chronosbackend/controller/EventReservationController.kt:89 | a positive id held by no stored row |
| Persistence.Upsert | src/main/kotlin/com/chronos/chronosbackend/controller/EventReservationController.kt:89 | saving keeps the key unique; an entity naming a stored id replaces exactly that row; any other entity is appended under a fresh id; every other row keeps its place |
| Persistence.ReplacingWithoutActivatingKeepsInvariants | src/main/kotlin/com/chronos/chronosbackend/service/ApprovalService.kt:46-52 | rewriting one row without changing its room, date or times and without making it occupying keeps both store invariants |
| Persistence.ReservationStore.constructor | src/main/kotlin/com/chronos/chronosbackend/repository/EventReservationRepository.kt:10 | a valid store over keyed rows with an empty log |
| Persistence.ReservationStore.Save | src/main/kotlin/com/chronos/chronosbackend/service/ApprovalService.kt:52 | the new table and the saved entity are those of `Upsert`; the store stays valid |
| Persistence.ReservationStore.AppendLog | src/main/kotlin/com/chronos/chronosbackend/service/ApprovalService.kt:64 | the log gains exactly the new entry, under the next id |
| ApprovalService.FinalStatuses | src/main/kotlin/com/chronos/chronosbackend/service/ApprovalService.kt:125-141 | a status has no way out exactly when it is REJECTED or CANCELLED |
| ApprovalService.RoleTableRestrictions | src/main/kotlin/com/chronos/chronosbackend/service/ApprovalService.kt:149-155 | no role may set PENDING; only ADMIN may set APPROVED; an ADVISOR may not cancel |
| ApprovalService.AdminMayTakeEveryTransition | src/main/kotlin/com/chronos/chronosbackend/service/ApprovalService.kt:149-155 | ADMIN passes the role check for every allowed transition |
| ApprovalService.ValidateStatusTransition | src/main/kotlin/com/chronos/chronosbackend/service/ApprovalService.kt:119-165 | valid exactly when the transition is in the table and the role may take it; an illegal transition reports the transition message whatever the role; a refused role reports the role message |
| ApprovalService.TransitionsMoveForward | src/main/kotlin/com/chronos/chronosbackend/service/ApprovalService.kt:125-138 | every allowed transition strictly advances the workflow stage |
| ApprovalService.WorkflowPathsAdvance | src/main/kotlin/com/chronos/chronosbackend/service/ApprovalService.kt:125-138 | along a run of allowed transitions the stage grows by at least one per step |
| ApprovalService.WorkflowTerminates | src/main/kotlin/com/chronos/chronosbackend/service/ApprovalService.kt:125-138 | a reservation passes through at most four statuses, and no two statuses along a path of allowed transitions are equal, so it never returns to an earlier one |
| ApprovalService.TransitionsNeverOccupy | src/main/kotlin/com/chronos/chronosbackend/service/ApprovalService.kt:125-138 | no allowed transition makes a non-occupying reservation occupying |
| ApprovalService.Transitioned | src/main/kotlin/com/chronos/chronosbackend/service/ApprovalService.kt:46-50 | the new status; approver and approval time set only on APPROVED; every other field unchanged |
| ApprovalService.Approval | src/main/kotlin/com/chronos/chronosbackend/service/ApprovalService.kt:21-71 | an unknown id is the not-found error; success exactly when the row exists, the transition is allowed and the role permitted; a failure writes nothing, returns no reservation and reports "Invalid status transition: X → Y" for a transition outside the table, otherwise "Role 'r' cannot transition to Y"; a success rewrites that row in place, returns it, reports "Status changed from X to Y" and appends exactly one log with the previous and new status, actor, role and comments |
| ApprovalService.SaveOfStoredRowReplacesIt | src/main/kotlin/com/chronos/chronosbackend/service/ApprovalService.kt:52 | saving under a stored row's id replaces exactly that row |
| ApprovalService.ApproveReservation | src/main/kotlin/com/chronos/chronosbackend/service/ApprovalService.kt:21-71 | the response and both new tables are those of `Approval` on the old tables; the store stays valid |
| ApprovalService.RejectReservation | src/main/kotlin/com/chronos/chronosbackend/service/ApprovalService.kt:76-90 | equals approval to REJECTED with the comment "REJECTED: " followed by the reason |
| ApprovalService.CancelReservation | src/main/kotlin/com/chronos/chronosbackend/service/ApprovalService.kt:95-107 | equals approval to CANCELLED in role STUDENT with the comment "Cancelled by requester" |
| ApprovalService.CancelSucceedsIffPendingOrApproved | src/main/kotlin/com/chronos/chronosbackend/service/ApprovalService.kt:95-107 | cancelling a stored reservation succeeds exactly when it is PENDING or APPROVED |
| ApprovalService.AdvisorCannotGiveFinalApproval | src/main/kotlin/com/chronos/chronosbackend/service/ApprovalService.kt:151 | an ADVISOR setting APPROVED fails and writes nothing |
| ApprovalService.IllegalTransitionReportedBeforeRole | src/main/kotlin/com/chronos/chronosbackend/service/ApprovalService.kt:141-146 | an illegal transition yields the transition message with no reservation and no write, whatever the role |
| ApprovalService.ApprovalKeepsInvariants | src/main/kotlin/com/chronos/chronosbackend/service/ApprovalService.kt:43-52 | a status change keeps both store invariants |
| ApprovalService.NewerOrSameIsTotalPreorder | src/main/kotlin/com/chronos/chronosbackend/repository/ApprovalLogRepository.kt:8 | ordering by approval time descending is total and transitive |
| ApprovalService.GetApprovalHistory | src/main/kotlin/com/chronos/chronosbackend/service/ApprovalService.kt:112-114 | every log of the reservation, each as often as stored, none of another, newest first |
| ApprovalService.ApprovalExtendsHistoryByOne | src/main/kotlin/com/chronos/chronosbackend/service/ApprovalService.kt:55-64 | a success adds exactly the new log to that reservation's history and leaves every other history unchanged |
| EventReservationController.Creation | src/main/kotlin/com/chronos/chronosbackend/controller/EventReservationController.kt:58-91 | a missing room id gives "Room ID is required"; an unknown room gives "Room not found"; a found room that is occupied gives the 409 answer, "Room is not available at the requested time" with the conflict result; each of these writes nothing; otherwise the request is saved with the stored room, exactly when the room is free |
| EventReservationController.SavingFreeReservationKeepsInvariants | src/main/kotlin/com/chronos/chronosbackend/controller/EventReservationController.kt:70-90 | saving a reservation whose window is free keeps both store invariants, whether it is inserted or replaces a row |
| EventReservationController.CreationKeepsInvariants | src/main/kotlin/com/chronos/chronosbackend/controller/EventReservationController.kt:58-91 | the guarded create keeps both store invariants |
| EventReservationController.CreatedReservationIsFree | src/main/kotlin/com/chronos/chronosbackend/controller/EventReservationController.kt:77-90 | a created reservation is stored, keeps the requested room, and its window overlaps no occupying reservation of its room and date and no class slot of its room and weekday, whatever status the request carries |
| EventReservationController.CreateReservation | src/main/kotlin/com/chronos/chronosbackend/controller/EventReservationController.kt:58-91 | the response and new table are those of `Creation`; nothing else changes; the store invariants are kept |
| EventReservationController.CheckConflicts | src/main/kotlin/com/chronos/chronosbackend/controller/EventReservationController.kt:96-104 | the conflict search for the request's fields, true exactly when the room is occupied, with nothing written |

## Left out

- HTTP routing and response mapping. The three answers of `createReservation` are a datatype; status codes and JSON bodies are not modelled.
- The other endpoints of the reservations controller are not modelled. This covers listing, lookup, `findByOrganizationName`, `updateReservation`, delete, and the direct approve and reject endpoints. The direct ones bypass both the conflict guard and the state machine, so they would break the store invariants. The reject endpoint writes fields the entity does not have.
- ConflictService.DescribeSchedule: a conflict description is a record of the fields the source formats into text. The exact string format of dates and times is not modelled.
- ConflictService.DescribeReservation: the same holds for reservation descriptions.
- The clock. `LocalDateTime.now()` is a `now` parameter, and the two reads in `approveReservation` are taken to give the same instant. The history is sorted by the stored timestamps, with no assumption that the clock is monotone.
- Ties in `ORDER BY`. Rows with equal sort keys may come back in any order from the database; the model proves sortedness and permutation only, not a particular order among ties.
- java.time beyond the weekday. Dates are epoch-day numbers and times of day are integers, without their calendar ranges.
- JPA details are replaced by a plain model:
  - Identity generation is modelled as "one more than the largest stored id".
  - Merging a detached entity whose id is not stored is modelled as an insert under a fresh id.
  - Lazy loading and entity identity are not modelled; a reference to a room or reservation is its value.
- The rooms table and the class timetable are read-only inputs, since the core never writes them.
- The reservations table is a sequence in storage order rather than a map by id. Query results need row order; the primary key is the `KeyedRows` invariant.
- RoomAvailabilityService.FindAvailableRooms requires every stored room to have an id, which is what `room.id!!` assumes; a stored room without one is not modelled.
- Room types other than CLASSROOM are not enumerated: `OtherRoomType(name)` stands for them by name, and the model does not exclude `OtherRoomType("CLASSROOM")`, a second spelling of `Classroom` that the enum cannot produce.
- Transactions and concurrency. Each `@Transactional` method is one atomic step.
- `cancelReservation` always acts in the STUDENT role, whoever calls it. This is modelled as written; nothing checks that the caller is the requester.
- Security configuration, application bootstrap, the database repair endpoint, and the documents, organizations and user profiles, as they hold no logic of this core.
