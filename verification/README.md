# Room-escape reservations and waiting list

A Dafny model of the reservation core of a room-escape booking service. Members book
a time slot, which is a date, a start time and a theme. If someone already holds the
slot, a member can queue for it instead. The waiting list ranks queued members for
each date and start time. When a reservation is cancelled on any day other than
its own date, the earliest-created waiter of the same slot becomes the booked one.

The reservation table is an immutable `Store`: the sequence of records plus the
counters that issue ids and creation times. Every service operation is a pure
function of the store. The saves, lookups and cancellation return a `Result`, and
each exception the service throws is an `Err` with its own `Error` constructor. The
five listings return a sequence.

Modules:

- `Reservations` (reservations.dfy): entities, statuses, the `Store` and the
  invariants `Valid` and `AtMostOneSuccessPerDateTime`.
- `Seqs` (seqs.dfy): an order-preserving filter and its counting lemmas.
- `Ordering` (ordering.dfy): the service's two comparators, and a stable
  insertion sort proved sorted, a permutation, and stable.
- `ReservationRepository` (repository.dfy): every repository query, as a filter
  or an existence test over the table, plus save and delete.
- `Waitings` (waitings.dfy): the ranker. The `Waitings` class is known only
  through WaitingsTest.
- `ReservationService` (service.dfy): the booking, read and cancellation
  operations.
- `SlotUniqueness` (uniqueness.dfy): which operations keep one SUCCESS per date and
  start time. This includes the counterexample from the finding below and a
  corrected cancellation.
- `Scenarios`, `ServiceScenarios` and `RepositoryScenarios` (scenarios.dfy): the
  test cases and the booking walk-through, restated over the model.

The model follows the code, which differs from a slot being date, time and theme:

- Both duplicate checks compare date and start time only. The theme is ignored,
  although a slot is described as date, time and theme. Promotion, by contrast,
  does match the theme.
- Cancelling a record that is already CANCEL or WAIT is accepted and still runs
  promotion.

## Model

| member | source | states |
|---|---|---|
| ReservationService.CreateValidatedReservationOfStatus | src/main/java/roomescape/reservation/service/ReservationService.java:70-85 | The time is checked first, then the theme, then the member, and the first missing one names the error. It succeeds exactly when all three resolve. The draft then carries the request's date, time, theme and member and the requested status. |
| ReservationService.SaveReservationSuccess | src/main/java/roomescape/reservation/service/ReservationService.java:48-57 | Unresolved references give the validation error. Otherwise the booking is refused with DuplicatedReservation exactly when some SUCCESS record has that date and start time, in any theme. On success exactly one SUCCESS record with the requested fields is appended, and the store invariant is kept. |
| ReservationService.SaveReservationWaiting | src/main/java/roomescape/reservation/service/ReservationService.java:59-68 | Queuing is refused with AlreadyReservedOrWaiting exactly when the same member already holds SUCCESS or WAIT at that date and start time. Another member's booking does not block it. On success exactly one WAIT record is appended, and the store invariant is kept. |
| ReservationService.StatusesByMemberIdAndDateAndStartAt | src/main/java/roomescape/reservation/service/ReservationService.java:100-104 | A status is in the result exactly when the member has a record with that status at that date and start time. |
| ReservationService.IsDuplicatedSuccess | src/main/java/roomescape/reservation/service/ReservationService.java:86-97 | The booking check is true exactly when some record with the draft's status has the draft's date and start time. Member and theme play no part. |
| ReservationService.IsDuplicatedWaiting | src/main/java/roomescape/reservation/service/ReservationService.java:99-109 | The queuing check is true exactly when the draft's member has a SUCCESS or WAIT record at the draft's date and start time, in any theme. A CANCEL record there does not block queuing. |
| ReservationService.DuplicatedWaitingIsExistsQuery | src/main/java/roomescape/reservation/service/ReservationService.java:99-109 | The waiting duplicate check is equivalent to the member-scoped existence query asked once for SUCCESS and once for WAIT. |
| ReservationService.FindById | src/main/java/roomescape/reservation/service/ReservationService.java:111-117 | It fails with ReservationNotFound exactly when no record has the id. Otherwise it returns a stored record with that id. |
| ReservationService.FindAllByStatus | src/main/java/roomescape/reservation/service/ReservationService.java:119-128 | The result is ordered by date then start time. It holds every record of the status, each with its multiplicity, and nothing else. |
| ReservationService.WaitingList | src/main/java/roomescape/reservation/service/ReservationService.java:132-138 | The ranker's input is exactly the WAIT records, ordered by date, start time and creation time. |
| ReservationService.FindMemberReservations | src/main/java/roomescape/reservation/service/ReservationService.java:130-147 | It has one entry per reservation of the member, in repository order. Each entry's rank is what the ranker gives for it over the WAIT list ordered by date, start time and creation. |
| ReservationService.SoleWaitRank | src/main/java/roomescape/reservation/service/ReservationService.java:130-147 | A member's only WAIT record at a date and time sits on the ranker's list, and the rank reported for it is the rank of that place. |
| ReservationService.ListedRanksFollowCreation | src/main/java/roomescape/reservation/service/ReservationService.java:130-147 | Take two members who each have exactly one WAIT record at the same date and start time. Both listed records carry a rank, and the one created first has the smaller rank. |
| ReservationService.MemberListingFacts | src/main/java/roomescape/reservation/service/ReservationService.java:140-144 | Every listed reservation belongs to the member and comes from the table. A listed WAIT reservation always has a rank of at least 1. |
| ReservationService.WaitingEntryIsListed | src/main/java/roomescape/reservation/service/ReservationService.java:132-138 | Every WAIT record of the table is on the ranker's list and is ranked for its own member. |
| ReservationService.FindWaitingReservations | src/main/java/roomescape/reservation/service/ReservationService.java:149-162 | The result is exactly the WAIT records whose date passes the after-today test, ordered by date, start time and creation time. |
| ReservationService.FindAllBySearchCondition | src/main/java/roomescape/reservation/service/ReservationService.java:164-178 | The result is exactly the member's records of the theme with dates in the inclusive range, ordered by date then start time. |
| ReservationService.WaitersAreListed | src/main/java/roomescape/reservation/service/ReservationService.java:202-206 | Every waiter of a slot appears on the ranker's list. |
| ReservationService.UpdateFirstWaitingReservation | src/main/java/roomescape/reservation/service/ReservationService.java:201-210 | If the cancelled reservation's slot has a waiter, exactly one record changes: a waiter with the smallest creation time becomes SUCCESS. If the slot has no waiter, nothing changes. |
| ReservationService.PromotingFirstWaiter | src/main/java/roomescape/reservation/service/ReservationService.java:208-209 | Turning the earliest-created waiter of the slot into SUCCESS changes that record only, and counts as the promotion. |
| ReservationService.NoWaiterWhenNoneListed | src/main/java/roomescape/reservation/service/ReservationService.java:208-209 | If the ranker finds nobody to promote, the slot has no waiter at all. |
| ReservationService.FirstListedIsFirstWaiter | src/main/java/roomescape/reservation/service/ReservationService.java:208-209 | The record the ranker picks is a stored waiter of the slot, created no later than any other waiter there. |
| ReservationService.CancelById | src/main/java/roomescape/reservation/service/ReservationService.java:184-199 | An unknown id gives ReservationNotFound. A reservation dated today gives SameDayCancellation, and that is the only other refusal. Otherwise the target becomes CANCEL whatever its status was, its slot's first waiter is promoted, the counters are unchanged, and the store invariant is kept. |
| ReservationService.StatusChangesKeepValid | src/main/java/roomescape/reservation/service/ReservationService.java:196 | Changing only statuses keeps ids and creation times increasing and below the counters. |
| ReservationRepository.IndexOfId | src/main/java/roomescape/reservation/service/ReservationService.java:190-191 | It returns the first position holding the id. It is absent exactly when no record has the id. |
| ReservationRepository.FindById | src/main/java/roomescape/reservation/service/ReservationService.java:113-114 | It finds a record exactly when one has the id, and the record found has that id. |
| ReservationRepository.FindTimeIdsByDateAndThemeId | src/main/java/roomescape/reservation/repository/ReservationRepository.java:18-23 | A time id is listed exactly when some record, of any status, has that date, theme and time. |
| ReservationRepository.FindAllByMemberId | src/main/java/roomescape/reservation/repository/ReservationRepository.java:25-26 | The result holds every record of the member, each with its multiplicity, and nothing else. |
| ReservationRepository.FindAllByThemeIdAndMemberIdAndDateBetween | src/main/java/roomescape/reservation/repository/ReservationRepository.java:28-34 | The result holds exactly the member's records of the theme dated from dateFrom to dateTo. Both ends are inclusive. |
| ReservationRepository.FindAllByStatus | src/main/java/roomescape/reservation/repository/ReservationRepository.java:36 | The result holds exactly the records in the status, with their multiplicities. |
| ReservationRepository.ExistsByDateAndReservationTimeStartAtAndStatus | src/main/java/roomescape/reservation/repository/ReservationRepository.java:38 | True exactly when some record has that date, start time and status. Theme and member play no part. |
| ReservationRepository.ExistsByMemberIdAndDateAndReservationTimeStartAtAndStatus | src/main/java/roomescape/reservation/repository/ReservationRepository.java:40 | True exactly when some record of the member has that date, start time and status. |
| ReservationRepository.Save | src/main/java/roomescape/reservation/service/ReservationService.java:54 | Save appends one record carrying the draft's fields, under a fresh id larger than any stored one. It keeps the store invariant. |
| ReservationRepository.DeleteById | src/main/java/roomescape/reservation/service/ReservationService.java:180-182 | Every record with the id is removed and every other record is kept. |
| ReservationRepository.DeleteKeepsValid | src/main/java/roomescape/reservation/service/ReservationService.java:180-182 | Deleting keeps ids and creation times increasing and below the counters. |
| ReservationRepository.DeleteKeepsBounds | src/main/java/roomescape/reservation/service/ReservationService.java:180-182 | Every record left after a delete stays below the id and clock counters. |
| Ordering.SortBy | src/main/java/roomescape/reservation/service/ReservationService.java:122-123 | The output is a permutation of the input. |
| Ordering.SortBySorted | src/main/java/roomescape/reservation/service/ReservationService.java:122-123 | The output is ordered by the comparator. |
| Ordering.SortByStable | src/main/java/roomescape/reservation/service/ReservationService.java:134-137 | Records with equal sort keys keep their relative input order, as in the stream sort. |
| Ordering.Insert | src/main/java/roomescape/reservation/service/ReservationService.java:155-157 | Insertion adds exactly the one record to the list. |
| Ordering.InsertSorted | src/main/java/roomescape/reservation/service/ReservationService.java:155-157 | Inserting into an ordered list keeps it ordered. |
| Ordering.InsertBelow | src/main/java/roomescape/reservation/service/ReservationService.java:155-157 | A common upper bound of the list and of the new record bounds every element after insertion. |
| Ordering.InsertStable | src/main/java/roomescape/reservation/service/ReservationService.java:155-157 | An inserted record goes after every record with an equal key, and the records of other keys keep their order. |
| Ordering.LeIsTotalPreorder | src/main/java/roomescape/reservation/service/ReservationService.java:203-205 | The comparator is reflexive, total and transitive. Two records compare equal exactly when their keys coincide. |
| Waitings.FindMemberRank | src/test/java/roomescape/reservation/domain/WaitingsTest.java:39-51 | A rank is given exactly when the member has an entry at the target's date and start time. It is the waiting number of the member's earliest such entry. |
| Waitings.RankAt | src/test/java/roomescape/reservation/domain/WaitingsTest.java:46-51 | A waiting number lies between 1 and the entry's position plus one. |
| Waitings.RankOneIffFirstAtDateTime | src/test/java/roomescape/reservation/domain/WaitingsTest.java:47-48 | An entry ranks 1 exactly when no earlier entry shares its date and start time. |
| Waitings.RankIncreasesAlongList | src/test/java/roomescape/reservation/domain/WaitingsTest.java:49 | Of two entries at one date and start time, the later one has the strictly larger waiting number. |
| Waitings.RankIgnoresOtherDateTimes | src/test/java/roomescape/reservation/domain/WaitingsTest.java:48-50 | Inserting an entry at another date or start time leaves every waiting number unchanged. |
| Waitings.RankFollowsCreation | src/main/java/roomescape/reservation/service/ReservationService.java:134-143 | On the service's ordered list, an earlier-created waiter at the same date and start time has a smaller waiting number. |
| Waitings.FindMemberRankOfEarliestEntry | src/test/java/roomescape/reservation/domain/WaitingsTest.java:46-51 | For the member's first entry at its date and start time, the rank is that entry's waiting number. |
| Waitings.FindFirstWaitingReservationByCanceledReservation | src/test/java/roomescape/reservation/domain/WaitingsTest.java:64-71 | It is absent exactly when no entry shares the cancelled reservation's date, start time and theme. Otherwise it returns the first such entry in list order. |
| Waitings.FirstWaitingIsEarliestCreated | src/main/java/roomescape/reservation/service/ReservationService.java:202-209 | On a list ordered by date, start time and creation, the waiter found has the smallest creation time in its slot. |
| Waitings.CountZero | src/test/java/roomescape/reservation/domain/WaitingsTest.java:47-50 | No entry before a position shares the date and start time exactly when the count of such entries is zero. |
| Seqs.FilterCount | src/main/java/roomescape/reservation/service/ReservationService.java:153-154 | Filtering keeps every occurrence of a selected record and drops every other one. |
| Seqs.FilterLast | src/main/java/roomescape/reservation/service/ReservationService.java:153-154 | Filtering a list equals filtering all but its last element, then appending the last element when it is selected. |
| Seqs.FilterSnoc | src/main/java/roomescape/reservation/service/ReservationService.java:153-154 | Filtering a list with one element appended equals filtering the list, then appending that element when it is selected. |
| Seqs.FilterKeepsIncreasing | src/main/java/roomescape/reservation/service/ReservationService.java:180-182 | Filtering a list whose keys strictly increase leaves a list whose keys strictly increase. |
| Seqs.FilterKeepsPairwise | src/main/java/roomescape/reservation/service/ReservationService.java:180-182 | Filtering keeps a sub-sequence, so any property that holds for every ordered pair of elements still holds afterwards. |
| SlotUniqueness.SaveSuccessKeepsUniqueness | src/main/java/roomescape/reservation/service/ReservationService.java:48-57 | A successful booking never creates a second SUCCESS at one date and start time. |
| SlotUniqueness.SaveWaitingKeepsUniqueness | src/main/java/roomescape/reservation/service/ReservationService.java:59-68 | Queuing never creates a second SUCCESS at one date and start time. |
| SlotUniqueness.DeleteKeepsUniqueness | src/main/java/roomescape/reservation/service/ReservationService.java:180-182 | Deleting by id keeps at most one SUCCESS per date and start time. |
| SlotUniqueness.PromotionAfterHolderLeavesKeepsUniqueness | src/main/java/roomescape/reservation/service/ReservationService.java:184-210 | Cancelling the SUCCESS holder and promoting its slot's first waiter keeps one SUCCESS per date and start time. |
| SlotUniqueness.CancelOfHolderKeepsUniqueness | src/main/java/roomescape/reservation/service/ReservationService.java:184-210 | Cancelling a SUCCESS reservation through the service keeps one SUCCESS per date and start time. |
| SlotUniqueness.CancelOfWaiterBreaksUniqueness | src/main/java/roomescape/reservation/service/ReservationService.java:189-199 | Cancelling a WAIT reservation can promote a second waiter while the slot's holder stays SUCCESS. The result has two SUCCESS records at one date and start time. |
| SlotUniqueness.WithdrawingWaiterPromotesBesideHolder | src/main/java/roomescape/reservation/service/ReservationService.java:184-210 | A concrete valid store with one holder and two waiters: cancelling the first waiter breaks uniqueness. |
| SlotUniqueness.PromotionBesideHolder | src/main/java/roomescape/reservation/service/ReservationService.java:201-210 | Promotion in a slot whose holder was not the cancelled record produces a second SUCCESS. |
| SlotUniqueness.CancelSucceeds | src/main/java/roomescape/reservation/service/ReservationService.java:184-199 | A known id dated on another day is always cancelled, followed by the promotion. |
| SlotUniqueness.PromotesTheOnlyWaiter | src/main/java/roomescape/reservation/service/ReservationService.java:208-209 | When the slot has exactly one waiter, promotion changes exactly that record to SUCCESS. |
| SlotUniqueness.CancelByIdGuarded | src/main/java/roomescape/reservation/service/ReservationService.java:184-210 | The corrected cancellation has the same refusals. It promotes only when the cancelled record held SUCCESS, and otherwise changes only the target. |
| SlotUniqueness.GuardedAgreesOnBookings | src/main/java/roomescape/reservation/service/ReservationService.java:184-210 | The corrected cancellation gives the same result as `CancelById` as written for an unknown id, for a reservation dated today, and for a SUCCESS reservation. |
| SlotUniqueness.CancelByIdGuardedKeepsUniqueness | src/main/java/roomescape/reservation/service/ReservationService.java:184-210 | The corrected cancellation keeps one SUCCESS per date and start time on every input. |
| Scenarios.FindMemberRankExample | src/test/java/roomescape/reservation/domain/WaitingsTest.java:26-52 | The test's ranks: 1 for kaki today, 1 for kaki tomorrow, 2 for jojo at 10:00 today, and 1 for jojo at 11:00 today. |
| Scenarios.FindFirstWaitingExample | src/test/java/roomescape/reservation/domain/WaitingsTest.java:54-72 | With jojo then kaki waiting in the cancelled slot, jojo is found. Its id equals kaki's, because neither is saved. |
| ServiceScenarios.BookWaitCancelPromotes | src/main/java/roomescape/reservation/service/ReservationService.java:48-210 | On an empty table: member 1 books and member 2 queues with rank 1. Member 1 cancels a day ahead; their record becomes CANCEL and member 2's becomes SUCCESS. |
| ServiceScenarios.BookThenWait | src/main/java/roomescape/reservation/service/ReservationService.java:48-68 | On an empty table, one member's booking and another member's queuing both succeed, in the same slot. |
| ServiceScenarios.WaitBehindOtherMember | src/main/java/roomescape/reservation/service/ReservationService.java:59-68 | Queuing behind another member's booking is accepted and appends the WAIT record. |
| ServiceScenarios.OnlyWaiterRanksFirst | src/main/java/roomescape/reservation/service/ReservationService.java:130-147 | With one holder and one waiter, the ranker's list is the waiter alone, ranked 1. |
| ServiceScenarios.CancelHolderPromotesWaiter | src/main/java/roomescape/reservation/service/ReservationService.java:184-210 | Cancelling the holder releases the slot to its only waiter. |
| ServiceScenarios.PromotionOfOnlyWaiter | src/main/java/roomescape/reservation/service/ReservationService.java:201-210 | For a cancelled record and its single waiter, the result is exactly the CANCEL record followed by the waiter as SUCCESS. |
| ServiceScenarios.RankAndPromotionAcrossThemes | src/main/java/roomescape/reservation/service/ReservationService.java:130-147 | Member 1 holds theme 2 at one date and time. Member 2 waits for theme 1 and is ranked 1. Member 3 waits for theme 2 and is ranked 2. When member 1 cancels, member 3 is promoted and member 2 keeps waiting. |
| ServiceScenarios.TwoWaitersRanked | src/main/java/roomescape/reservation/service/ReservationService.java:130-147 | Behind one holder, two members each waiting once at the same date and time are ranked 1 and 2, in creation order. |
| ServiceScenarios.WaitingBehindHolder | src/main/java/roomescape/reservation/service/ReservationService.java:132-137 | For a holder followed by two waiters, the WAIT query returns the two waiters in table order. |
| ServiceScenarios.PromotionSkipsOtherTheme | src/main/java/roomescape/reservation/service/ReservationService.java:184-210 | Cancelling the holder promotes the waiter of its own theme and leaves a waiter of another theme unchanged. |
| ServiceScenarios.PromotionPastOtherTheme | src/main/java/roomescape/reservation/service/ReservationService.java:201-210 | Cancelling the first of three records gives exactly: that record as CANCEL, the other-theme record unchanged, and the same-slot waiter as SUCCESS. |
| RepositoryScenarios.FindAllByMemberIdExample | src/test/java/roomescape/reservation/repository/ReservationRepositoryTest.java:89-94 | Of two members' bookings, the member query returns only the first member's booking. |
| RepositoryScenarios.FindTimeIdsExample | src/test/java/roomescape/reservation/repository/ReservationRepositoryTest.java:133-137 | One booking yields exactly its time id. |
| RepositoryScenarios.StatusesExample | src/test/java/roomescape/reservation/repository/ReservationRepositoryTest.java:179-188 | A member with SUCCESS and WAIT in one slot gets both statuses, in that order. |
| RepositoryScenarios.ExistsByStatusExample | src/test/java/roomescape/reservation/repository/ReservationRepositoryTest.java:206-223 | A SUCCESS booking is found by the SUCCESS existence query and not by the WAIT one. |
| RepositoryScenarios.DateBetweenExample | src/test/java/roomescape/reservation/repository/ReservationRepositoryTest.java:241-260 | Of bookings tomorrow and a week ahead, the range today to tomorrow returns one. |

## Left out

- HTTP controllers, authentication, DTO mapping and the front-end script are outside the reservation core.
- Entity lookups for times, themes and members are a `Catalog` parameter. The time, theme and member repositories are not part of this model.
- JPA mechanics are not modelled: entity graphs, lazy loading, dirty checking and transactions. A status change is a direct rewrite of the record.
- Concurrent requests are not modelled. Two bookings racing between the existence check and the save are outside a sequential model.
- `Status.from` and its rejection of unknown status strings are not modelled. The read operations take a `Status` value.
- `Reservation.isAfterToday` is a parameter of `FindWaitingReservations`. The current date used by `cancelById` is the `today` parameter. Neither clock is modelled.
- `findAll` returns the whole table and needs no model beyond `Store.rows`.
- Database result order is unspecified. The repository's list queries are modelled as filters that keep table order, and their contracts speak only of contents.
- `findStatusesByMemberIdAndDateAndReservationTimeStartAt` and `findReservationsOfLastWeek` are not declared in `ReservationRepository`. The first is modelled from its use in the service. The second is not used by the core and is not modelled.
- The `Waitings` class is not part of this model; WaitingsTest uses one theme throughout, so it fixes neither key. The model makes a choice: ranks count entries at the same date and start time, and the first waiter is matched on date, start time and theme. A consequence is that, with waiters A (theme 1) and then B (theme 2) at one date and time, B is ranked 2 yet is the one promoted when theme 2's holder cancels (`ServiceScenarios.RankAndPromotionAcrossThemes`).
- Waitings.FindMemberRank: returns None when the member has no entry at the date and start time. What Java's findMemberRank returns in that case is not fixed by WaitingsTest.
- ReservationService.FindMemberReservations: the rank of a non-WAIT reservation is whatever the ranker computes for it. The response mapping that decides whether to show it is not modelled.
- ReservationRepository.DeleteById: the Spring Data behaviour for a missing id is not modelled. In the model, deleting a missing id removes nothing.
- ReservationService.delete is not modelled separately, because it only forwards to `ReservationRepository.DeleteById`.

## Findings

| source | as written | input that shows it | evidently intended | confidence | as-written member | corrected member |
|---|---|---|---|---|---|---|
| src/main/java/roomescape/reservation/service/ReservationService.java:184-210 | `cancelById` sets any found reservation to CANCEL and then promotes the slot's first waiter, whatever the reservation's previous status was. | Day 5 at 10:00, theme 1, with member 1 holding SUCCESS and members 2 and 3 waiting. Member 2 cancels their WAIT a day ahead, so member 3 is promoted while member 1 still holds SUCCESS. | Only releasing a SUCCESS reservation should hand the slot to a waiter. Withdrawing a WAIT, or re-cancelling, should change only the target. | medium, not executed | SlotUniqueness.CancelOfWaiterBreaksUniqueness | SlotUniqueness.CancelByIdGuarded |
