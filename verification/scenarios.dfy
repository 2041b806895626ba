/**
 * Concrete cases the repository's own tests pin down, restated over the model.
 * Days are numbered from today (0); 10:00 and 11:00 are 600 and 660 minutes.
 */
module Scenarios {
  import opened Wrappers
  import opened Reservations
  import opened Waitings
  import Repo = ReservationRepository

  /**
   * Waiting numbers from the ranker test: kaki waits at 10:00 today and
   * tomorrow, jojo at 10:00 and 11:00 today, in that insertion order.
   */
  lemma FindMemberRankExample()
    ensures var hourTen := ReservationTime(1, 600);
            var hourEleven := ReservationTime(2, 660);
            var kaki1 := Reservation(0, 1, 0, hourTen, 1, Wait, 0);
            var kaki2 := Reservation(0, 1, 1, hourTen, 1, Wait, 0);
            var jojo1 := Reservation(0, 2, 0, hourTen, 1, Wait, 0);
            var jojo2 := Reservation(0, 2, 0, hourEleven, 1, Wait, 0);
            var ws := [kaki1, kaki2, jojo1, jojo2];
            && FindMemberRank(ws, kaki1, 1) == Some(1)
            && FindMemberRank(ws, kaki2, 1) == Some(1)
            && FindMemberRank(ws, jojo1, 2) == Some(2)
            && FindMemberRank(ws, jojo2, 2) == Some(1)
  {
    var hourTen := ReservationTime(1, 600);
    var hourEleven := ReservationTime(2, 660);
    var kaki1 := Reservation(0, 1, 0, hourTen, 1, Wait, 0);
    var kaki2 := Reservation(0, 1, 1, hourTen, 1, Wait, 0);
    var jojo1 := Reservation(0, 2, 0, hourTen, 1, Wait, 0);
    var jojo2 := Reservation(0, 2, 0, hourEleven, 1, Wait, 0);
    var ws := [kaki1, kaki2, jojo1, jojo2];
    assert MemberHeadFrom(ws, kaki1, 1, 0) == Some(0);
    assert MemberHeadFrom(ws, kaki2, 1, 1) == Some(1);
    assert MemberHeadFrom(ws, kaki2, 1, 0) == Some(1);
    assert MemberHeadFrom(ws, jojo1, 2, 2) == Some(2);
    assert MemberHeadFrom(ws, jojo1, 2, 0) == Some(2);
    assert MemberHeadFrom(ws, jojo2, 2, 3) == Some(3);
    assert MemberHeadFrom(ws, jojo2, 2, 0) == Some(3);
    assert ws[..0] == [];
    assert ws[..1] == [kaki1];
    assert ws[..2] == [kaki1, kaki2];
    assert ws[..3] == [kaki1, kaki2, jojo1];
    assert RankAt(ws, 0) == 1;
    assert CountSameDateTime([kaki1], kaki2) == 0;
    assert RankAt(ws, 1) == 1;
    assert CountSameDateTime([kaki1, kaki2], jojo1) == 1;
    assert RankAt(ws, 2) == 2;
    assert [kaki1, kaki2, jojo1][..2] == [kaki1, kaki2];
    assert [kaki1, kaki2][..1] == [kaki1];
    assert [kaki1][..0] == [];
    assert CountSameDateTime([kaki1], jojo2) == 0;
    assert CountSameDateTime([kaki1, kaki2], jojo2) == 0;
    assert CountSameDateTime([kaki1, kaki2, jojo1], jojo2) == 0;
    assert RankAt(ws, 3) == 1;
  }

  /**
   * The promotion test: jojo then kaki wait at 10:00 today; looking up the
   * cancelled 10:00 reservation finds the first of them. Both are unsaved, so
   * the test's id comparison holds for either.
   */
  lemma FindFirstWaitingExample()
    ensures var hourTen := ReservationTime(1, 600);
            var cancelled := Reservation(0, 1, 0, hourTen, 1, Cancel, 0);
            var jojo := Reservation(0, 2, 0, hourTen, 1, Wait, 0);
            var kaki := Reservation(0, 1, 0, hourTen, 1, Wait, 0);
            var found := FindFirstWaitingReservationByCanceledReservation([jojo, kaki], cancelled);
            found == Some(jojo) && found.value.id == kaki.id
  {
  }
}

module ServiceScenarios {
  import opened Wrappers
  import opened Ordering
  import opened Seqs
  import opened Reservations
  import opened Waitings
  import opened ReservationService
  import opened SlotUniqueness
  import Repo = ReservationRepository

  /** With one SUCCESS and one WAIT record, the ranker's list is the waiter alone, ranked first. */
  lemma OnlyWaiterRanksFirst(holder: Reservation, waiter: Reservation)
    requires holder.status == Success && waiter.status == Wait
    ensures WaitingList([holder, waiter]) == [waiter]
    ensures FindMemberRank(WaitingList([holder, waiter]), waiter, waiter.memberId) == Some(1)
  {
    var ws := WaitingList([holder, waiter]);
    assert multiset([holder, waiter])[waiter] == 1;
    assert multiset(ws) == multiset{waiter};
    assert |ws| == 1;
    assert ws[0] in multiset(ws);
    assert IsMemberEntry(ws, waiter, waiter.memberId, 0);
  }

  /** Cancelling the holder a day or more ahead releases the slot to its only waiter. */
  lemma CancelHolderPromotesWaiter(store: Store, holder: Reservation, waiter: Reservation, today: Date)
    requires store.rows == [holder, waiter]
    requires holder.date != today
    requires waiter.status == Wait && SameSlot(waiter, holder)
    ensures CancelById(store, holder.id, today).Ok?
    ensures CancelById(store, holder.id, today).value.rows == [holder.(status := Cancel), waiter.(status := Success)]
  {
    assert Repo.IndexOfId(store.rows, holder.id) == Some(0);
    CancelSucceeds(store, holder.id, today, 0);
    PromotionOfOnlyWaiter(store.rows, CancelById(store, holder.id, today).value.rows);
  }

  /** Cancelling the first of two records whose second waits in its slot promotes that waiter. */
  lemma PromotionOfOnlyWaiter(rows: seq<Reservation>, after: seq<Reservation>)
    requires |rows| == 2 && rows[1].status == Wait && SameSlot(rows[1], rows[0])
    requires CanceledAndPromoted(rows, 0, after)
    ensures after == [rows[0].(status := Cancel), rows[1].(status := Success)]
  {
    var c := rows[0].(status := Cancel);
    var mid := rows[0 := c];
    assert mid == [c, rows[1]];
    assert IsWaiter(mid, c, 1);
    PromotesTheOnlyWaiter(mid, c, after, 1);
  }

  /**
   * The walk-through of the booking flow: member 1 books day 5 at 10:00,
   * member 2 queues for the same slot and is first in line, then member 1
   * cancels a day ahead and member 2's reservation becomes SUCCESS.
   */
  lemma BookWaitCancelPromotes()
    ensures var catalog := Catalog(map[1 := 600], {1}, {1, 2});
            var request := SaveRequest(5, 1, 1);
            var booked := SaveReservationSuccess(catalog, Store([], 1, 0), request, 1);
            && booked.Ok?
            && var waited := SaveReservationWaiting(catalog, booked.value.0, request, 2);
            && waited.Ok?
            && FindMemberRank(WaitingList(waited.value.0.rows), waited.value.1, 2) == Some(1)
            && var canceled := CancelById(waited.value.0, booked.value.1.id, 0);
            && canceled.Ok?
            && canceled.value.rows == [booked.value.1.(status := Cancel), waited.value.1.(status := Success)]
  {
    var catalog := Catalog(map[1 := 600], {1}, {1, 2});
    var request := SaveRequest(5, 1, 1);
    var s0 := Store([], 1, 0);
    assert ReferencesResolve(catalog, request, 1) && ReferencesResolve(catalog, request, 2);
    BookThenWait(catalog, s0, request, 1, 2);
    var (s1, kaki) := SaveReservationSuccess(catalog, s0, request, 1).value;
    var (s2, jojo) := SaveReservationWaiting(catalog, s1, request, 2).value;
    OnlyWaiterRanksFirst(kaki, jojo);
    CancelHolderPromotesWaiter(s2, kaki, jojo, 0);
  }

  /** Member 1 holds theme 2 at 10:00 on day 5; member 2 waits for theme 1 and then member 3 for theme 2. */
  function CrossThemeStore(): Store {
    var time := ReservationTime(1, 600);
    Store([Reservation(1, 1, 5, time, 2, Success, 0),
           Reservation(2, 2, 5, time, 1, Wait, 1),
           Reservation(3, 3, 5, time, 2, Wait, 2)], 4, 3)
  }

  /**
   * Ranks count every theme at a date and time but promotion matches the
   * theme: member 3 is second in line, yet is the one promoted when member 1
   * cancels, while member 2, first in line, keeps waiting.
   */
  lemma RankAndPromotionAcrossThemes()
    ensures var store := CrossThemeStore();
            && FindMemberRank(WaitingList(store.rows), store.rows[1], 2) == Some(1)
            && FindMemberRank(WaitingList(store.rows), store.rows[2], 3) == Some(2)
            && CancelById(store, 1, 0).Ok?
            && CancelById(store, 1, 0).value.rows ==
                 [store.rows[0].(status := Cancel), store.rows[1], store.rows[2].(status := Success)]
  {
    var store := CrossThemeStore();
    TwoWaitersRanked(store.rows, store.rows[0], store.rows[1], store.rows[2]);
    PromotionSkipsOtherTheme(store, store.rows[0], store.rows[1], store.rows[2], 0);
  }

  /** Behind one holder, two members each waiting once at the same date and time are ranked 1 and 2 by creation. */
  lemma TwoWaitersRanked(rows: seq<Reservation>, h: Reservation, x: Reservation, y: Reservation)
    requires rows == [h, x, y] && h.status == Success && x.status == Wait && y.status == Wait
    requires x.memberId != y.memberId && SameDateTime(x, y) && x.createdAt < y.createdAt
    ensures FindMemberRank(WaitingList(rows), x, x.memberId) == Some(1)
    ensures FindMemberRank(WaitingList(rows), y, y.memberId) == Some(2)
  {
    WaitingBehindHolder(rows, h, x, y);
    SoleWaitersBehindHolder(rows, h, x, y);
    var a := SoleWaitRank(rows, x);
    var b := SoleWaitRank(rows, y);
    RanksOfTwo(WaitingList(rows), a, b);
  }

  /** On a sorted list of two entries at one date and time, the earlier-created is ranked 1 and the other 2. */
  lemma RanksOfTwo(ws: seq<Reservation>, a: nat, b: nat)
    requires Sorted(ByDateTimeCreatedAt, ws) && |ws| == 2
    requires a < 2 && b < 2 && SameDateTime(ws[a], ws[b]) && ws[a].createdAt < ws[b].createdAt
    ensures RankAt(ws, a) == 1 && RankAt(ws, b) == 2
  {
    RankFollowsCreation(ws, a, b);
  }

  /** Two waiters of different members behind a holder each wait only once. */
  lemma SoleWaitersBehindHolder(rows: seq<Reservation>, h: Reservation, x: Reservation, y: Reservation)
    requires rows == [h, x, y] && h.status == Success && x.status == Wait && y.status == Wait
    requires x.memberId != y.memberId
    ensures SoleWaitOfMember(rows, x) && SoleWaitOfMember(rows, y)
  {
    assert forall z :: z in rows ==> z == h || z == x || z == y;
  }

  /** The WAIT records of a holder followed by two waiters are the two waiters, in order. */
  lemma WaitingBehindHolder(rows: seq<Reservation>, h: Reservation, x: Reservation, y: Reservation)
    requires rows == [h, x, y] && h.status == Success && x.status == Wait && y.status == Wait
    ensures Repo.FindAllByStatus(rows, Wait) == [x, y]
  {
    var p := Repo.OfStatus(Wait);
    assert p(x) && p(y) && !p(h);
    assert [y][1..] == [] && Filter([y], p) == [y];
    assert [x, y][1..] == [y] && Filter([x, y], p) == [x, y];
    assert rows[1..] == [x, y];
  }

  /** Cancelling the holder promotes the waiter of its own theme and passes over a waiter of another theme. */
  lemma PromotionSkipsOtherTheme(store: Store, h: Reservation, x: Reservation, y: Reservation, today: Date)
    requires store.rows == [h, x, y] && h.date != today
    requires x.themeId != h.themeId && y.status == Wait && SameSlot(y, h)
    ensures CancelById(store, h.id, today).Ok?
    ensures CancelById(store, h.id, today).value.rows == [h.(status := Cancel), x, y.(status := Success)]
  {
    assert Repo.IndexOfId(store.rows, h.id) == Some(0);
    CancelSucceeds(store, h.id, today, 0);
    PromotionPastOtherTheme(store.rows, CancelById(store, h.id, today).value.rows);
  }

  /** Cancelling the first of three records promotes the third, which waits in its slot, and not the second. */
  lemma PromotionPastOtherTheme(rows: seq<Reservation>, after: seq<Reservation>)
    requires |rows| == 3 && rows[1].themeId != rows[0].themeId
    requires rows[2].status == Wait && SameSlot(rows[2], rows[0])
    requires CanceledAndPromoted(rows, 0, after)
    ensures after == [rows[0].(status := Cancel), rows[1], rows[2].(status := Success)]
  {
    var c := rows[0].(status := Cancel);
    var mid := rows[0 := c];
    assert mid == [c, rows[1], rows[2]];
    assert IsWaiter(mid, c, 2);
    PromotesTheOnlyWaiter(mid, c, after, 2);
  }

  /** On an empty table, one member books a slot and another then queues for it. */
  lemma BookThenWait(catalog: Catalog, s0: Store, request: SaveRequest, holder: MemberId, waiter: MemberId)
    requires s0.rows == [] && holder != waiter
    requires ReferencesResolve(catalog, request, holder) && ReferencesResolve(catalog, request, waiter)
    ensures var booked := SaveReservationSuccess(catalog, s0, request, holder);
            && booked.Ok?
            && var waited := SaveReservationWaiting(catalog, booked.value.0, request, waiter);
            && waited.Ok?
            && var (kaki, jojo) := (booked.value.1, waited.value.1);
            && waited.value.0.rows == [kaki, jojo]
            && kaki.status == Success && kaki.date == request.date
            && jojo.status == Wait && SameSlot(jojo, kaki)
  {
    var booked := SaveReservationSuccess(catalog, s0, request, holder);
    assert booked.Ok?;
    var (s1, kaki) := booked.value;
    assert s1.rows == [kaki];
    WaitBehindOtherMember(catalog, s1, request, waiter, kaki);
  }

  /** Queuing behind another member's booking is accepted and appends the WAIT record. */
  lemma WaitBehindOtherMember(catalog: Catalog, s1: Store, request: SaveRequest, waiter: MemberId, holder: Reservation)
    requires s1.rows == [holder] && holder.memberId != waiter
    requires ReferencesResolve(catalog, request, waiter)
    ensures var waited := SaveReservationWaiting(catalog, s1, request, waiter);
            && waited.Ok?
            && waited.value.0.rows == [holder, waited.value.1]
  {
    var waited := SaveReservationWaiting(catalog, s1, request, waiter);
    assert waited.Ok?;
    assert waited.value.0.rows == [holder] + [waited.value.1];
  }
}

/** The repository test cases, on one 10:00 time slot (time id 1) and theme 1; day 0 is today. */
module RepositoryScenarios {
  import opened Reservations
  import opened ReservationRepository
  import ReservationService
  import Seqs

  function At(id: ReservationId, memberId: MemberId, date: Date, status: Status): Reservation {
    Reservation(id, memberId, date, ReservationTime(1, 600), 1, status, id)
  }

  /** Two members book the same slot; the member query returns only the first member's booking. */
  lemma FindAllByMemberIdExample()
    ensures FindAllByMemberId([At(1, 1, 0, Success), At(2, 2, 0, Success)], 1) == [At(1, 1, 0, Success)]
  {
    assert Seqs.Filter([At(2, 2, 0, Success)], OfMember(1)) == [];
  }

  /** One booking today: its date and theme yield exactly its time id. */
  lemma FindTimeIdsExample()
    ensures FindTimeIdsByDateAndThemeId([At(1, 1, 0, Success)], 0, 1) == [1]
  {
    assert [At(1, 1, 0, Success)][1..] == [];
  }

  /** A member holding a SUCCESS and a WAIT for one slot gets both statuses, in that order. */
  lemma StatusesExample()
    ensures ReservationService.StatusesByMemberIdAndDateAndStartAt(
              [At(1, 1, 0, Success), At(2, 1, 0, Wait)], 1, 0, 600) == [Success, Wait]
  {
    var rows := [At(1, 1, 0, Success), At(2, 1, 0, Wait)];
    assert rows[1..] == [At(2, 1, 0, Wait)];
    assert rows[1..][1..] == [];
  }

  /** A SUCCESS booking is found by the SUCCESS existence query and not by the WAIT one. */
  lemma ExistsByStatusExample()
    ensures ExistsByDateAndReservationTimeStartAtAndStatus([At(1, 1, 0, Success)], 0, 600, Success)
    ensures !ExistsByDateAndReservationTimeStartAtAndStatus([At(1, 1, 0, Success)], 0, 600, Wait)
  {
    var rows := [At(1, 1, 0, Success)];
    assert rows[0].date == 0 && rows[0].StartAt() == 600 && rows[0].status == Success;
  }

  /** Bookings tomorrow and a week ahead: the range today..tomorrow holds only the first. */
  lemma DateBetweenExample()
    ensures |FindAllByThemeIdAndMemberIdAndDateBetween([At(1, 1, 1, Success), At(2, 1, 7, Success)], 1, 1, 0, 1)| == 1
  {
    var rows := [At(1, 1, 1, Success), At(2, 1, 7, Success)];
    assert Seqs.Filter(rows[1..], OfThemeMemberBetween(1, 1, 0, 1)) == [] by {
      assert rows[1..][1..] == [];
    }
  }
}
