/**
 * The reservation lifecycle service: booking as SUCCESS or WAIT with their
 * duplicate checks, cancellation with promotion of the first waiter, and the
 * sorted listings. Every operation takes the store and returns the new one.
 */
module ReservationService {
  import opened Wrappers
  import opened Reservations
  import opened Seqs
  import opened Ordering
  import opened Waitings
  import Repo = ReservationRepository

  /** The catalogs bookings refer to: start times by id, themes and members. */
  datatype Catalog = Catalog(times: map<TimeId, Time>, themes: set<ThemeId>, members: set<MemberId>)

  /** A booking request: the member comes from the login, not from the request. */
  datatype SaveRequest = SaveRequest(date: Date, timeId: TimeId, themeId: ThemeId)

  datatype Error =
    | TimeNotFound
    | ThemeNotFound
    | MemberNotFound
    | DuplicatedReservation      // a SUCCESS record already holds the date and start time
    | AlreadyReservedOrWaiting   // the member already holds or awaits the date and start time
    | ReservationNotFound
    | SameDayCancellation

  /** One line of a member's own listing: the reservation and, when they wait, their waiting number. */
  datatype MemberReservation = MemberReservation(reservation: Reservation, rank: Option<nat>)

  predicate ReferencesResolve(catalog: Catalog, request: SaveRequest, memberId: MemberId) {
    request.timeId in catalog.times && request.themeId in catalog.themes && memberId in catalog.members
  }

  /**
   * Looks up the time, then the theme, then the member, and builds the
   * unsaved reservation; the first lookup that misses is the error.
   */
  function CreateValidatedReservationOfStatus(
    catalog: Catalog, request: SaveRequest, memberId: MemberId, status: Status): (r: Result<Draft, Error>)
    ensures request.timeId !in catalog.times ==> r == Err(TimeNotFound)
    ensures request.timeId in catalog.times && request.themeId !in catalog.themes ==> r == Err(ThemeNotFound)
    ensures request.timeId in catalog.times && request.themeId in catalog.themes && memberId !in catalog.members ==>
              r == Err(MemberNotFound)
    ensures r.Ok? <==> ReferencesResolve(catalog, request, memberId)
    ensures r.Ok? ==> r.value.memberId == memberId && r.value.date == request.date && r.value.themeId == request.themeId
                      && r.value.time == ReservationTime(request.timeId, catalog.times[request.timeId])
                      && r.value.status == status
  {
    if request.timeId !in catalog.times then Err(TimeNotFound)
    else if request.themeId !in catalog.themes then Err(ThemeNotFound)
    else if memberId !in catalog.members then Err(MemberNotFound)
    else Ok(Draft(memberId, request.date, ReservationTime(request.timeId, catalog.times[request.timeId]),
                  request.themeId, status))
  }

  /**
   * The SUCCESS duplicate check: a record of the draft's status at its date and
   * start time, of any member and any theme.
   */
  predicate IsDuplicatedSuccess(rows: seq<Reservation>, d: Draft): (b: bool)
    ensures b <==> exists i :: 0 <= i < |rows| && rows[i].status == d.status
                              && rows[i].date == d.date && rows[i].StartAt() == d.time.startAt
  {
    Repo.ExistsByDateAndReservationTimeStartAtAndStatus(rows, d.date, d.time.startAt, d.status)
  }

  /** The statuses the member holds at a date and start time, any theme, in table order. */
  function StatusesByMemberIdAndDateAndStartAt(
    rows: seq<Reservation>, memberId: MemberId, date: Date, startAt: Time): (r: seq<Status>)
    ensures forall st :: st in r <==> exists i :: 0 <= i < |rows| && rows[i].memberId == memberId
                                                 && rows[i].date == date && rows[i].StartAt() == startAt
                                                 && rows[i].status == st
  {
    if |rows| == 0 then []
    else
      var rest := StatusesByMemberIdAndDateAndStartAt(rows[1..], memberId, date, startAt);
      assert forall i :: 1 <= i < |rows| ==> rows[i] == rows[1..][i - 1];
      if rows[0].memberId == memberId && rows[0].date == date && rows[0].StartAt() == startAt
      then [rows[0].status] + rest
      else rest
  }

  /**
   * The WAIT duplicate check: the draft's member already holds SUCCESS or WAIT at
   * its date and start time, in any theme. A CANCEL record there does not count.
   */
  predicate IsDuplicatedWaiting(rows: seq<Reservation>, d: Draft): (b: bool)
    ensures b <==> exists i :: 0 <= i < |rows| && rows[i].memberId == d.memberId
                              && rows[i].status in {Success, Wait}
                              && rows[i].date == d.date && rows[i].StartAt() == d.time.startAt
  {
    var statuses := StatusesByMemberIdAndDateAndStartAt(rows, d.memberId, d.date, d.time.startAt);
    Success in statuses || Wait in statuses
  }

  /** The waiting duplicate check agrees with asking the member-scoped existence query for SUCCESS and for WAIT. */
  lemma DuplicatedWaitingIsExistsQuery(rows: seq<Reservation>, d: Draft)
    ensures IsDuplicatedWaiting(rows, d) <==>
              || Repo.ExistsByMemberIdAndDateAndReservationTimeStartAtAndStatus(rows, d.memberId, d.date, d.time.startAt, Success)
              || Repo.ExistsByMemberIdAndDateAndReservationTimeStartAtAndStatus(rows, d.memberId, d.date, d.time.startAt, Wait)
  {
  }

  /** saveReservationSuccess: refused when any SUCCESS record holds the date and start time. */
  function SaveReservationSuccess(
    catalog: Catalog, store: Store, request: SaveRequest, memberId: MemberId): (r: Result<(Store, Reservation), Error>)
    ensures !ReferencesResolve(catalog, request, memberId) ==>
              r == Err(CreateValidatedReservationOfStatus(catalog, request, memberId, Success).error)
    ensures ReferencesResolve(catalog, request, memberId) ==>
              (r.Err? <==> exists i :: 0 <= i < |store.rows| && store.rows[i].status == Success
                                       && store.rows[i].date == request.date
                                       && store.rows[i].StartAt() == catalog.times[request.timeId])
    ensures ReferencesResolve(catalog, request, memberId) && r.Err? ==> r.error == DuplicatedReservation
    ensures r.Ok? ==> var (after, saved) := r.value;
                      && after.rows == store.rows + [saved]
                      && saved.status == Success && saved.memberId == memberId && saved.date == request.date
                      && saved.time == ReservationTime(request.timeId, catalog.times[request.timeId])
                      && saved.themeId == request.themeId
    ensures r.Ok? && Valid(store) ==> Valid(r.value.0)
  {
    var d :- CreateValidatedReservationOfStatus(catalog, request, memberId, Success);
    if IsDuplicatedSuccess(store.rows, d) then Err(DuplicatedReservation)
    else Ok(Repo.Save(store, d))
  }

  /** saveReservationWaiting: refused when the member already holds or awaits that date and start time. */
  function SaveReservationWaiting(
    catalog: Catalog, store: Store, request: SaveRequest, memberId: MemberId): (r: Result<(Store, Reservation), Error>)
    ensures !ReferencesResolve(catalog, request, memberId) ==>
              r == Err(CreateValidatedReservationOfStatus(catalog, request, memberId, Wait).error)
    ensures ReferencesResolve(catalog, request, memberId) ==>
              (r.Err? <==> exists i :: 0 <= i < |store.rows| && store.rows[i].memberId == memberId
                                       && store.rows[i].status in {Success, Wait}
                                       && store.rows[i].date == request.date
                                       && store.rows[i].StartAt() == catalog.times[request.timeId])
    ensures ReferencesResolve(catalog, request, memberId) && r.Err? ==> r.error == AlreadyReservedOrWaiting
    ensures r.Ok? ==> var (after, saved) := r.value;
                      && after.rows == store.rows + [saved]
                      && saved.status == Wait && saved.memberId == memberId && saved.date == request.date
                      && saved.time == ReservationTime(request.timeId, catalog.times[request.timeId])
                      && saved.themeId == request.themeId
    ensures r.Ok? && Valid(store) ==> Valid(r.value.0)
  {
    var d :- CreateValidatedReservationOfStatus(catalog, request, memberId, Wait);
    if IsDuplicatedWaiting(store.rows, d) then Err(AlreadyReservedOrWaiting)
    else Ok(Repo.Save(store, d))
  }

  /** findById: the record with that id, or an error naming the missing reservation. */
  function FindById(store: Store, id: ReservationId): (r: Result<Reservation, Error>)
    ensures r.Err? <==> forall i :: 0 <= i < |store.rows| ==> store.rows[i].id != id
    ensures r.Err? ==> r.error == ReservationNotFound
    ensures r.Ok? ==> r.value in store.rows && r.value.id == id
  {
    match Repo.FindById(store.rows, id)
    case None => Err(ReservationNotFound)
    case Some(x) => Ok(x)
  }

  /** findAllByStatus: the reservations in that status, ordered by date then start time. */
  function FindAllByStatus(store: Store, status: Status): (r: seq<Reservation>)
    ensures Sorted(ByDateTime, r)
    ensures forall x :: multiset(r)[x] == if x.status == status then multiset(store.rows)[x] else 0
  {
    SortBySorted(ByDateTime, Repo.FindAllByStatus(store.rows, status));
    SortBy(ByDateTime, Repo.FindAllByStatus(store.rows, status))
  }

  /** The WAIT reservations ordered by date, start time and creation: the list the ranker works on. */
  function WaitingList(rows: seq<Reservation>): (ws: seq<Reservation>)
    ensures Sorted(ByDateTimeCreatedAt, ws)
    ensures forall x :: multiset(ws)[x] == if x.status == Wait then multiset(rows)[x] else 0
  {
    SortBySorted(ByDateTimeCreatedAt, Repo.FindAllByStatus(rows, Wait));
    SortBy(ByDateTimeCreatedAt, Repo.FindAllByStatus(rows, Wait))
  }

  /**
   * findMemberReservations: each of the member's reservations, in repository
   * order, with the waiting number the ranker gives it.
   */
  function FindMemberReservations(store: Store, memberId: MemberId): (r: seq<MemberReservation>)
    ensures var mine := Repo.FindAllByMemberId(store.rows, memberId);
            |r| == |mine| && forall i :: 0 <= i < |r| ==> r[i].reservation == mine[i]
    ensures forall i :: 0 <= i < |r| ==> r[i].rank == FindMemberRank(WaitingList(store.rows), r[i].reservation, memberId)
  {
    var ws := WaitingList(store.rows);
    var mine := Repo.FindAllByMemberId(store.rows, memberId);
    seq(|mine|, i requires 0 <= i < |mine| => MemberReservation(mine[i], FindMemberRank(ws, mine[i], memberId)))
  }

  /** Every listed reservation is the member's, from the table, and ranked at least 1 when it waits. */
  lemma MemberListingFacts(store: Store, memberId: MemberId)
    ensures var r := FindMemberReservations(store, memberId);
            forall i :: 0 <= i < |r| ==>
              && r[i].reservation.memberId == memberId && r[i].reservation in store.rows
              && (r[i].reservation.status == Wait ==> r[i].rank.Some? && r[i].rank.value >= 1)
  {
    var r := FindMemberReservations(store, memberId);
    var mine := Repo.FindAllByMemberId(store.rows, memberId);
    forall i | 0 <= i < |r|
      ensures r[i].reservation.memberId == memberId && r[i].reservation in store.rows
      ensures r[i].reservation.status == Wait ==> r[i].rank.Some? && r[i].rank.value >= 1
    {
      var x := mine[i];
      assert r[i].reservation == x;
      assert x in multiset(mine);
      if x.status == Wait {
        WaitingEntryIsListed(store.rows, x);
        var ws := WaitingList(store.rows);
        var j :| 0 <= j < |ws| && IsMemberEntry(ws, x, memberId, j)
                 && (forall i :: 0 <= i < j ==> !IsMemberEntry(ws, x, memberId, i))
                 && r[i].rank.value == RankAt(ws, j);
      }
    }
  }

  /** A WAIT record of the table appears in the ranker's list, and is then ranked for its own member. */
  lemma WaitingEntryIsListed(rows: seq<Reservation>, x: Reservation)
    requires x in rows && x.status == Wait
    ensures x in WaitingList(rows)
    ensures FindMemberRank(WaitingList(rows), x, x.memberId).Some?
  {
    var ws := WaitingList(rows);
    assert x in multiset(rows);
    assert x in multiset(ws);
    var j :| 0 <= j < |ws| && ws[j] == x;
    assert IsMemberEntry(ws, x, x.memberId, j);
  }

  /** `x` is a WAIT record of the table and its member's only WAIT record at its date and start time. */
  ghost predicate SoleWaitOfMember(rows: seq<Reservation>, x: Reservation) {
    && x in rows && x.status == Wait
    && forall z :: z in rows && z.status == Wait && z.memberId == x.memberId && SameDateTime(z, x) ==> z == x
  }

  /** The rank the ranker gives a member's sole WAIT record is the rank of its own place in the list. */
  lemma SoleWaitRank(rows: seq<Reservation>, x: Reservation) returns (a: nat)
    requires SoleWaitOfMember(rows, x)
    ensures a < |WaitingList(rows)| && WaitingList(rows)[a] == x
    ensures FindMemberRank(WaitingList(rows), x, x.memberId) == Some(RankAt(WaitingList(rows), a))
  {
    var ws := WaitingList(rows);
    WaitingEntryIsListed(rows, x);
    a := IndexOf(ws, x);
    forall j | 0 <= j < a
      ensures !IsMemberEntry(ws, x, x.memberId, j)
    {
      assert ws[j] in multiset(ws);
      assert ws[j] in rows && ws[j].status == Wait && ws[j] != x;
    }
    FindMemberRankOfEarliestEntry(ws, a, x.memberId);
  }

  /**
   * On findMemberReservations' listings, of two members each waiting once at the
   * same date and start time, the one who queued first has the smaller waiting number.
   */
  lemma ListedRanksFollowCreation(store: Store, x: Reservation, y: Reservation)
    requires SoleWaitOfMember(store.rows, x) && SoleWaitOfMember(store.rows, y)
    requires SameDateTime(x, y) && x.createdAt < y.createdAt
    ensures var rx := FindMemberReservations(store, x.memberId);
            var ry := FindMemberReservations(store, y.memberId);
            forall i, j :: 0 <= i < |rx| && 0 <= j < |ry| && rx[i].reservation == x && ry[j].reservation == y ==>
              rx[i].rank.Some? && ry[j].rank.Some? && rx[i].rank.value < ry[j].rank.value
  {
    var ws := WaitingList(store.rows);
    var a := SoleWaitRank(store.rows, x);
    var b := SoleWaitRank(store.rows, y);
    RankFollowsCreation(ws, a, b);
  }

  /** findWaitingReservations: WAIT reservations passing isAfterToday, ordered by date, start time and creation. */
  function FindWaitingReservations(store: Store, isAfterToday: Date -> bool): (r: seq<Reservation>)
    ensures Sorted(ByDateTimeCreatedAt, r)
    ensures forall x :: multiset(r)[x] == if x.status == Wait && isAfterToday(x.date) then multiset(store.rows)[x] else 0
  {
    var waiting := Repo.FindAllByStatus(store.rows, Wait);
    var upcoming := (x: Reservation) => isAfterToday(x.date);
    FilterCount(waiting, upcoming);
    SortBySorted(ByDateTimeCreatedAt, Filter(waiting, upcoming));
    SortBy(ByDateTimeCreatedAt, Filter(waiting, upcoming))
  }

  /** findAllBySearchCondition: the theme's and member's reservations in the inclusive date range, ordered by date then start time. */
  function FindAllBySearchCondition(
    store: Store, themeId: ThemeId, memberId: MemberId, dateFrom: Date, dateTo: Date): (r: seq<Reservation>)
    ensures Sorted(ByDateTime, r)
    ensures forall x :: multiset(r)[x] ==
                        if x.themeId == themeId && x.memberId == memberId && dateFrom <= x.date <= dateTo
                        then multiset(store.rows)[x] else 0
  {
    var found := Repo.FindAllByThemeIdAndMemberIdAndDateBetween(store.rows, themeId, memberId, dateFrom, dateTo);
    SortBySorted(ByDateTime, found);
    SortBy(ByDateTime, found)
  }

  /** The record at `q` waits in the slot (date, start time, theme) of `c`. */
  ghost predicate IsWaiter(rows: seq<Reservation>, c: Reservation, q: nat)
    requires q < |rows|
  {
    rows[q].status == Wait && SameSlot(rows[q], c)
  }

  /** The record at `p` waits in the slot of `c` and no waiter there was created before it. */
  ghost predicate IsFirstWaiter(rows: seq<Reservation>, c: Reservation, p: nat)
    requires p < |rows|
  {
    IsWaiter(rows, c, p) && forall q :: 0 <= q < |rows| && IsWaiter(rows, c, q) ==> rows[p].createdAt <= rows[q].createdAt
  }

  /**
   * `after` is `before` with, when the slot of `c` has a waiter, exactly one
   * earliest-created waiter turned SUCCESS, and nothing else changed.
   */
  ghost predicate Promoted(before: seq<Reservation>, c: Reservation, after: seq<Reservation>) {
    && |after| == |before|
    && (forall q :: 0 <= q < |before| && after[q] != before[q] ==>
          IsFirstWaiter(before, c, q) && after[q] == before[q].(status := Success))
    && (forall p, q :: 0 <= p < q < |before| ==> after[p] == before[p] || after[q] == before[q])
    && ((exists q :: 0 <= q < |before| && IsWaiter(before, c, q)) <==> after != before)
  }

  /** The target at `t` is set to CANCEL, then the first waiter of its slot is promoted. */
  ghost predicate CanceledAndPromoted(rows: seq<Reservation>, t: nat, after: seq<Reservation>)
    requires t < |rows|
  {
    var canceled := rows[t].(status := Cancel);
    |after| == |rows| && after[t] == canceled && Promoted(rows[t := canceled], canceled, after)
  }

  /** The ranker's list holds exactly the WAIT records, so every waiter of a slot is on it. */
  lemma WaitersAreListed(rows: seq<Reservation>, c: Reservation, q: nat)
    requires q < |rows| && IsWaiter(rows, c, q)
    ensures exists j :: 0 <= j < |WaitingList(rows)| && WaitingList(rows)[j] == rows[q]
  {
    var ws := WaitingList(rows);
    assert rows[q] in multiset(rows);
    assert rows[q] in multiset(ws);
  }

  /**
   * updateFirstWaitingReservation: builds the ranker over all WAIT records in
   * (date, startAt, createdAt) order and turns the first one in the cancelled
   * reservation's slot into SUCCESS.
   */
  function UpdateFirstWaitingReservation(rows: seq<Reservation>, canceled: Reservation): (r: seq<Reservation>)
    ensures Promoted(rows, canceled, r)
  {
    var ws := WaitingList(rows);
    match FindFirstWaitingReservationByCanceledReservation(ws, canceled)
    case None =>
      NoWaiterWhenNoneListed(rows, canceled);
      rows
    case Some(w) =>
      FirstListedIsFirstWaiter(rows, canceled, w);
      var p := IndexOf(rows, w);
      PromotingFirstWaiter(rows, canceled, p);
      rows[p := w.(status := Success)]
  }

  /** Turning a first waiter SUCCESS is a promotion in the sense of `Promoted`. */
  lemma PromotingFirstWaiter(rows: seq<Reservation>, c: Reservation, p: nat)
    requires p < |rows| && IsFirstWaiter(rows, c, p)
    ensures Promoted(rows, c, rows[p := rows[p].(status := Success)])
  {
    var after := rows[p := rows[p].(status := Success)];
    assert after[p] != rows[p];
  }

  lemma NoWaiterWhenNoneListed(rows: seq<Reservation>, canceled: Reservation)
    requires FindFirstWaitingReservationByCanceledReservation(WaitingList(rows), canceled).None?
    ensures forall q :: 0 <= q < |rows| ==> !IsWaiter(rows, canceled, q)
  {
    forall q | 0 <= q < |rows| && IsWaiter(rows, canceled, q)
      ensures false
    {
      WaitersAreListed(rows, canceled, q);
    }
  }

  lemma FirstListedIsFirstWaiter(rows: seq<Reservation>, canceled: Reservation, w: Reservation)
    requires FindFirstWaitingReservationByCanceledReservation(WaitingList(rows), canceled) == Some(w)
    ensures w in rows
    ensures IsFirstWaiter(rows, canceled, IndexOf(rows, w))
  {
    var ws := WaitingList(rows);
    var i :| 0 <= i < |ws| && ws[i] == w && SameSlot(ws[i], canceled);
    assert multiset(ws)[w] > 0;
    assert w.status == Wait && w in multiset(rows);
    var p := IndexOf(rows, w);
    FirstWaitingIsEarliestCreated(ws, canceled);
    forall q | 0 <= q < |rows| && IsWaiter(rows, canceled, q)
      ensures w.createdAt <= rows[q].createdAt
    {
      WaitersAreListed(rows, canceled, q);
      var j :| 0 <= j < |ws| && ws[j] == rows[q];
      assert SameSlot(ws[j], canceled);
    }
  }

  /**
   * cancelById: unknown ids and reservations dated today are refused; otherwise
   * the target becomes CANCEL, whatever its status was, and the first waiter of
   * its slot is promoted.
   */
  function CancelById(store: Store, id: ReservationId, today: Date): (r: Result<Store, Error>)
    ensures match Repo.IndexOfId(store.rows, id)
            case None => r == Err(ReservationNotFound)
            case Some(t) =>
              && (store.rows[t].date == today <==> r.Err?)
              && (r.Err? ==> r.error == SameDayCancellation)
              && (r.Ok? ==> && r.value.nextId == store.nextId && r.value.clock == store.clock
                            && CanceledAndPromoted(store.rows, t, r.value.rows))
    ensures r.Ok? && Valid(store) ==> Valid(r.value)
  {
    match Repo.IndexOfId(store.rows, id)
    case None => Err(ReservationNotFound)
    case Some(t) =>
      var target := store.rows[t];
      if target.date == today then Err(SameDayCancellation)
      else
        var canceled := target.(status := Cancel);
        var rows := UpdateFirstWaitingReservation(store.rows[t := canceled], canceled);
        StatusChangesKeepValid(store, store.rows[t := canceled], rows);
        Ok(store.(rows := rows))
  }

  /** Records that differ only in status, position by position. */
  ghost predicate SameUpToStatus(rows: seq<Reservation>, after: seq<Reservation>) {
    |after| == |rows| && forall i :: 0 <= i < |rows| ==> after[i] == rows[i].(status := after[i].status)
  }

  /** Status updates keep ids, creation times and counters, hence validity. */
  lemma StatusChangesKeepValid(store: Store, mid: seq<Reservation>, after: seq<Reservation>)
    requires SameUpToStatus(store.rows, mid)
    requires |after| == |mid| && forall q :: 0 <= q < |mid| && after[q] != mid[q] ==> after[q] == mid[q].(status := Success)
    ensures Valid(store) ==> Valid(store.(rows := after))
  {
    assert SameUpToStatus(store.rows, after) by {
      forall i | 0 <= i < |store.rows|
        ensures after[i] == store.rows[i].(status := after[i].status)
      {
        assert mid[i] == store.rows[i].(status := mid[i].status);
      }
    }
  }
}
