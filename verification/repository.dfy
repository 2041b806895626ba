/**
 * The derived queries of the reservation repository, each read as a pure
 * filter or existence test over the reservation table.
 */
module ReservationRepository {
  import opened Wrappers
  import opened Reservations
  import opened Seqs

  /** Position of the first record with this id, from position k on. */
  function IndexOfIdFrom(rows: seq<Reservation>, id: ReservationId, k: nat): (r: Option<nat>)
    requires k <= |rows|
    ensures r.Some? ==> k <= r.value < |rows| && rows[r.value].id == id
    ensures r.Some? ==> forall j :: k <= j < r.value ==> rows[j].id != id
    ensures r.None? ==> forall j :: k <= j < |rows| ==> rows[j].id != id
    decreases |rows| - k
  {
    if k == |rows| then None
    else if rows[k].id == id then Some(k)
    else IndexOfIdFrom(rows, id, k + 1)
  }

  /** Position of the record findById returns. */
  function IndexOfId(rows: seq<Reservation>, id: ReservationId): (r: Option<nat>)
    ensures r.Some? ==> r.value < |rows| && rows[r.value].id == id
    ensures r.Some? ==> forall j :: 0 <= j < r.value ==> rows[j].id != id
    ensures r.None? <==> forall j :: 0 <= j < |rows| ==> rows[j].id != id
  {
    IndexOfIdFrom(rows, id, 0)
  }

  /** findById: the record with the given id, if there is one. */
  function FindById(rows: seq<Reservation>, id: ReservationId): (r: Option<Reservation>)
    ensures r.Some? <==> exists i :: 0 <= i < |rows| && rows[i].id == id
    ensures r.Some? ==> r.value in rows && r.value.id == id
  {
    match IndexOfId(rows, id)
    case None => None
    case Some(i) => Some(rows[i])
  }

  /**
   * findTimeIdsByDateAndThemeId: the time id of every reservation on that date
   * and theme, one per reservation, whatever its status.
   */
  function FindTimeIdsByDateAndThemeId(rows: seq<Reservation>, date: Date, themeId: ThemeId): (r: seq<TimeId>)
    ensures |r| <= |rows|
    ensures forall t :: t in r <==>
      exists i :: 0 <= i < |rows| && rows[i].date == date && rows[i].themeId == themeId && rows[i].time.id == t
  {
    if |rows| == 0 then []
    else
      var rest := FindTimeIdsByDateAndThemeId(rows[1..], date, themeId);
      assert forall i :: 1 <= i < |rows| ==> rows[i] == rows[1..][i - 1];
      if rows[0].date == date && rows[0].themeId == themeId then [rows[0].time.id] + rest else rest
  }

  function OfMember(memberId: MemberId): Reservation -> bool {
    (x: Reservation) => x.memberId == memberId
  }

  function OfStatus(status: Status): Reservation -> bool {
    (x: Reservation) => x.status == status
  }

  function OfThemeMemberBetween(themeId: ThemeId, memberId: MemberId, dateFrom: Date, dateTo: Date): Reservation -> bool {
    (x: Reservation) => x.themeId == themeId && x.memberId == memberId && dateFrom <= x.date <= dateTo
  }

  function AtDateTimeWithStatus(date: Date, startAt: Time, status: Status): Reservation -> bool {
    (x: Reservation) => x.date == date && x.StartAt() == startAt && x.status == status
  }

  /** findAllByMemberId: exactly that member's reservations, every one of them. */
  function FindAllByMemberId(rows: seq<Reservation>, memberId: MemberId): (r: seq<Reservation>)
    ensures forall x :: multiset(r)[x] == if x.memberId == memberId then multiset(rows)[x] else 0
  {
    FilterCount(rows, OfMember(memberId));
    Filter(rows, OfMember(memberId))
  }

  /** findAllByThemeIdAndMemberIdAndDateBetween: both ends of the date range are inclusive. */
  function FindAllByThemeIdAndMemberIdAndDateBetween(
    rows: seq<Reservation>, themeId: ThemeId, memberId: MemberId, dateFrom: Date, dateTo: Date): (r: seq<Reservation>)
    ensures forall x :: multiset(r)[x] ==
                        if x.themeId == themeId && x.memberId == memberId && dateFrom <= x.date <= dateTo then multiset(rows)[x] else 0
  {
    FilterCount(rows, OfThemeMemberBetween(themeId, memberId, dateFrom, dateTo));
    Filter(rows, OfThemeMemberBetween(themeId, memberId, dateFrom, dateTo))
  }

  /** findAllByStatus: exactly the reservations in that status. */
  function FindAllByStatus(rows: seq<Reservation>, status: Status): (r: seq<Reservation>)
    ensures forall x :: multiset(r)[x] == if x.status == status then multiset(rows)[x] else 0
  {
    FilterCount(rows, OfStatus(status));
    Filter(rows, OfStatus(status))
  }

  /** existsByDateAndReservationTimeStartAtAndStatus: theme and member play no part. */
  predicate ExistsByDateAndReservationTimeStartAtAndStatus(
    rows: seq<Reservation>, date: Date, startAt: Time, status: Status): (b: bool)
    ensures b <==> exists i :: 0 <= i < |rows| && rows[i].date == date && rows[i].StartAt() == startAt && rows[i].status == status
  {
    var p := AtDateTimeWithStatus(date, startAt, status);
    FilterMembers(rows, p);
    var found := Filter(rows, p);
    assert forall i :: 0 <= i < |rows| && p(rows[i]) ==> rows[i] in found;
    assert |found| > 0 ==> found[0] in rows && p(found[0]);
    |found| > 0
  }

  /** existsByMemberIdAndDateAndReservationTimeStartAtAndStatus: the same test restricted to one member. */
  predicate ExistsByMemberIdAndDateAndReservationTimeStartAtAndStatus(
    rows: seq<Reservation>, memberId: MemberId, date: Date, startAt: Time, status: Status): (b: bool)
    ensures b <==> exists i :: 0 <= i < |rows| && rows[i].memberId == memberId && rows[i].date == date
                              && rows[i].StartAt() == startAt && rows[i].status == status
  {
    ExistsByDateAndReservationTimeStartAtAndStatus(FindAllByMemberId(rows, memberId), date, startAt, status)
  }

  /** save: appends the draft with the next id and the current clock, then advances both counters. */
  function Save(store: Store, d: Draft): (r: (Store, Reservation))
    ensures r.0.rows == store.rows + [r.1]
    ensures r.1.memberId == d.memberId && r.1.date == d.date && r.1.time == d.time
      && r.1.themeId == d.themeId && r.1.status == d.status
    ensures Valid(store) ==> Valid(r.0) && forall x :: x in store.rows ==> x.id != r.1.id
  {
    var saved := Reservation(store.nextId, d.memberId, d.date, d.time, d.themeId, d.status, store.clock);
    (Store(store.rows + [saved], store.nextId + 1, store.clock + 1), saved)
  }

  /** deleteById: removes the record with that id; a missing id removes nothing. */
  function DeleteById(store: Store, id: ReservationId): (r: Store)
    ensures forall x :: multiset(r.rows)[x] == if x.id == id then 0 else multiset(store.rows)[x]
  {
    FilterCount(store.rows, NotId(id));
    store.(rows := Filter(store.rows, NotId(id)))
  }

  function NotId(id: ReservationId): Reservation -> bool {
    (x: Reservation) => x.id != id
  }

  /** Deleting keeps the table's ids and creation times increasing and below the counters. */
  lemma DeleteKeepsValid(store: Store, id: ReservationId)
    requires Valid(store)
    ensures Valid(DeleteById(store, id))
  {
    var r := DeleteById(store, id).rows;
    IdsIncreasing(store.rows);
    FilterKeepsIncreasing(store.rows, NotId(id), Id);
    IdsIncreasing(r);
    CreationIncreasing(store.rows);
    FilterKeepsIncreasing(store.rows, NotId(id), CreatedAt);
    CreationIncreasing(r);
    DeleteKeepsBounds(store, id);
  }

  /** Every record left after a delete was in the table, so it stays below the counters. */
  lemma DeleteKeepsBounds(store: Store, id: ReservationId)
    requires forall i :: 0 <= i < |store.rows| ==> store.rows[i].id < store.nextId && store.rows[i].createdAt < store.clock
    ensures var r := DeleteById(store, id).rows;
            forall i :: 0 <= i < |r| ==> r[i].id < store.nextId && r[i].createdAt < store.clock
  {
    var r := DeleteById(store, id).rows;
    FilterMembers(store.rows, NotId(id));
    forall i | 0 <= i < |r|
      ensures r[i].id < store.nextId && r[i].createdAt < store.clock
    {
      assert r[i] in r;
      var j :| 0 <= j < |store.rows| && store.rows[j] == r[i];
    }
  }

  lemma IdsIncreasing(rows: seq<Reservation>)
    ensures IncreasingBy(rows, Id) <==> forall i, j :: 0 <= i < j < |rows| ==> rows[i].id < rows[j].id
  {
  }

  lemma CreationIncreasing(rows: seq<Reservation>)
    ensures IncreasingBy(rows, CreatedAt) <==> forall i, j :: 0 <= i < j < |rows| ==> rows[i].createdAt < rows[j].createdAt
  {
  }
}
