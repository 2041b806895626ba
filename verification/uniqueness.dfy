/**
 * "At most one SUCCESS reservation per date and start time": which operations
 * keep it, and the cancellation path that does not.
 */
module SlotUniqueness {
  import opened Wrappers
  import opened Reservations
  import opened ReservationService
  import Repo = ReservationRepository
  import opened Seqs

  /** Booking as SUCCESS keeps the uniqueness: its duplicate check covers every theme. */
  lemma SaveSuccessKeepsUniqueness(catalog: Catalog, store: Store, request: SaveRequest, memberId: MemberId)
    requires AtMostOneSuccessPerDateTime(store.rows)
    ensures var r := SaveReservationSuccess(catalog, store, request, memberId);
            r.Ok? ==> AtMostOneSuccessPerDateTime(r.value.0.rows)
  {
    var r := SaveReservationSuccess(catalog, store, request, memberId);
    if r.Ok? {
      var after := r.value.0.rows;
      var n := |store.rows|;
      forall i, j | 0 <= i < j < |after| && after[i].status == Success && after[j].status == Success
        ensures !SameDateTime(after[i], after[j])
      {
        if j == n {
          assert after[i] == store.rows[i];
        } else {
          assert after[i] == store.rows[i] && after[j] == store.rows[j];
        }
      }
    }
  }

  /** Booking as WAIT adds no SUCCESS record, so it keeps the uniqueness too. */
  lemma SaveWaitingKeepsUniqueness(catalog: Catalog, store: Store, request: SaveRequest, memberId: MemberId)
    requires AtMostOneSuccessPerDateTime(store.rows)
    ensures var r := SaveReservationWaiting(catalog, store, request, memberId);
            r.Ok? ==> AtMostOneSuccessPerDateTime(r.value.0.rows)
  {
    var r := SaveReservationWaiting(catalog, store, request, memberId);
    if r.Ok? {
      var after := r.value.0.rows;
      forall i, j | 0 <= i < j < |after| && after[i].status == Success && after[j].status == Success
        ensures !SameDateTime(after[i], after[j])
      {
        assert after[i] == store.rows[i] && after[j] == store.rows[j];
      }
    }
  }

  /** Deleting removes records and reorders none, so it keeps the uniqueness. */
  lemma DeleteKeepsUniqueness(store: Store, id: ReservationId)
    requires AtMostOneSuccessPerDateTime(store.rows)
    ensures AtMostOneSuccessPerDateTime(Repo.DeleteById(store, id).rows)
  {
    var apart := (a: Reservation, b: Reservation) => !(a.status == Success && b.status == Success && SameDateTime(a, b));
    assert PairwiseBy(store.rows, apart);
    FilterKeepsPairwise(store.rows, Repo.NotId(id), apart);
    var r := Repo.DeleteById(store, id).rows;
    assert forall i, j :: 0 <= i < j < |r| ==> apart(r[i], r[j]);
  }

  /**
   * When the cancelled record was the SUCCESS holder of its date and start
   * time, promoting the first waiter of its slot keeps the uniqueness.
   */
  lemma PromotionAfterHolderLeavesKeepsUniqueness(rows: seq<Reservation>, t: nat, after: seq<Reservation>)
    requires t < |rows| && rows[t].status == Success
    requires AtMostOneSuccessPerDateTime(rows)
    requires CanceledAndPromoted(rows, t, after)
    ensures AtMostOneSuccessPerDateTime(after)
  {
    var canceled := rows[t].(status := Cancel);
    var mid := rows[t := canceled];
    forall i, j | 0 <= i < j < |after| && after[i].status == Success && after[j].status == Success
      ensures !SameDateTime(after[i], after[j])
    {
      assert i != t && j != t;
      if after[i] != mid[i] {
        assert after[j] == mid[j] == rows[j];
        assert SameSlot(mid[i], canceled);
      } else if after[j] != mid[j] {
        assert after[i] == rows[i];
        assert SameSlot(mid[j], canceled);
      } else {
        assert after[i] == rows[i] && after[j] == rows[j];
      }
    }
  }

  /** cancelById on the slot's SUCCESS holder keeps the uniqueness. */
  lemma CancelOfHolderKeepsUniqueness(store: Store, id: ReservationId, today: Date, t: nat)
    requires Repo.IndexOfId(store.rows, id) == Some(t) && store.rows[t].status == Success
    requires AtMostOneSuccessPerDateTime(store.rows)
    ensures var r := CancelById(store, id, today);
            r.Ok? ==> AtMostOneSuccessPerDateTime(r.value.rows)
  {
    var r := CancelById(store, id, today);
    if r.Ok? {
      PromotionAfterHolderLeavesKeepsUniqueness(store.rows, t, r.value.rows);
    }
  }

  /**
   * cancelById has no prior-status guard: cancelling a waiter while the slot's
   * holder stays SUCCESS promotes the next waiter beside the holder.
   */
  lemma CancelOfWaiterBreaksUniqueness(store: Store, id: ReservationId, today: Date, t: nat, h: nat, w: nat)
    requires Repo.IndexOfId(store.rows, id) == Some(t)
    requires store.rows[t].status == Wait && store.rows[t].date != today
    requires h < |store.rows| && store.rows[h].status == Success && SameDateTime(store.rows[h], store.rows[t])
    requires w < |store.rows| && w != t && store.rows[w].status == Wait && SameSlot(store.rows[w], store.rows[t])
    ensures CancelById(store, id, today).Ok?
    ensures !AtMostOneSuccessPerDateTime(CancelById(store, id, today).value.rows)
  {
    CancelSucceeds(store, id, today, t);
    PromotionBesideHolder(store.rows, t, h, w, CancelById(store, id, today).value.rows);
  }

  /**
   * The concrete case: member 1 holds 10:00 on day 5, members 2 and 3 wait for
   * it; member 2 withdraws through cancelById and member 3 is promoted beside member 1.
   */
  lemma WithdrawingWaiterPromotesBesideHolder()
    ensures var time := ReservationTime(1, 600);
            var store := Store([Reservation(1, 1, 5, time, 1, Success, 0),
                                Reservation(2, 2, 5, time, 1, Wait, 1),
                                Reservation(3, 3, 5, time, 1, Wait, 2)], 4, 3);
            && Valid(store)
            && AtMostOneSuccessPerDateTime(store.rows)
            && CancelById(store, 2, 0).Ok?
            && !AtMostOneSuccessPerDateTime(CancelById(store, 2, 0).value.rows)
  {
    var time := ReservationTime(1, 600);
    var store := Store([Reservation(1, 1, 5, time, 1, Success, 0),
                        Reservation(2, 2, 5, time, 1, Wait, 1),
                        Reservation(3, 3, 5, time, 1, Wait, 2)], 4, 3);
    assert Valid(store) && AtMostOneSuccessPerDateTime(store.rows);
    assert store.rows[1].id == 2;
    assert Repo.IndexOfId(store.rows, 2) == Some(1);
    CancelOfWaiterBreaksUniqueness(store, 2, 0, 1, 0, 2);
  }

  /** Promotion in a slot whose SUCCESS holder was not the cancelled record yields a second SUCCESS. */
  lemma PromotionBesideHolder(rows: seq<Reservation>, t: nat, h: nat, w: nat, after: seq<Reservation>)
    requires t < |rows| && rows[t].status != Success
    requires h < |rows| && rows[h].status == Success && SameDateTime(rows[h], rows[t])
    requires w < |rows| && w != t && rows[w].status == Wait && SameSlot(rows[w], rows[t])
    requires CanceledAndPromoted(rows, t, after)
    ensures !AtMostOneSuccessPerDateTime(after)
  {
    var canceled := rows[t].(status := Cancel);
    var mid := rows[t := canceled];
    assert IsWaiter(mid, canceled, w);
    assert after != mid;
    var q :| 0 <= q < |mid| && after[q] != mid[q];
    assert IsWaiter(mid, canceled, q) && after[q].status == Success;
    assert after[h] == mid[h] == rows[h];
    assert SameDateTime(after[h], after[q]);
    if h < q {
      assert after[h].status == Success && after[q].status == Success;
    } else {
      assert after[q].status == Success && after[h].status == Success;
    }
  }

  /** A known id dated another day is always cancelled, with the promotion cancelById specifies. */
  lemma CancelSucceeds(store: Store, id: ReservationId, today: Date, t: nat)
    requires Repo.IndexOfId(store.rows, id) == Some(t) && store.rows[t].date != today
    ensures CancelById(store, id, today).Ok?
    ensures CanceledAndPromoted(store.rows, t, CancelById(store, id, today).value.rows)
  {
  }

  /** When the slot has a single waiter, promotion turns exactly that waiter into SUCCESS. */
  lemma PromotesTheOnlyWaiter(before: seq<Reservation>, c: Reservation, after: seq<Reservation>, w: nat)
    requires Promoted(before, c, after)
    requires w < |before| && IsWaiter(before, c, w)
    requires forall q :: 0 <= q < |before| && q != w ==> !IsWaiter(before, c, q)
    ensures after == before[w := before[w].(status := Success)]
  {
    assert after != before;
    var q :| 0 <= q < |before| && after[q] != before[q];
    assert q == w;
    assert forall i :: 0 <= i < |before| && i != w ==> after[i] == before[i];
  }

  /**
   * The evidently intended cancellation: a CANCEL always releases the target,
   * but only a released SUCCESS hands the slot to the first waiter.
   */
  function CancelByIdGuarded(store: Store, id: ReservationId, today: Date): (r: Result<Store, Error>)
    ensures match Repo.IndexOfId(store.rows, id)
            case None => r == Err(ReservationNotFound)
            case Some(t) =>
              && (store.rows[t].date == today <==> r.Err?)
              && (r.Err? ==> r.error == SameDayCancellation)
              && (r.Ok? && store.rows[t].status == Success ==> CanceledAndPromoted(store.rows, t, r.value.rows))
              && (r.Ok? && store.rows[t].status != Success ==>
                    r.value.rows == store.rows[t := store.rows[t].(status := Cancel)])
  {
    match Repo.IndexOfId(store.rows, id)
    case None => Err(ReservationNotFound)
    case Some(t) =>
      var target := store.rows[t];
      if target.date == today then Err(SameDayCancellation)
      else if target.status == Success then CancelById(store, id, today)
      else Ok(store.(rows := store.rows[t := target.(status := Cancel)]))
  }

  /** The correction changes nothing for unknown ids, same-day requests or released SUCCESS bookings. */
  lemma GuardedAgreesOnBookings(store: Store, id: ReservationId, today: Date)
    ensures match Repo.IndexOfId(store.rows, id)
            case None => CancelByIdGuarded(store, id, today) == CancelById(store, id, today)
            case Some(t) =>
              (store.rows[t].status == Success || store.rows[t].date == today) ==>
                CancelByIdGuarded(store, id, today) == CancelById(store, id, today)
  {
  }

  /** The guarded cancellation keeps the uniqueness whatever it cancels. */
  lemma CancelByIdGuardedKeepsUniqueness(store: Store, id: ReservationId, today: Date)
    requires AtMostOneSuccessPerDateTime(store.rows)
    ensures var r := CancelByIdGuarded(store, id, today);
            r.Ok? ==> AtMostOneSuccessPerDateTime(r.value.rows)
  {
    var r := CancelByIdGuarded(store, id, today);
    if r.Ok? {
      var t := Repo.IndexOfId(store.rows, id).value;
      if store.rows[t].status == Success {
        PromotionAfterHolderLeavesKeepsUniqueness(store.rows, t, r.value.rows);
      } else {
        var after := r.value.rows;
        forall i, j | 0 <= i < j < |after| && after[i].status == Success && after[j].status == Success
          ensures !SameDateTime(after[i], after[j])
        {
          assert after[i] == store.rows[i] && after[j] == store.rows[j];
        }
      }
    }
  }
}
