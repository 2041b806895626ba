/**
 * The waitlist ranker: a view over WAIT reservations, kept in the order it is
 * given, that tells a member their waiting number and finds the reservation to
 * promote when a slot is released.
 */
module Waitings {
  import opened Wrappers
  import opened Reservations
  import opened Ordering

  /** How many entries of `s` share `x`'s date and start time. */
  function CountSameDateTime(s: seq<Reservation>, x: Reservation): (n: nat)
    ensures n <= |s|
  {
    if |s| == 0 then 0
    else CountSameDateTime(s[..|s| - 1], x) + (if SameDateTime(s[|s| - 1], x) then 1 else 0)
  }

  /** Waiting number of the entry at position `i`: one more than the entries before it at its date and time. */
  function RankAt(ws: seq<Reservation>, i: nat): (r: nat)
    requires i < |ws|
    ensures 1 <= r <= i + 1
  {
    1 + CountSameDateTime(ws[..i], ws[i])
  }

  /** The entry at `j` belongs to the member and sits at the target's date and time. */
  predicate IsMemberEntry(ws: seq<Reservation>, target: Reservation, memberId: MemberId, j: nat)
    requires j < |ws|
  {
    ws[j].memberId == memberId && SameDateTime(ws[j], target)
  }

  /** Position of the member's first entry at the target's date and time, from position k on. */
  function MemberHeadFrom(ws: seq<Reservation>, target: Reservation, memberId: MemberId, k: nat): (r: Option<nat>)
    requires k <= |ws|
    ensures r.Some? ==> k <= r.value < |ws| && IsMemberEntry(ws, target, memberId, r.value)
    ensures r.Some? ==> forall j :: k <= j < r.value ==> !IsMemberEntry(ws, target, memberId, j)
    ensures r.None? ==> forall j :: k <= j < |ws| ==> !IsMemberEntry(ws, target, memberId, j)
    decreases |ws| - k
  {
    if k == |ws| then None
    else if IsMemberEntry(ws, target, memberId, k) then Some(k)
    else MemberHeadFrom(ws, target, memberId, k + 1)
  }

  /**
   * findMemberRank: the waiting number of the member's earliest entry at the
   * target's date and time, so a member is never ranked twice for one slot.
   * Absent when the member has no entry there.
   */
  function FindMemberRank(ws: seq<Reservation>, target: Reservation, memberId: MemberId): (r: Option<nat>)
    ensures r.Some? <==> exists j :: 0 <= j < |ws| && IsMemberEntry(ws, target, memberId, j)
    ensures r.Some? ==> exists j :: 0 <= j < |ws| && IsMemberEntry(ws, target, memberId, j)
                                    && (forall i :: 0 <= i < j ==> !IsMemberEntry(ws, target, memberId, i))
                                    && r.value == RankAt(ws, j)
  {
    match MemberHeadFrom(ws, target, memberId, 0)
    case None => None
    case Some(j) => Some(RankAt(ws, j))
  }

  /** Position of the first entry in the cancelled reservation's slot, from position k on. */
  function FirstInSlotFrom(ws: seq<Reservation>, canceled: Reservation, k: nat): (r: Option<nat>)
    requires k <= |ws|
    ensures r.Some? ==> k <= r.value < |ws| && SameSlot(ws[r.value], canceled)
    ensures r.Some? ==> forall j :: k <= j < r.value ==> !SameSlot(ws[j], canceled)
    ensures r.None? ==> forall j :: k <= j < |ws| ==> !SameSlot(ws[j], canceled)
    decreases |ws| - k
  {
    if k == |ws| then None
    else if SameSlot(ws[k], canceled) then Some(k)
    else FirstInSlotFrom(ws, canceled, k + 1)
  }

  /**
   * findFirstWaitingReservationByCanceledReservation: the first entry sharing
   * the cancelled reservation's date, start time and theme. The cancelled
   * reservation is only a lookup key; it need not be in the list.
   */
  function FindFirstWaitingReservationByCanceledReservation(ws: seq<Reservation>, canceled: Reservation): (r: Option<Reservation>)
    ensures r.None? <==> forall j :: 0 <= j < |ws| ==> !SameSlot(ws[j], canceled)
    ensures r.Some? ==> exists i :: 0 <= i < |ws| && ws[i] == r.value && SameSlot(ws[i], canceled)
                                    && forall j :: 0 <= j < i ==> !SameSlot(ws[j], canceled)
  {
    match FirstInSlotFrom(ws, canceled, 0)
    case None => None
    case Some(i) => Some(ws[i])
  }

  /** Counting over a concatenation adds the counts of its parts. */
  lemma {:induction false} CountConcat(a: seq<Reservation>, b: seq<Reservation>, x: Reservation)
    ensures CountSameDateTime(a + b, x) == CountSameDateTime(a, x) + CountSameDateTime(b, x)
    decreases |b|
  {
    if |b| > 0 {
      var b' := b[..|b| - 1];
      assert (a + b)[..|a + b| - 1] == a + b';
      CountConcat(a, b', x);
    } else {
      assert a + b == a;
    }
  }

  /** Only the date and start time of `x` matter to the count. */
  lemma {:induction false} CountSameKey(s: seq<Reservation>, x: Reservation, y: Reservation)
    requires SameDateTime(x, y)
    ensures CountSameDateTime(s, x) == CountSameDateTime(s, y)
    decreases |s|
  {
    if |s| > 0 {
      CountSameKey(s[..|s| - 1], x, y);
    }
  }

  /** The count is zero exactly when no entry shares the date and start time. */
  lemma {:induction false} CountZero(s: seq<Reservation>, x: Reservation)
    ensures CountSameDateTime(s, x) == 0 <==> forall j :: 0 <= j < |s| ==> !SameDateTime(s[j], x)
    decreases |s|
  {
    if |s| > 0 {
      var s' := s[..|s| - 1];
      CountZero(s', x);
      assert forall j :: 0 <= j < |s'| ==> s'[j] == s[j];
    }
  }

  /** The earliest entry at a date and time has waiting number 1, and only it. */
  lemma RankOneIffFirstAtDateTime(ws: seq<Reservation>, i: nat)
    requires i < |ws|
    ensures RankAt(ws, i) == 1 <==> forall j :: 0 <= j < i ==> !SameDateTime(ws[j], ws[i])
  {
    CountZero(ws[..i], ws[i]);
    assert forall j :: 0 <= j < i ==> ws[..i][j] == ws[j];
  }

  /** Within one date and time, waiting numbers strictly increase along the list. */
  lemma RankIncreasesAlongList(ws: seq<Reservation>, i: nat, j: nat)
    requires i < j < |ws|
    requires SameDateTime(ws[i], ws[j])
    ensures RankAt(ws, i) < RankAt(ws, j)
  {
    assert ws[..j] == ws[..i] + ([ws[i]] + ws[i + 1..j]);
    CountConcat(ws[..i], [ws[i]] + ws[i + 1..j], ws[j]);
    CountConcat([ws[i]], ws[i + 1..j], ws[j]);
    assert [ws[i]][..0] == [];
    CountSameKey(ws[..i], ws[i], ws[j]);
  }

  /**
   * An entry at another date or start time, inserted anywhere, leaves every
   * waiting number unchanged (the entry ranked keeps its number at its new position).
   */
  lemma RankIgnoresOtherDateTimes(ws: seq<Reservation>, i: nat, k: nat, x: Reservation)
    requires i < |ws| && k <= |ws|
    requires !SameDateTime(x, ws[i])
    ensures var ws' := ws[..k] + [x] + ws[k..];
            (k <= i ==> RankAt(ws', i + 1) == RankAt(ws, i)) && (i < k ==> RankAt(ws', i) == RankAt(ws, i))
  {
    var ws' := ws[..k] + [x] + ws[k..];
    if k <= i {
      assert ws'[i + 1] == ws[i];
      assert ws'[..i + 1] == ws[..k] + [x] + ws[k..i];
      assert ws[..i] == ws[..k] + ws[k..i];
      CountConcat(ws[..k] + [x], ws[k..i], ws[i]);
      CountConcat(ws[..k], [x], ws[i]);
      CountConcat(ws[..k], ws[k..i], ws[i]);
      assert [x][..0] == [];
    } else {
      assert ws'[i] == ws[i];
      assert ws'[..i] == ws[..i];
    }
  }

  /**
   * On the service's list, sorted by (date, startAt, createdAt), a reservation
   * created earlier at the same date and time has the smaller waiting number.
   */
  lemma RankFollowsCreation(ws: seq<Reservation>, i: nat, j: nat)
    requires Sorted(ByDateTimeCreatedAt, ws)
    requires i < |ws| && j < |ws|
    requires SameDateTime(ws[i], ws[j]) && ws[i].createdAt < ws[j].createdAt
    ensures RankAt(ws, i) < RankAt(ws, j)
  {
    assert i < j;
    RankIncreasesAlongList(ws, i, j);
  }

  /** findMemberRank reports the waiting number of the member's earliest entry at that date and time. */
  lemma FindMemberRankOfEarliestEntry(ws: seq<Reservation>, i: nat, memberId: MemberId)
    requires i < |ws| && ws[i].memberId == memberId
    requires forall j :: 0 <= j < i ==> !IsMemberEntry(ws, ws[i], memberId, j)
    ensures FindMemberRank(ws, ws[i], memberId) == Some(RankAt(ws, i))
  {
    assert IsMemberEntry(ws, ws[i], memberId, i);
    var j :| 0 <= j < |ws| && IsMemberEntry(ws, ws[i], memberId, j)
             && (forall i' :: 0 <= i' < j ==> !IsMemberEntry(ws, ws[i], memberId, i'))
             && FindMemberRank(ws, ws[i], memberId).value == RankAt(ws, j);
    assert j == i;
  }

  /**
   * On the service's sorted list, the reservation to promote was created no
   * later than any other entry in the slot.
   */
  lemma FirstWaitingIsEarliestCreated(ws: seq<Reservation>, canceled: Reservation)
    requires Sorted(ByDateTimeCreatedAt, ws)
    ensures match FindFirstWaitingReservationByCanceledReservation(ws, canceled)
            case None => true
            case Some(w) => forall j :: 0 <= j < |ws| && SameSlot(ws[j], canceled) ==> w.createdAt <= ws[j].createdAt
  {
    var r := FindFirstWaitingReservationByCanceledReservation(ws, canceled);
    if r.Some? {
      var i :| 0 <= i < |ws| && ws[i] == r.value && SameSlot(ws[i], canceled)
               && forall j :: 0 <= j < i ==> !SameSlot(ws[j], canceled);
      forall j | 0 <= j < |ws| && SameSlot(ws[j], canceled)
        ensures r.value.createdAt <= ws[j].createdAt
      {
        if i < j {
          assert Le(ByDateTimeCreatedAt, ws[i], ws[j]);
        }
      }
    }
  }
}
