/**
 * The reservation entity of the room-escape booker: who booked which theme at
 * which date and start time, in which status, and when the record was created.
 */
module Reservations {

  /** A calendar day, as a day number. */
  type Date = int
  /** A start time, as minutes after midnight. */
  type Time = int
  /** A creation instant; later saves get larger values. */
  type Timestamp = int

  type ReservationId = nat
  type MemberId = nat
  type ThemeId = nat
  type TimeId = nat

  /** SUCCESS holds the slot, WAIT is queued behind it, CANCEL has released it. */
  datatype Status = Success | Wait | Cancel

  /** A bookable start time as stored in the time catalog. */
  datatype ReservationTime = ReservationTime(id: TimeId, startAt: Time)

  /** A reservation before it is saved: the store assigns the id and the creation time. */
  datatype Draft = Draft(
    memberId: MemberId,
    date: Date,
    time: ReservationTime,
    themeId: ThemeId,
    status: Status)

  datatype Reservation = Reservation(
    id: ReservationId,
    memberId: MemberId,
    date: Date,
    time: ReservationTime,
    themeId: ThemeId,
    status: Status,
    createdAt: Timestamp)
  {
    function StartAt(): Time {
      time.startAt
    }
  }

  /** Same date and same start time, whatever the theme: the key of both duplicate checks and of ranking. */
  predicate SameDateTime(a: Reservation, b: Reservation) {
    a.date == b.date && a.StartAt() == b.StartAt()
  }

  /** Same date, start time and theme: the key of waitlist promotion. */
  predicate SameSlot(a: Reservation, b: Reservation) {
    SameDateTime(a, b) && a.themeId == b.themeId
  }

  /**
   * The reservation table together with the two counters the database keeps:
   * the next generated id and the clock that stamps createdAt.
   */
  datatype Store = Store(rows: seq<Reservation>, nextId: ReservationId, clock: Timestamp)

  function Id(r: Reservation): int {
    r.id
  }

  function CreatedAt(r: Reservation): int {
    r.createdAt
  }

  /**
   * What every reachable store satisfies: ids and creation times grow along the
   * table (so both are unique) and stay below the counters that issue them.
   */
  ghost predicate Valid(s: Store) {
    && (forall i, j :: 0 <= i < j < |s.rows| ==> s.rows[i].id < s.rows[j].id)
    && (forall i, j :: 0 <= i < j < |s.rows| ==> s.rows[i].createdAt < s.rows[j].createdAt)
    && (forall i :: 0 <= i < |s.rows| ==> s.rows[i].id < s.nextId && s.rows[i].createdAt < s.clock)
  }

  /** The uniqueness the booking path maintains: no two SUCCESS records share a date and start time. */
  ghost predicate AtMostOneSuccessPerDateTime(rows: seq<Reservation>) {
    forall i, j :: 0 <= i < j < |rows| && rows[i].status == Success && rows[j].status == Success ==>
      !SameDateTime(rows[i], rows[j])
  }
}
