/**
 * The two comparators the service sorts with, (date, startAt) and
 * (date, startAt, createdAt), and a stable sort by either of them.
 */
module Ordering {
  import opened Reservations
  import opened Seqs

  datatype Order = ByDateTime | ByDateTimeCreatedAt

  datatype SortKey = SortKey(date: Date, startAt: Time, createdAt: Timestamp)

  /** The comparator's key; the two-key order compares createdAt as equal. */
  function Key(o: Order, r: Reservation): SortKey {
    SortKey(r.date, r.StartAt(), if o == ByDateTimeCreatedAt then r.createdAt else 0)
  }

  /** Lexicographic order on keys. */
  predicate KeyLe(a: SortKey, b: SortKey) {
    || a.date < b.date
    || (a.date == b.date && a.startAt < b.startAt)
    || (a.date == b.date && a.startAt == b.startAt && a.createdAt <= b.createdAt)
  }

  predicate Le(o: Order, a: Reservation, b: Reservation) {
    KeyLe(Key(o, a), Key(o, b))
  }

  ghost predicate Sorted(o: Order, s: seq<Reservation>) {
    forall i, j :: 0 <= i < j < |s| ==> Le(o, s[i], s[j])
  }

  /** The comparator is a total preorder, as Java's Comparator contract demands. */
  lemma LeIsTotalPreorder(o: Order, a: Reservation, b: Reservation, c: Reservation)
    ensures Le(o, a, a)
    ensures Le(o, a, b) || Le(o, b, a)
    ensures Le(o, a, b) && Le(o, b, c) ==> Le(o, a, c)
    ensures Le(o, a, b) && Le(o, b, a) <==> Key(o, a) == Key(o, b)
  {
  }

  /** Inserts `x` after the last element not greater than it. */
  function Insert(o: Order, t: seq<Reservation>, x: Reservation): (r: seq<Reservation>)
    ensures multiset(r) == multiset(t) + multiset{x}
    ensures |r| == |t| + 1
    decreases |t|
  {
    if |t| == 0 || Le(o, t[|t| - 1], x) then
      t + [x]
    else
      var last := t[|t| - 1];
      var front := t[..|t| - 1];
      assert t == front + [last];
      Insert(o, front, x) + [last]
  }

  /** Insertion into a sorted sequence keeps it sorted. */
  lemma {:induction false} InsertSorted(o: Order, t: seq<Reservation>, x: Reservation)
    requires Sorted(o, t)
    ensures Sorted(o, Insert(o, t, x))
    decreases |t|
  {
    if |t| == 0 || Le(o, t[|t| - 1], x) {
      AppendKeepsSorted(o, t, x);
    } else {
      var last := t[|t| - 1];
      var front := t[..|t| - 1];
      assert t == front + [last];
      InsertSorted(o, front, x);
      assert forall i :: 0 <= i < |front| ==> Le(o, front[i], last) by {
        assert forall i :: 0 <= i < |front| ==> front[i] == t[i];
      }
      InsertBelow(o, front, x, last);
      AppendKeepsSorted(o, Insert(o, front, x), last);
    }
  }

  /** An upper bound of `t` and of `x` bounds every element of the insertion. */
  lemma InsertBelow(o: Order, t: seq<Reservation>, x: Reservation, y: Reservation)
    requires forall i :: 0 <= i < |t| ==> Le(o, t[i], y)
    requires Le(o, x, y)
    ensures forall i :: 0 <= i < |Insert(o, t, x)| ==> Le(o, Insert(o, t, x)[i], y)
  {
    var ins := Insert(o, t, x);
    forall i | 0 <= i < |ins|
      ensures Le(o, ins[i], y)
    {
      assert ins[i] in multiset(ins);
      if ins[i] != x {
        assert ins[i] in multiset(t);
        var j :| 0 <= j < |t| && t[j] == ins[i];
      }
    }
  }

  /** Appending an element no smaller than every element keeps a sequence sorted. */
  lemma AppendKeepsSorted(o: Order, t: seq<Reservation>, x: Reservation)
    requires Sorted(o, t)
    requires forall i :: 0 <= i < |t| ==> Le(o, t[i], x)
    ensures Sorted(o, t + [x])
  {
    var r := t + [x];
    forall i, j | 0 <= i < j < |r|
      ensures Le(o, r[i], r[j])
    {
      if j < |t| {
        assert r[i] == t[i] && r[j] == t[j];
      }
    }
  }

  /** Insertion sort, stable like Java's List.sort and Stream.sorted. */
  function SortBy(o: Order, s: seq<Reservation>): (r: seq<Reservation>)
    ensures multiset(r) == multiset(s)
    ensures |r| == |s|
  {
    if |s| == 0 then
      []
    else
      assert s == s[..|s| - 1] + [s[|s| - 1]];
      Insert(o, SortBy(o, s[..|s| - 1]), s[|s| - 1])
  }

  /** The sort's output is ordered by the comparator. */
  lemma {:induction false} SortBySorted(o: Order, s: seq<Reservation>)
    ensures Sorted(o, SortBy(o, s))
    decreases |s|
  {
    if |s| > 0 {
      SortBySorted(o, s[..|s| - 1]);
      InsertSorted(o, SortBy(o, s[..|s| - 1]), s[|s| - 1]);
    }
  }

  /** The selector of the elements whose key is `k`. */
  function HasKey(o: Order, k: SortKey): Reservation -> bool {
    (y: Reservation) => Key(o, y) == k
  }

  /** Inserting `x` adds it to the elements of its own key after all of them, and to no other key. */
  lemma {:induction false} InsertStable(o: Order, t: seq<Reservation>, x: Reservation, k: SortKey)
    ensures var p := HasKey(o, k);
            Filter(Insert(o, t, x), p) == if p(x) then Filter(t, p) + [x] else Filter(t, p)
    decreases |t|
  {
    var p := HasKey(o, k);
    if |t| == 0 || Le(o, t[|t| - 1], x) {
      assert Insert(o, t, x) == t + [x];
      FilterSnoc(t, x, p);
    } else {
      var last := t[|t| - 1];
      var front := t[..|t| - 1];
      var ins := Insert(o, front, x);
      assert Insert(o, t, x) == ins + [last];
      InsertStable(o, front, x, k);
      FilterSnoc(ins, last, p);
      FilterLast(t, p);
      // `last` sorts strictly after `x`, so at most one of them has key k.
      assert !(p(x) && p(last));
    }
  }

  /**
   * Stability: for every key, the elements carrying that key leave the sort in
   * the order they entered it. With sortedness this fixes the output exactly.
   */
  lemma {:induction false} SortByStable(o: Order, s: seq<Reservation>, k: SortKey)
    ensures Filter(SortBy(o, s), HasKey(o, k)) == Filter(s, HasKey(o, k))
    decreases |s|
  {
    if |s| > 0 {
      var front := s[..|s| - 1];
      var last := s[|s| - 1];
      var p := HasKey(o, k);
      var sorted := SortBy(o, front);
      calc {
        Filter(SortBy(o, s), p);
        { assert SortBy(o, s) == Insert(o, sorted, last); }
        Filter(Insert(o, sorted, last), p);
        { InsertStable(o, sorted, last, k); SortByStable(o, front, k); }
        if p(last) then Filter(front, p) + [last] else Filter(front, p);
        { FilterLast(s, p); }
        Filter(s, p);
      }
    }
  }
}
