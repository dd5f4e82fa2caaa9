/** The reservation book (`ReservationService`): reservations of restaurant
    tables over half-open time intervals, with at most one active booking of
    a table at any minute. Times are whole minutes. */
module Reservations {
  import opened Common
  import opened Queries

  datatype Status = Pending | Confirmed | Cancelled | Completed

  datatype Reservation = Reservation(
    id: int, tableId: int, userId: int, timeStart: int, timeEnd: int, status: Status)

  function ReservationKey(r: Reservation): int { r.id }

  /** Cancelled and completed reservations no longer hold their table. */
  predicate IsActive(r: Reservation) {
    r.status != Cancelled && r.status != Completed
  }

  predicate WellFormed(r: Reservation) {
    r.timeStart < r.timeEnd
  }

  /** The row test of `CheckForOverlapAsync`: `r` is an active reservation of
      `tableId`, other than the excluded one, whose interval meets
      [start, end). */
  predicate Conflicts(r: Reservation, tableId: int, start: int, end: int, exclude: Option<int>) {
    && r.tableId == tableId
    && IsActive(r)
    && (exclude.None? || r.id != exclude.value)
    && r.timeStart < end
    && r.timeEnd > start
  }

  /** `CheckForOverlapAsync`: some stored row conflicts. */
  predicate HasOverlap(rs: seq<Reservation>, tableId: int, start: int, end: int, exclude: Option<int>) {
    exists i :: 0 <= i < |rs| && Conflicts(rs[i], tableId, start, end, exclude)
  }

  /** Minute `m` lies in [a, b). */
  predicate InInterval(m: int, a: int, b: int) {
    a <= m < b
  }

  /** An independent reading of "the intervals overlap": they share a minute. */
  ghost predicate SharesMinute(a: int, b: int, c: int, d: int) {
    exists m :: InInterval(m, a, b) && InInterval(m, c, d)
  }

  /** The comparison used by the overlap check is exactly half-open interval
      intersection. */
  lemma OverlapIsSharedMinute(a: int, b: int, c: int, d: int)
    requires a < b && c < d
    ensures (a < d && b > c) <==> SharesMinute(a, b, c, d)
  {
    if a < d && b > c {
      var m := if a < c then c else a;
      assert InInterval(m, a, b) && InInterval(m, c, d);
    }
  }

  /** Touching intervals never conflict: a booking that ends when the new one
      starts, or starts when the new one ends, leaves it free. */
  lemma TouchingIsNoConflict(r: Reservation, tableId: int, start: int, end: int, exclude: Option<int>)
    requires r.timeEnd == start || r.timeStart == end
    ensures !Conflicts(r, tableId, start, end, exclude)
  {
  }

  /** Cancelled and completed reservations and reservations of other tables
      never conflict. */
  lemma InactiveOrOtherTableIsNoConflict(r: Reservation, tableId: int, start: int, end: int, exclude: Option<int>)
    requires !IsActive(r) || r.tableId != tableId
    ensures !Conflicts(r, tableId, start, end, exclude)
  {
  }

  /** Two distinct bookings hold the same table at a common minute. */
  predicate Clash(a: Reservation, b: Reservation) {
    && a.tableId == b.tableId
    && IsActive(a) && IsActive(b)
    && a.timeStart < b.timeEnd && b.timeStart < a.timeEnd
  }

  /** No two active reservations of one table overlap. */
  ghost predicate NoDoubleBooking(rs: seq<Reservation>) {
    forall i, j :: 0 <= i < |rs| && 0 <= j < |rs| && i != j ==> !Clash(rs[i], rs[j])
  }

  /** Adding a reservation the overlap check lets through keeps the book free
      of double bookings. */
  lemma {:induction false} AddKeepsNoDoubleBooking(rs: seq<Reservation>, r: Reservation)
    requires NoDoubleBooking(rs)
    requires !HasOverlap(rs, r.tableId, r.timeStart, r.timeEnd, None)
    ensures NoDoubleBooking(rs + [r])
  {
    var rs' := rs + [r];
    forall i, j | 0 <= i < |rs'| && 0 <= j < |rs'| && i != j
      ensures !Clash(rs'[i], rs'[j])
    {
      if i == |rs| {
        assert !Conflicts(rs[j], r.tableId, r.timeStart, r.timeEnd, None);
      } else if j == |rs| {
        assert !Conflicts(rs[i], r.tableId, r.timeStart, r.timeEnd, None);
      } else {
        assert rs'[i] == rs[i] && rs'[j] == rs[j];
      }
    }
  }

  /** Excluding a stored reservation's id from the scan is the same as
      scanning the book without that reservation. */
  lemma {:induction false} ExcludeIsRemove(rs: seq<Reservation>, k: nat, tableId: int, start: int, end: int)
    requires k < |rs| && KeysDistinct(rs, ReservationKey)
    ensures HasOverlap(rs, tableId, start, end, Some(rs[k].id))
        <==> HasOverlap(RemoveAt(rs, k), tableId, start, end, None)
  {
    var rest := RemoveAt(rs, k);
    if HasOverlap(rs, tableId, start, end, Some(rs[k].id)) {
      var i :| 0 <= i < |rs| && Conflicts(rs[i], tableId, start, end, Some(rs[k].id));
      assert i != k;
      var i' := if i < k then i else i - 1;
      assert rest[i'] == rs[i];
      assert Conflicts(rest[i'], tableId, start, end, None);
    }
    if HasOverlap(rest, tableId, start, end, None) {
      var i' :| 0 <= i' < |rest| && Conflicts(rest[i'], tableId, start, end, None);
      var i := if i' < k then i' else i' + 1;
      assert rest[i'] == rs[i];
      assert ReservationKey(rs[i]) != ReservationKey(rs[k]);
      assert Conflicts(rs[i], tableId, start, end, Some(rs[k].id));
    }
  }

  /** Re-saving an active stored reservation with its own table and times,
      whatever its status, is never refused by the overlap check. */
  lemma {:induction false} ResaveIsNoOverlap(rs: seq<Reservation>, k: nat)
    requires k < |rs| && KeysDistinct(rs, ReservationKey) && NoDoubleBooking(rs)
    requires IsActive(rs[k])
    ensures !HasOverlap(rs, rs[k].tableId, rs[k].timeStart, rs[k].timeEnd, Some(rs[k].id))
  {
    forall i | 0 <= i < |rs|
      ensures !Conflicts(rs[i], rs[k].tableId, rs[k].timeStart, rs[k].timeEnd, Some(rs[k].id))
    {
      if i != k {
        assert !Clash(rs[i], rs[k]);
      }
    }
  }

  /** Replacing a stored reservation with one the overlap check (excluding
      its own id) lets through keeps the book free of double bookings. */
  lemma {:induction false} UpdateKeepsNoDoubleBooking(rs: seq<Reservation>, k: nat, r: Reservation)
    requires k < |rs| && KeysDistinct(rs, ReservationKey) && NoDoubleBooking(rs)
    requires rs[k].id == r.id
    requires !HasOverlap(rs, r.tableId, r.timeStart, r.timeEnd, Some(r.id))
    ensures NoDoubleBooking(rs[k := r])
  {
    var rs' := rs[k := r];
    forall i, j | 0 <= i < |rs'| && 0 <= j < |rs'| && i != j
      ensures !Clash(rs'[i], rs'[j])
    {
      if i == k {
        assert ReservationKey(rs[j]) != ReservationKey(rs[k]);
        assert !Conflicts(rs[j], r.tableId, r.timeStart, r.timeEnd, Some(r.id));
      } else if j == k {
        assert ReservationKey(rs[i]) != ReservationKey(rs[k]);
        assert !Conflicts(rs[i], r.tableId, r.timeStart, r.timeEnd, Some(r.id));
      } else {
        assert rs'[i] == rs[i] && rs'[j] == rs[j];
      }
    }
  }

  /** Removing a reservation keeps the book free of double bookings. */
  lemma {:induction false} RemoveKeepsNoDoubleBooking(rs: seq<Reservation>, k: nat)
    requires k < |rs| && NoDoubleBooking(rs)
    ensures NoDoubleBooking(RemoveAt(rs, k))
  {
    var rest := RemoveAt(rs, k);
    forall i, j | 0 <= i < |rest| && 0 <= j < |rest| && i != j
      ensures !Clash(rest[i], rest[j])
    {
      var i0 := if i < k then i else i + 1;
      var j0 := if j < k then j else j + 1;
      assert rest[i] == rs[i0] && rest[j] == rs[j0];
    }
  }

  /** Later start first (`OrderByDescending(r => r.TimeStart)`). */
  predicate StartsNoEarlier(a: Reservation, b: Reservation) {
    a.timeStart >= b.timeStart
  }

  lemma StartsNoEarlierIsPreorder()
    ensures Total(StartsNoEarlier) && Transitive(StartsNoEarlier)
  {
  }

  function OwnedBy(userId: int): Reservation -> bool {
    (r: Reservation) => r.userId == userId
  }

  /** `GetReservationsAsync`: every reservation, newest start first. */
  function NewestFirst(rs: seq<Reservation>): (r: seq<Reservation>)
    ensures multiset(r) == multiset(rs)
    ensures SortedBy(r, StartsNoEarlier)
  {
    StartsNoEarlierIsPreorder();
    SortBy(rs, StartsNoEarlier)
  }

  /** `GetReservationsByUserAsync`: exactly the user's reservations, newest
      start first. */
  function ByUserNewestFirst(rs: seq<Reservation>, userId: int): (r: seq<Reservation>)
    ensures forall x :: multiset(r)[x] == if x.userId == userId then multiset(rs)[x] else 0
    ensures forall i :: 0 <= i < |r| ==> r[i].userId == userId
    ensures SortedBy(r, StartsNoEarlier)
  {
    StartsNoEarlierIsPreorder();
    FilterSorted(rs, OwnedBy(userId), StartsNoEarlier)
  }

  /** `GetReservationAsync`: the reservation with this id, if stored. */
  function Find(rs: seq<Reservation>, id: int): (r: Option<Reservation>)
    ensures r.Some? ==> r.value in rs && r.value.id == id
    ensures r.None? <==> forall i :: 0 <= i < |rs| ==> rs[i].id != id
  {
    match IndexOfKey(rs, ReservationKey, id)
    case None => None
    case Some(k) => Some(rs[k])
  }

  /** The reservation table. Ids are an identity column: positive, distinct
      and below `nextId`. */
  class ReservationBook {
    var reservations: seq<Reservation>
    var nextId: int

    ghost predicate Valid()
      reads this
    {
      && nextId > 0
      && (forall i :: 0 <= i < |reservations| ==> 0 < reservations[i].id < nextId)
      && (forall i :: 0 <= i < |reservations| ==> WellFormed(reservations[i]))
      && KeysDistinct(reservations, ReservationKey)
      && NoDoubleBooking(reservations)
    }

    constructor ()
      ensures Valid() && reservations == [] && nextId == 1
    {
      reservations := [];
      nextId := 1;
    }

    /** `AddReservationAsync`: refuses an interval that does not end after it
        starts, or that an active reservation of the table overlaps;
        otherwise stores the reservation under a fresh id. */
    method AddReservation(r: Reservation) returns (ok: bool)
      requires Valid()
      modifies this
      ensures Valid()
      ensures ok <==> r.timeEnd > r.timeStart && !HasOverlap(old(reservations), r.tableId, r.timeStart, r.timeEnd, None)
      ensures ok ==> reservations == old(reservations) + [r.(id := old(nextId))] && nextId == old(nextId) + 1
      ensures !ok ==> reservations == old(reservations) && nextId == old(nextId)
    {
      if r.timeEnd <= r.timeStart {
        return false;
      }
      if HasOverlap(reservations, r.tableId, r.timeStart, r.timeEnd, None) {
        return false;
      }
      var stored := r.(id := nextId);
      AddKeepsNoDoubleBooking(reservations, stored);
      reservations := reservations + [stored];
      nextId := nextId + 1;
      ok := true;
    }

    /** `UpdateReservationAsync`: refuses a bad interval, an unknown id, or an
        overlap with another active reservation of the table; otherwise the
        stored row takes every value of `r`. The save reports success only
        when some value actually changed. */
    method UpdateReservation(r: Reservation) returns (ok: bool)
      requires Valid()
      modifies this
      ensures Valid() && nextId == old(nextId)
      ensures var k := IndexOfKey(old(reservations), ReservationKey, r.id);
              if r.timeEnd > r.timeStart && k.Some? &&
                 !HasOverlap(old(reservations), r.tableId, r.timeStart, r.timeEnd, Some(r.id))
              then reservations == old(reservations)[k.value := r] && ok == (old(reservations)[k.value] != r)
              else reservations == old(reservations) && !ok
    {
      if r.timeEnd <= r.timeStart {
        return false;
      }
      var found := IndexOfKey(reservations, ReservationKey, r.id);
      if found.None? {
        return false;
      }
      var k := found.value;
      if HasOverlap(reservations, r.tableId, r.timeStart, r.timeEnd, Some(r.id)) {
        return false;
      }
      UpdateKeepsNoDoubleBooking(reservations, k, r);
      ok := reservations[k] != r;
      reservations := reservations[k := r];
    }

    /** `DeleteReservationAsync`: removes the reservation with this id, or
        reports that there is none. */
    method DeleteReservation(id: int) returns (ok: bool)
      requires Valid()
      modifies this
      ensures Valid() && nextId == old(nextId)
      ensures ok <==> Find(old(reservations), id).Some?
      ensures match IndexOfKey(old(reservations), ReservationKey, id)
              case None => reservations == old(reservations)
              case Some(k) => reservations == RemoveAt(old(reservations), k)
    {
      var found := IndexOfKey(reservations, ReservationKey, id);
      if found.None? {
        return false;
      }
      var k := found.value;
      RemoveKeepsNoDoubleBooking(reservations, k);
      KeysDistinctAfterRemove(reservations, ReservationKey, k);
      reservations := RemoveAt(reservations, k);
      ok := true;
    }
  }

  /** Table 1 holds [10:00, 11:00) confirmed: [10:30, 11:30) is refused and
      [11:00, 12:00) is accepted. */
  lemma TouchingScenario()
    ensures var book := [Reservation(1, 1, 7, 600, 660, Confirmed)];
            HasOverlap(book, 1, 630, 690, None) && !HasOverlap(book, 1, 660, 720, None)
  {
    var book := [Reservation(1, 1, 7, 600, 660, Confirmed)];
    assert Conflicts(book[0], 1, 630, 690, None);
  }
}
