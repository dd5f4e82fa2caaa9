/** The table registry (`TableService`): restaurant tables, whose numbers are
    unique ignoring case, and which cannot be deleted while they still hold
    an active booking that has not ended. */
module Tables {
  import opened Common
  import opened Text
  import opened Queries
  import opened Reservations

  datatype Table = Table(id: int, tableNumber: string, capacity: int)

  function TableKey(t: Table): int { t.id }

  /** The uniqueness query of `AddTableAsync` (no exclusion) and of
      `UpdateTableAsync` (excluding the table being edited). */
  predicate NumberTaken(ts: seq<Table>, number: string, exclude: Option<int>) {
    exists i :: 0 <= i < |ts| && Lower(ts[i].tableNumber) == Lower(number)
                              && (exclude.None? || ts[i].id != exclude.value)
  }

  /** Table numbers are pairwise distinct ignoring case. */
  ghost predicate NumbersDistinct(ts: seq<Table>) {
    forall i, j :: 0 <= i < |ts| && 0 <= j < |ts| && i != j ==>
      Lower(ts[i].tableNumber) != Lower(ts[j].tableNumber)
  }

  lemma {:induction false} AddKeepsNumbersDistinct(ts: seq<Table>, t: Table)
    requires NumbersDistinct(ts) && !NumberTaken(ts, t.tableNumber, None)
    ensures NumbersDistinct(ts + [t])
  {
    var ts' := ts + [t];
    forall i, j | 0 <= i < |ts'| && 0 <= j < |ts'| && i != j
      ensures Lower(ts'[i].tableNumber) != Lower(ts'[j].tableNumber)
    {
      if i < |ts| && j < |ts| {
        assert ts'[i] == ts[i] && ts'[j] == ts[j];
      }
    }
  }

  /** A table may keep its own number; it may not take another table's. */
  lemma {:induction false} UpdateKeepsNumbersDistinct(ts: seq<Table>, k: nat, t: Table)
    requires k < |ts| && KeysDistinct(ts, TableKey) && NumbersDistinct(ts)
    requires ts[k].id == t.id && !NumberTaken(ts, t.tableNumber, Some(t.id))
    ensures NumbersDistinct(ts[k := t])
  {
    var ts' := ts[k := t];
    forall i, j | 0 <= i < |ts'| && 0 <= j < |ts'| && i != j
      ensures Lower(ts'[i].tableNumber) != Lower(ts'[j].tableNumber)
    {
      if i == k {
        assert TableKey(ts[j]) != TableKey(ts[k]);
      } else if j == k {
        assert TableKey(ts[i]) != TableKey(ts[k]);
      }
    }
  }

  lemma RemoveKeepsNumbersDistinct(ts: seq<Table>, k: nat)
    requires k < |ts| && NumbersDistinct(ts)
    ensures NumbersDistinct(RemoveAt(ts, k))
  {
    var r := RemoveAt(ts, k);
    forall i, j | 0 <= i < |r| && 0 <= j < |r| && i != j
      ensures Lower(r[i].tableNumber) != Lower(r[j].tableNumber)
    {
      assert r[i] == ts[if i < k then i else i + 1];
      assert r[j] == ts[if j < k then j else j + 1];
    }
  }

  /** The active reservations of table `tableId` that have not ended at
      `now` (`DeleteTableAsync`'s guard). */
  predicate HasUpcomingReservation(rs: seq<Reservation>, tableId: int, now: int) {
    exists i :: 0 <= i < |rs| && rs[i].tableId == tableId && rs[i].timeEnd > now && IsActive(rs[i])
  }

  /** Past reservations and cancelled or completed ones never block a delete. */
  lemma PastOrInactiveNeverBlocks(rs: seq<Reservation>, tableId: int, now: int)
    requires forall i :: 0 <= i < |rs| && rs[i].tableId == tableId ==> rs[i].timeEnd <= now || !IsActive(rs[i])
    ensures !HasUpcomingReservation(rs, tableId, now)
  {
  }

  predicate TableExists(ts: seq<Table>, id: int) {
    exists j :: 0 <= j < |ts| && ts[j].id == id
  }

  /** Every active reservation that has not ended at `now` names a stored table. */
  ghost predicate UpcomingResolved(ts: seq<Table>, rs: seq<Reservation>, now: int) {
    forall i :: 0 <= i < |rs| && IsActive(rs[i]) && rs[i].timeEnd > now ==> TableExists(ts, rs[i].tableId)
  }

  /** A delete the guard permits never strands an upcoming reservation. */
  lemma {:induction false} DeleteKeepsUpcomingResolved(ts: seq<Table>, rs: seq<Reservation>, k: nat, now: int)
    requires k < |ts| && UpcomingResolved(ts, rs, now)
    requires !HasUpcomingReservation(rs, ts[k].id, now)
    ensures UpcomingResolved(RemoveAt(ts, k), rs, now)
  {
    var rest := RemoveAt(ts, k);
    forall i | 0 <= i < |rs| && IsActive(rs[i]) && rs[i].timeEnd > now
      ensures TableExists(rest, rs[i].tableId)
    {
      var j :| 0 <= j < |ts| && ts[j].id == rs[i].tableId;
      assert j != k;
      var j' := if j < k then j else j - 1;
      assert rest[j'] == ts[j];
    }
  }

  /** `OrderBy(t => t.TableNumber)`, ordinal. */
  predicate NumberOrder(a: Table, b: Table) {
    LexLe(a.tableNumber, b.tableNumber)
  }

  lemma NumberOrderIsPreorder()
    ensures Total(NumberOrder) && Transitive(NumberOrder)
  {
    forall a: Table, b: Table ensures NumberOrder(a, b) || NumberOrder(b, a) {
      LexLeTotal(a.tableNumber, b.tableNumber);
    }
    forall a: Table, b: Table, c: Table | NumberOrder(a, b) && NumberOrder(b, c)
      ensures NumberOrder(a, c)
    {
      LexLeTransitive(a.tableNumber, b.tableNumber, c.tableNumber);
    }
  }

  /** `GetTablesAsync`: every table, ordered by number. */
  function ByNumber(ts: seq<Table>): (r: seq<Table>)
    ensures multiset(r) == multiset(ts)
    ensures SortedBy(r, NumberOrder)
  {
    NumberOrderIsPreorder();
    SortBy(ts, NumberOrder)
  }

  /** `GetTableAsync`: the table with this id, if stored. */
  function Find(ts: seq<Table>, id: int): (r: Option<Table>)
    ensures r.Some? ==> r.value in ts && r.value.id == id
    ensures r.None? <==> !TableExists(ts, id)
  {
    match IndexOfKey(ts, TableKey, id)
    case None => None
    case Some(k) => Some(ts[k])
  }

  class TableRegistry {
    var tables: seq<Table>
    var nextId: int

    ghost predicate Valid()
      reads this
    {
      && nextId > 0
      && (forall i :: 0 <= i < |tables| ==> 0 < tables[i].id < nextId)
      && KeysDistinct(tables, TableKey)
      && NumbersDistinct(tables)
    }

    constructor ()
      ensures Valid() && tables == [] && nextId == 1
    {
      tables := [];
      nextId := 1;
    }

    /** `AddTableAsync`: refuses a number already used ignoring case;
        otherwise stores the table under a fresh id. */
    method AddTable(t: Table) returns (ok: bool)
      requires Valid()
      modifies this
      ensures Valid()
      ensures ok <==> !NumberTaken(old(tables), t.tableNumber, None)
      ensures ok ==> tables == old(tables) + [t.(id := old(nextId))] && nextId == old(nextId) + 1
      ensures !ok ==> tables == old(tables) && nextId == old(nextId)
    {
      if NumberTaken(tables, t.tableNumber, None) {
        return false;
      }
      var stored := t.(id := nextId);
      AddKeepsNumbersDistinct(tables, stored);
      tables := tables + [stored];
      nextId := nextId + 1;
      ok := true;
    }

    /** `UpdateTableAsync`: refuses a number another table uses ignoring
        case, or an unknown id; otherwise the stored row takes every value
        of `t`. The save reports success only when some value changed. */
    method UpdateTable(t: Table) returns (ok: bool)
      requires Valid()
      modifies this
      ensures Valid() && nextId == old(nextId)
      ensures var k := IndexOfKey(old(tables), TableKey, t.id);
              if !NumberTaken(old(tables), t.tableNumber, Some(t.id)) && k.Some?
              then tables == old(tables)[k.value := t] && ok == (old(tables)[k.value] != t)
              else tables == old(tables) && !ok
    {
      if NumberTaken(tables, t.tableNumber, Some(t.id)) {
        return false;
      }
      var found := IndexOfKey(tables, TableKey, t.id);
      if found.None? {
        return false;
      }
      var k := found.value;
      UpdateKeepsNumbersDistinct(tables, k, t);
      ok := tables[k] != t;
      tables := tables[k := t];
    }

    /** `DeleteTableAsync`: refuses an unknown id, or a table that still has
        an active reservation ending after `now` among `reservations`;
        otherwise removes exactly that table. */
    method DeleteTable(id: int, reservations: seq<Reservation>, now: int) returns (ok: bool)
      requires Valid()
      modifies this
      ensures Valid() && nextId == old(nextId)
      ensures ok <==> TableExists(old(tables), id) && !HasUpcomingReservation(reservations, id, now)
      ensures var k := IndexOfKey(old(tables), TableKey, id);
              if ok then k.Some? && tables == RemoveAt(old(tables), k.value)
              else tables == old(tables)
    {
      var found := IndexOfKey(tables, TableKey, id);
      if found.None? {
        return false;
      }
      if HasUpcomingReservation(reservations, id, now) {
        return false;
      }
      var k := found.value;
      KeysDistinctAfterRemove(tables, TableKey, k);
      RemoveKeepsNumbersDistinct(tables, k);
      tables := RemoveAt(tables, k);
      ok := true;
    }
  }
}
