/**
 * The rules of the two SQLite tables, `substations` and `machines`, as
 * functions on their rows. Rows are kept in rowid order; ids come from
 * AUTOINCREMENT and are never reused. The class in module Inventory
 * applies these rules to its state.
 */
module Tables {
  import opened Wrappers
  import opened Strings

  /** A `substations` row (its `created_at` timestamp is not modelled). */
  datatype Substation = Substation(id: nat, name: string)

  /**
   * A `machines` row (timestamps not modelled). Text columns may be NULL.
   * Nothing ties `substationId` to an existing substation: SQLite does not
   * enforce the FOREIGN KEY without the `foreign_keys` pragma.
   */
  datatype Machine = Machine(
    id: nat, substationId: int, x: int, y: int,
    name: Option<string>, info: Option<string>, imagePath: Option<string>)

  /** An entry of the `get_machines` response: NULL text columns read as "". */
  datatype MachineSummary = MachineSummary(id: nat, x: int, y: int, name: string, info: string, imagePath: string)

  /** The `get_machine` response. */
  datatype MachineDetail = MachineDetail(
    id: nat, substationId: int, x: int, y: int, name: string, info: string, imagePath: string)

  /** The handlers' error responses. */
  datatype TableError = EmptyName | DuplicateName | MissingParameters | ImageSaveFailed(reason: string) | MachineNotFound

  /** Python truthiness of an optional string: present and not "". */
  predicate Truthy(s: Option<string>)
  {
    s.Some? && s.value != ""
  }

  /** `value or ''`. */
  function OrEmpty(s: Option<string>): string
  {
    if Truthy(s) then s.value else ""
  }

  // ----- substations -----

  predicate NameTaken(rows: seq<Substation>, name: string)
  {
    exists i :: 0 <= i < |rows| && rows[i].name == name
  }

  /** Ids ascend in rowid order and stay below the next AUTOINCREMENT value; names are non-empty and UNIQUE. */
  ghost predicate SubstationsWellFormed(rows: seq<Substation>, nextId: nat)
  {
    && (forall i, j :: 0 <= i < j < |rows| ==> rows[i].id < rows[j].id)
    && (forall i :: 0 <= i < |rows| ==> rows[i].id < nextId && rows[i].name != "")
    && (forall i, j :: 0 <= i < j < |rows| ==> rows[i].name != rows[j].name)
  }

  /** The row `create_substation` inserts, or the error it reports. Names are not trimmed. */
  function AddSubstation(rows: seq<Substation>, nextId: nat, name: Option<string>): Result<Substation, TableError>
  {
    if !Truthy(name) then Failure(EmptyName)
    else if NameTaken(rows, name.value) then Failure(DuplicateName)
    else Success(Substation(nextId, name.value))
  }

  /**
   * A missing or empty name is refused first, then a name equal to one in
   * the table; any other name is inserted under the next id, and the table
   * stays well formed.
   */
  lemma AddSubstationOutcome(rows: seq<Substation>, nextId: nat, name: Option<string>)
    requires SubstationsWellFormed(rows, nextId)
    ensures var r := AddSubstation(rows, nextId, name);
      && (r == Failure(EmptyName) <==> name.None? || name.value == "")
      && (r == Failure(DuplicateName) <==> Truthy(name) && exists i :: 0 <= i < |rows| && rows[i].name == name.value)
      && (r.Success? ==> r.value == Substation(nextId, name.value) && SubstationsWellFormed(rows + [r.value], nextId + 1))
  {
  }

  /** Two different names can both be created, one after the other. */
  lemma DistinctNamesBothCreated(rows: seq<Substation>, nextId: nat, n1: string, n2: string)
    requires SubstationsWellFormed(rows, nextId)
    requires n1 != "" && n2 != "" && n1 != n2
    requires !NameTaken(rows, n1) && !NameTaken(rows, n2)
    ensures var r1 := AddSubstation(rows, nextId, Some(n1));
      && r1 == Success(Substation(nextId, n1))
      && AddSubstation(rows + [r1.value], nextId + 1, Some(n2)) == Success(Substation(nextId + 1, n2))
  {
  }

  /** Creating the same name twice fails the second time with the duplicate-name error. */
  lemma SameNameTwiceRejected(rows: seq<Substation>, nextId: nat, n: string)
    requires SubstationsWellFormed(rows, nextId)
    requires AddSubstation(rows, nextId, Some(n)).Success?
    ensures var r1 := AddSubstation(rows, nextId, Some(n));
      AddSubstation(rows + [r1.value], nextId + 1, Some(n)) == Failure(DuplicateName)
  {
    var rows1 := rows + [Substation(nextId, n)];
    assert rows1[|rows|].name == n;
  }

  // ----- get_substations: ORDER BY name -----

  function InsertByName(x: Substation, s: seq<Substation>): seq<Substation>
  {
    if s == [] then [x]
    else if LexLess(s[0].name, x.name) then [s[0]] + InsertByName(x, s[1..])
    else [x] + s
  }

  /** The rows sorted by name under SQLite's BINARY collation. */
  function SortByName(s: seq<Substation>): seq<Substation>
  {
    if s == [] then [] else InsertByName(s[0], SortByName(s[1..]))
  }

  ghost predicate ByNameAscending(s: seq<Substation>)
  {
    forall i, j :: 0 <= i < j < |s| ==> !LexLess(s[j].name, s[i].name)
  }

  lemma {:induction false} InsertByNamePermutation(x: Substation, s: seq<Substation>)
    ensures multiset(InsertByName(x, s)) == multiset(s) + multiset{x}
  {
    if s != [] && LexLess(s[0].name, x.name) {
      InsertByNamePermutation(x, s[1..]);
      assert s == [s[0]] + s[1..];
    }
  }

  /** The result of `ORDER BY name` holds the same rows as the table. */
  lemma {:induction false} SortByNamePermutation(s: seq<Substation>)
    ensures multiset(SortByName(s)) == multiset(s)
  {
    if s != [] {
      SortByNamePermutation(s[1..]);
      InsertByNamePermutation(s[0], SortByName(s[1..]));
      assert s == [s[0]] + s[1..];
    }
  }

  lemma {:induction false} InsertByNameOrdered(x: Substation, s: seq<Substation>)
    requires ByNameAscending(s)
    ensures ByNameAscending(InsertByName(x, s))
  {
    if s != [] {
      if LexLess(s[0].name, x.name) {
        InsertByNameOrdered(x, s[1..]);
        InsertAfterHead(x, s);
      } else {
        InsertAtHead(x, s);
      }
    }
  }

  lemma InsertByNameMembers(x: Substation, s: seq<Substation>)
    ensures forall y :: y in InsertByName(x, s) ==> y == x || y in s
  {
    InsertByNamePermutation(x, s);
    forall y | y in InsertByName(x, s) ensures y == x || y in s {
      assert y in multiset(InsertByName(x, s));
    }
  }

  lemma InsertAfterHead(x: Substation, s: seq<Substation>)
    requires s != [] && LexLess(s[0].name, x.name)
    requires ByNameAscending(s) && ByNameAscending(InsertByName(x, s[1..]))
    ensures ByNameAscending([s[0]] + InsertByName(x, s[1..]))
  {
    var head, rest := s[0], InsertByName(x, s[1..]);
    InsertByNameMembers(x, s[1..]);
    LexLessAsymmetric(head.name, x.name);
    assert forall y :: y in s[1..] ==> !LexLess(y.name, head.name) by {
      forall y | y in s[1..] ensures !LexLess(y.name, head.name) {
        var j :| 0 <= j < |s[1..]| && s[1..][j] == y;
        assert s[j + 1] == y;
      }
    }
    ConsAscending(head, rest);
  }

  lemma ConsAscending(h: Substation, rest: seq<Substation>)
    requires ByNameAscending(rest)
    requires forall y :: y in rest ==> !LexLess(y.name, h.name)
    ensures ByNameAscending([h] + rest)
  {
    var r := [h] + rest;
    forall i, j | 0 <= i < j < |r| ensures !LexLess(r[j].name, r[i].name) {
      var b := rest[j - 1];
      assert r[j] == b;
      if i == 0 {
        assert r[i] == h;
        assert b in rest;
      } else {
        var a := rest[i - 1];
        assert r[i] == a;
      }
    }
  }

  lemma InsertAtHead(x: Substation, s: seq<Substation>)
    requires s != [] && !LexLess(s[0].name, x.name)
    requires ByNameAscending(s)
    ensures ByNameAscending([x] + s)
  {
    var r := [x] + s;
    forall j | 0 < j < |r| ensures !LexLess(r[j].name, x.name) {
      var y := s[j - 1];
      assert r[j] == y;
      if LexLess(y.name, x.name) {
        if x.name != s[0].name {
          LexLessTotal(x.name, s[0].name);
          LexLessTransitive(y.name, x.name, s[0].name);
        }
        if j - 1 == 0 { LexLessIrreflexive(y.name); }
      }
    }
    assert forall i, j :: 0 < i < j < |r| ==> r[i] == s[i - 1] && r[j] == s[j - 1];
  }

  /** The result of `ORDER BY name` is in ascending name order. */
  lemma {:induction false} SortByNameOrdered(s: seq<Substation>)
    ensures ByNameAscending(SortByName(s))
  {
    if s != [] {
      SortByNameOrdered(s[1..]);
      InsertByNameOrdered(s[0], SortByName(s[1..]));
    }
  }

  // ----- machines -----

  predicate AtCell(m: Machine, sid: int, x: int, y: int)
  {
    m.substationId == sid && m.x == x && m.y == y
  }

  /** At most one machine per (substation, x, y) grid cell. */
  ghost predicate CellsUnique(rows: seq<Machine>)
  {
    forall i, j :: 0 <= i < j < |rows| ==> !AtCell(rows[j], rows[i].substationId, rows[i].x, rows[i].y)
  }

  /** Ids ascend in rowid order and stay below the next AUTOINCREMENT value; cells are unique. */
  ghost predicate MachinesWellFormed(rows: seq<Machine>, nextId: nat)
  {
    && (forall i, j :: 0 <= i < j < |rows| ==> rows[i].id < rows[j].id)
    && (forall i :: 0 <= i < |rows| ==> rows[i].id < nextId)
    && CellsUnique(rows)
  }

  /** The row `SELECT id FROM machines WHERE substation_id = ? AND position_x = ? AND position_y = ?` fetches first. */
  function FindAtCell(rows: seq<Machine>, sid: int, x: int, y: int): (r: Option<nat>)
    ensures r.Some? ==> r.value < |rows| && AtCell(rows[r.value], sid, x, y)
    ensures r.Some? ==> forall j :: 0 <= j < r.value ==> !AtCell(rows[j], sid, x, y)
    ensures r.None? ==> forall j :: 0 <= j < |rows| ==> !AtCell(rows[j], sid, x, y)
  {
    if rows == [] then None
    else if AtCell(rows[0], sid, x, y) then Some(0)
    else match FindAtCell(rows[1..], sid, x, y)
      case Some(i) => Some(i + 1)
      case None => None
  }

  /** The row `SELECT ... FROM machines WHERE id = ?` fetches. */
  function FindById(rows: seq<Machine>, id: nat): (r: Option<nat>)
    ensures r.Some? ==> r.value < |rows| && rows[r.value].id == id
    ensures r.None? ==> forall j :: 0 <= j < |rows| ==> rows[j].id != id
  {
    if rows == [] then None
    else if rows[0].id == id then Some(0)
    else match FindById(rows[1..], id)
      case Some(i) => Some(i + 1)
      case None => None
  }

  /** The table after an upsert, and the id the handler reports. */
  datatype Upserted = Upserted(rows: seq<Machine>, id: nat)

  /**
   * The database step of `create_or_update_machine`: `imagePath` is the path
   * of the image just saved, or None when none was sent.
   */
  function UpsertMachine(rows: seq<Machine>, nextId: nat, sid: int, x: int, y: int,
                         name: Option<string>, info: Option<string>, imagePath: Option<string>): Upserted
  {
    match FindAtCell(rows, sid, x, y)
    case Some(i) =>
      var row := rows[i];
      var path := if Truthy(imagePath) then imagePath else row.imagePath;
      Upserted(rows[i := row.(name := name, info := info, imagePath := path)], row.id)
    case None =>
      Upserted(rows + [Machine(nextId, sid, x, y, name, info, imagePath)], nextId)
  }

  /**
   * Upserting at an occupied cell keeps that row's id and the row count,
   * overwrites name and info, replaces the image path only when a new one
   * is given, and leaves every other row alone.
   */
  lemma UpsertOccupiedCell(rows: seq<Machine>, nextId: nat, sid: int, x: int, y: int,
                           name: Option<string>, info: Option<string>, imagePath: Option<string>, i: nat)
    requires CellsUnique(rows)
    requires i < |rows| && AtCell(rows[i], sid, x, y)
    ensures var u := UpsertMachine(rows, nextId, sid, x, y, name, info, imagePath);
      && u.id == rows[i].id
      && |u.rows| == |rows|
      && u.rows[i].id == rows[i].id && AtCell(u.rows[i], sid, x, y)
      && u.rows[i].name == name && u.rows[i].info == info
      && u.rows[i].imagePath == (if Truthy(imagePath) then imagePath else rows[i].imagePath)
      && forall j :: 0 <= j < |rows| && j != i ==> u.rows[j] == rows[j]
  {
    assert FindAtCell(rows, sid, x, y) == Some(i);
  }

  /** Upserting at a free cell appends exactly one row, under a fresh id. */
  lemma UpsertFreeCell(rows: seq<Machine>, nextId: nat, sid: int, x: int, y: int,
                       name: Option<string>, info: Option<string>, imagePath: Option<string>)
    requires MachinesWellFormed(rows, nextId)
    requires forall j :: 0 <= j < |rows| ==> !AtCell(rows[j], sid, x, y)
    ensures var u := UpsertMachine(rows, nextId, sid, x, y, name, info, imagePath);
      && u.rows == rows + [Machine(nextId, sid, x, y, name, info, imagePath)]
      && u.id == nextId
      && forall j :: 0 <= j < |rows| ==> rows[j].id != u.id
  {
  }

  /** What an upsert leaves behind is well formed again: still at most one machine per cell. */
  lemma UpsertKeepsWellFormed(rows: seq<Machine>, nextId: nat, sid: int, x: int, y: int,
                              name: Option<string>, info: Option<string>, imagePath: Option<string>)
    requires MachinesWellFormed(rows, nextId)
    ensures var u := UpsertMachine(rows, nextId, sid, x, y, name, info, imagePath);
      var inserted := FindAtCell(rows, sid, x, y).None?;
      && |u.rows| == (if inserted then |rows| + 1 else |rows|)
      && MachinesWellFormed(u.rows, if inserted then nextId + 1 else nextId)
  {
    var u := UpsertMachine(rows, nextId, sid, x, y, name, info, imagePath);
    match FindAtCell(rows, sid, x, y)
    case Some(i) =>
      assert forall j :: 0 <= j < |rows| ==>
        (u.rows[j].id == rows[j].id && u.rows[j].substationId == rows[j].substationId
         && u.rows[j].x == rows[j].x && u.rows[j].y == rows[j].y);
    case None =>
      var n := |rows|;
      assert forall j :: 0 <= j < n ==> u.rows[j] == rows[j];
      assert forall j :: 0 <= j < n ==> !AtCell(u.rows[n], u.rows[j].substationId, u.rows[j].x, u.rows[j].y);
  }

  /** Two upserts at the same cell leave one row for it, under one id; repeating the same upsert changes nothing. */
  lemma UpsertSameCellTwice(rows: seq<Machine>, nextId: nat, sid: int, x: int, y: int,
                            n1: Option<string>, i1: Option<string>, p1: Option<string>,
                            n2: Option<string>, i2: Option<string>, p2: Option<string>)
    requires MachinesWellFormed(rows, nextId)
    ensures var u1 := UpsertMachine(rows, nextId, sid, x, y, n1, i1, p1);
      var next1 := if FindAtCell(rows, sid, x, y).None? then nextId + 1 else nextId;
      var u2 := UpsertMachine(u1.rows, next1, sid, x, y, n2, i2, p2);
      && u2.id == u1.id
      && |u2.rows| == |u1.rows|
      && (n1 == n2 && i1 == i2 && p1 == p2 ==> u2.rows == u1.rows)
  {
    var u1 := UpsertMachine(rows, nextId, sid, x, y, n1, i1, p1);
    var next1 := if FindAtCell(rows, sid, x, y).None? then nextId + 1 else nextId;
    UpsertKeepsWellFormed(rows, nextId, sid, x, y, n1, i1, p1);
    var i := UpsertedCell(rows, nextId, sid, x, y, n1, i1, p1);
    UpsertOccupiedCell(u1.rows, next1, sid, x, y, n2, i2, p2, i);
    if n1 == n2 && i1 == i2 && p1 == p2 {
      var u2 := UpsertMachine(u1.rows, next1, sid, x, y, n2, i2, p2);
      var a, b := u1.rows[i], u2.rows[i];
      assert a.id == b.id && a.substationId == b.substationId && a.x == b.x && a.y == b.y;
      assert a.name == b.name && a.info == b.info && a.imagePath == b.imagePath;
      assert forall j :: 0 <= j < |u1.rows| ==> u2.rows[j] == u1.rows[j];
    }
  }

  /** Where the row of the cell sits after an upsert, and what it holds. */
  lemma UpsertedCell(rows: seq<Machine>, nextId: nat, sid: int, x: int, y: int,
                     name: Option<string>, info: Option<string>, imagePath: Option<string>) returns (i: nat)
    requires MachinesWellFormed(rows, nextId)
    ensures var u := UpsertMachine(rows, nextId, sid, x, y, name, info, imagePath);
      && i < |u.rows| && AtCell(u.rows[i], sid, x, y) && u.rows[i].id == u.id
      && u.rows[i].name == name && u.rows[i].info == info
      && (Truthy(imagePath) ==> u.rows[i].imagePath == imagePath)
  {
    match FindAtCell(rows, sid, x, y)
    case Some(k) =>
      i := k;
      UpsertOccupiedCell(rows, nextId, sid, x, y, name, info, imagePath, k);
    case None =>
      i := |rows|;
      UpsertFreeCell(rows, nextId, sid, x, y, name, info, imagePath);
  }

  /** The database step of `update_machine`; `newImagePath` is the path of the image just saved, if any. */
  function ApplyMachineUpdate(rows: seq<Machine>, id: nat, name: Option<string>, info: Option<string>,
                         newImagePath: Option<string>): Result<seq<Machine>, TableError>
  {
    match FindById(rows, id)
    case None => Failure(MachineNotFound)
    case Some(i) =>
      var path := if newImagePath.Some? then newImagePath else rows[i].imagePath;
      Success(rows[i := rows[i].(name := name, info := info, imagePath := path)])
  }

  /**
   * Updating a known id rewrites name and info, keeps the old image path when
   * no image is given, leaves the row's id and cell and every other row alone,
   * and keeps the table well formed; an unknown id is reported as not found.
   */
  lemma UpdateMachineOutcome(rows: seq<Machine>, nextId: nat, id: nat, name: Option<string>, info: Option<string>,
                             newImagePath: Option<string>)
    requires MachinesWellFormed(rows, nextId)
    ensures var r := ApplyMachineUpdate(rows, id, name, info, newImagePath);
      && (r == Failure(MachineNotFound) <==> forall j :: 0 <= j < |rows| ==> rows[j].id != id)
      && (r.Success? ==> MachinesWellFormed(r.value, nextId) && |r.value| == |rows|)
      && forall j :: 0 <= j < |rows| && r.Success? ==>
           if rows[j].id == id then
             r.value[j] == Machine(id, rows[j].substationId, rows[j].x, rows[j].y, name, info,
                                   if newImagePath.Some? then newImagePath else rows[j].imagePath)
           else r.value[j] == rows[j]
  {
    var r := ApplyMachineUpdate(rows, id, name, info, newImagePath);
    if r.Success? {
      var i := FindById(rows, id).value;
      assert forall j :: 0 <= j < |rows| && rows[j].id == id ==> j == i;
      assert forall j :: 0 <= j < |rows| ==>
        (r.value[j].id == rows[j].id && r.value[j].substationId == rows[j].substationId
         && r.value[j].x == rows[j].x && r.value[j].y == rows[j].y);
    }
  }

  // ----- reads -----

  function SummaryOf(m: Machine): MachineSummary
  {
    MachineSummary(m.id, m.x, m.y, OrEmpty(m.name), OrEmpty(m.info), OrEmpty(m.imagePath))
  }

  function DetailOf(m: Machine): MachineDetail
  {
    MachineDetail(m.id, m.substationId, m.x, m.y, OrEmpty(m.name), OrEmpty(m.info), OrEmpty(m.imagePath))
  }

  /** The `get_machines` response for substation `sid`, in rowid order. */
  function MachinesOf(rows: seq<Machine>, sid: int): seq<MachineSummary>
  {
    if rows == [] then []
    else
      var m := rows[|rows| - 1];
      MachinesOf(rows[..|rows| - 1], sid) + (if m.substationId == sid then [SummaryOf(m)] else [])
  }

  /** The response lists exactly the machines of that substation, NULL text read as "". */
  lemma {:induction false} MachinesOfMembers(rows: seq<Machine>, sid: int, v: MachineSummary)
    ensures v in MachinesOf(rows, sid) <==>
      exists k :: 0 <= k < |rows| && rows[k].substationId == sid && v == SummaryOf(rows[k])
  {
    if rows != [] {
      var n := |rows| - 1;
      var front, m := rows[..n], rows[n];
      var tail := if m.substationId == sid then [SummaryOf(m)] else [];
      assert MachinesOf(rows, sid) == MachinesOf(front, sid) + tail;
      assert v in MachinesOf(rows, sid) <==> v in MachinesOf(front, sid) || v in tail;
      MachinesOfMembers(front, sid, v);
      assert forall k :: 0 <= k < n ==> front[k] == rows[k];
    }
  }

  ghost predicate SummaryIdsAscending(r: seq<MachineSummary>)
  {
    forall i, j :: 0 <= i < j < |r| ==> r[i].id < r[j].id
  }

  /** The response keeps rowid order: its ids ascend when the table's do. */
  lemma {:induction false} MachinesOfAscending(rows: seq<Machine>, sid: int)
    requires forall i, j :: 0 <= i < j < |rows| ==> rows[i].id < rows[j].id
    ensures SummaryIdsAscending(MachinesOf(rows, sid))
  {
    if rows != [] {
      var n := |rows| - 1;
      var front := rows[..n];
      MachinesOfAscending(front, sid);
      var head := MachinesOf(front, sid);
      forall v | v in head ensures v.id < rows[n].id {
        MachinesOfMembers(front, sid, v);
      }
      var r := MachinesOf(rows, sid);
      assert r == head + (if rows[n].substationId == sid then [SummaryOf(rows[n])] else []);
      forall i, j | 0 <= i < j < |r| ensures r[i].id < r[j].id {
        if j < |head| {
          assert r[i] == head[i] && r[j] == head[j];
          assert head[i].id < head[j].id;
        } else {
          assert r[i] == head[i] && head[i] in head;
          assert head[i].id < rows[n].id;
          assert r[j] == SummaryOf(rows[n]);
        }
      }
    }
  }
}
