/**
  Writing generated geometry into an event that has been wiped (layout-write.service.ts, writeGeometry): geometry
  ids are resolved to rows by name. The query that lists the tables has no order, so the listing is a parameter.
  Section names are unique in an event, so the listing of the sections cannot matter (AnySectionListing).
 */
module LayoutRows {
  import opened Outcomes
  import opened AutoLayout
  import Decimal

  type RowId = nat

  datatype SectionRow = SectionRow(id: RowId, name: string, order: int)

  datatype TableRow = TableRow(id: RowId, sectionId: RowId, name: string, order: int, capacity: nat)

  datatype SeatRow = SeatRow(sectionId: RowId, tableId: RowId, number: int, caption: string, status: string)

  datatype Rows = Rows(sections: seq<SectionRow>, tables: seq<TableRow>, seats: seq<SeatRow>)

  // ---------- Sections: one row for each name (skipDuplicates)

  function SectionNamed(rows: seq<SectionRow>, name: string): (k: nat)
    ensures k <= |rows| && (k < |rows| ==> rows[k].name == name)
    ensures forall j :: 0 <= j < k ==> rows[j].name != name
  {
    if rows == [] then 0 else
      var k := SectionNamed(rows[..|rows| - 1], name);
      if k < |rows| - 1 then k else if rows[|rows| - 1].name == name then |rows| - 1 else |rows|
  }

  function CreateSections(sections: seq<GeoSection>, next: RowId): (rows: seq<SectionRow>)
    ensures |rows| <= |sections|
  {
    if sections == [] then []
    else
      var rows, s := CreateSections(sections[..|sections| - 1], next), sections[|sections| - 1];
      if SectionNamed(rows, s.name) < |rows| then rows else rows + [SectionRow(next + |rows|, s.name, s.order)]
  }

  /** Geometry section ids and the rows they stand for. */
  function SectionsById(sections: seq<GeoSection>, rows: seq<SectionRow>): map<string, SectionRow> {
    if sections == [] then map[]
    else
      var m, s := SectionsById(sections[..|sections| - 1], rows), sections[|sections| - 1];
      var k := SectionNamed(rows, s.name);
      if k < |rows| then m[s.id := rows[k]] else m
  }

  // ---------- Tables: a name may occur once in a section

  function TableNamed(rows: seq<TableRow>, name: string): (k: nat)
    ensures k <= |rows| && (k < |rows| ==> rows[k].name == name)
    ensures forall j :: 0 <= j < k ==> rows[j].name != name
  {
    if rows == [] then 0 else
      var k := TableNamed(rows[..|rows| - 1], name);
      if k < |rows| - 1 then k else if rows[|rows| - 1].name == name then |rows| - 1 else |rows|
  }

  function NewTable(t: GeoTable, id: RowId, sectionId: RowId): TableRow {
    TableRow(id, sectionId, t.name, t.order, t.capacity)
  }

  /** None: the unique index (section, name) refuses the batch. A table without a section is skipped. */
  function CreateTables(tables: seq<GeoTable>, sections: map<string, SectionRow>, next: RowId): Option<seq<TableRow>> {
    if tables == [] then Some([])
    else
      var before, t := CreateTables(tables[..|tables| - 1], sections, next), tables[|tables| - 1];
      if before.None? || t.sectionId !in sections then before
      else
        var rows, sectionId := before.value, sections[t.sectionId].id;
        if exists k :: 0 <= k < |rows| && rows[k].sectionId == sectionId && rows[k].name == t.name then None
        else Some(rows + [NewTable(t, next + |rows|, sectionId)])
  }

  /** How the database lists the rows of the table query: all of them, in any order. */
  type Listing = list: seq<TableRow> -> seq<TableRow> | forall rows :: Reorders(list, rows)
    ghost witness (rows: seq<TableRow>) => rows

  predicate Reorders(list: seq<TableRow> -> seq<TableRow>, rows: seq<TableRow>) {
    multiset(list(rows)) == multiset(rows)
  }

  function TablesById(tables: seq<GeoTable>, listed: seq<TableRow>): map<string, TableRow> {
    if tables == [] then map[]
    else
      var m, t := TablesById(tables[..|tables| - 1], listed), tables[|tables| - 1];
      var k := TableNamed(listed, t.name);
      if k < |listed| then m[t.id := listed[k]] else m
  }

  // ---------- Seats

  function SourceSection(tables: seq<GeoTable>, sections: map<string, SectionRow>, tableId: string): string {
    if tables == [] then ""
    else if tables[0].id == tableId then
      if tables[0].sectionId in sections then sections[tables[0].sectionId].name else ""
    else SourceSection(tables[1..], sections, tableId)
  }

  function SeatRowOf(seat: GeoSeat, table: TableRow, sectionName: string): SeatRow
    requires seat.number >= 0
  {
    SeatRow(table.sectionId, table.id, seat.number,
            sectionName + " • " + table.name + " • Seat " + Decimal.ToString(seat.number),
            if seat.status in {"AVAILABLE", "RESERVED", "ASSIGNED", "BLOCKED"} then seat.status else "AVAILABLE")
  }

  function NewSeat(g: Geometry, seat: GeoSeat, sections: map<string, SectionRow>, tables: map<string, TableRow>)
    : SeatRow
    requires seat.tableId in tables && seat.number >= 0
  {
    SeatRowOf(seat, tables[seat.tableId], SourceSection(g.tables, sections, seat.tableId))
  }

  function CreateSeats(g: Geometry, seats: seq<GeoSeat>,
                       sections: map<string, SectionRow>, tables: map<string, TableRow>)
    : seq<SeatRow>
    requires forall k :: 0 <= k < |seats| ==> seats[k].number >= 0
  {
    if seats == [] then []
    else
      var before, seat := CreateSeats(g, seats[..|seats| - 1], sections, tables), seats[|seats| - 1];
      if seat.tableId !in tables then before
      else before + [NewSeat(g, seat, sections, tables)]
  }

  /** The rows of the seats, from the sections and the listed tables. */
  function SeatRows(g: Geometry, sections: seq<SectionRow>, listed: seq<TableRow>): seq<SeatRow>
    requires SeatsNumbered(g)
  {
    CreateSeats(g, g.seats, SectionsById(g.sections, sections), TablesById(g.tables, listed))
  }

  predicate SeatsNumbered(g: Geometry) {
    forall k :: 0 <= k < |g.seats| ==> g.seats[k].number >= 0
  }

  function WrittenTables(g: Geometry, next: RowId): Option<seq<TableRow>> {
    var sections := CreateSections(g.sections, next);
    CreateTables(g.tables, SectionsById(g.sections, sections), next + |sections|)
  }

  function WriteGeometry(g: Geometry, next: RowId, list: Listing): Option<Rows>
    requires SeatsNumbered(g)
  {
    var sections, tables := CreateSections(g.sections, next), WrittenTables(g, next);
    if tables.None? then None else Some(Rows(sections, tables.value, SeatRows(g, sections, list(tables.value))))
  }

  lemma ListedAgain(list: Listing, rows: seq<TableRow>)
    ensures multiset(list(rows)) == multiset(rows)
  {
    assert Reorders(list, rows);
  }

  // ---------- The transaction

  method MapSections(sections: seq<GeoSection>, rows: seq<SectionRow>) returns (byInputId: map<string, SectionRow>)
    ensures byInputId == SectionsById(sections, rows)
  {
    byInputId := map[];
    for k := 0 to |sections|
      invariant byInputId == SectionsById(sections[..k], rows)
    {
      assert sections[..k + 1][..k] == sections[..k];
      var found := SectionNamed(rows, sections[k].name);
      if found < |rows| {
        byInputId := byInputId[sections[k].id := rows[found]];
      }
    }
    assert sections[..|sections|] == sections;
  }

  method MapTables(tables: seq<GeoTable>, listed: seq<TableRow>) returns (byInputId: map<string, TableRow>)
    ensures byInputId == TablesById(tables, listed)
  {
    byInputId := map[];
    for k := 0 to |tables|
      invariant byInputId == TablesById(tables[..k], listed)
    {
      assert tables[..k + 1][..k] == tables[..k];
      var found := TableNamed(listed, tables[k].name);
      if found < |listed| {
        byInputId := byInputId[tables[k].id := listed[found]];
      }
    }
    assert tables[..|tables|] == tables;
  }

  method Write(g: Geometry, next: RowId, list: Listing) returns (r: Option<Rows>)
    requires SeatsNumbered(g)
    ensures r == WriteGeometry(g, next, list)
  {
    hide CreateSections, CreateTables, CreateSeats, SectionsById, TablesById;
    var sections := CreateSections(g.sections, next);
    var sectionByInputId := MapSections(g.sections, sections);
    var created := CreateTables(g.tables, sectionByInputId, next + |sections|);
    if created.None? {
      return None;
    }
    var tableByInputId := MapTables(g.tables, list(created.value));
    return Some(Rows(sections, created.value, CreateSeats(g, g.seats, sectionByInputId, tableByInputId)));
  }

  // ---------- Distinct names keep every link

  ghost predicate AllDistinct(g: Geometry) {
    && (forall a, b :: 0 <= a < b < |g.sections| ==>
          g.sections[a].id != g.sections[b].id && g.sections[a].name != g.sections[b].name)
    && (forall a, b :: 0 <= a < b < |g.tables| ==>
          g.tables[a].id != g.tables[b].id && g.tables[a].name != g.tables[b].name)
  }

  /** Ids and names occur once, and the given indexes say which section a table and which table a seat refers to. */
  ghost predicate WellLinked(g: Geometry, sectionOf: seq<nat>, tableOf: seq<nat>) {
    && AllDistinct(g)
    && |sectionOf| == |g.tables| && |tableOf| == |g.seats|
    && (forall k :: 0 <= k < |g.tables| ==>
          sectionOf[k] < |g.sections| && g.tables[k].sectionId == g.sections[sectionOf[k]].id)
    && (forall j :: 0 <= j < |g.seats| ==>
          tableOf[j] < |g.tables| && g.seats[j].tableId == g.tables[tableOf[j]].id && g.seats[j].number >= 0)
  }

  lemma NameIsNew(rows: seq<SectionRow>, name: string)
    requires forall k :: 0 <= k < |rows| ==> rows[k].name != name
    ensures SectionNamed(rows, name) == |rows|
  {
  }

  lemma {:induction false} SectionsCreated(sections: seq<GeoSection>, next: RowId)
    requires forall a, b :: 0 <= a < b < |sections| ==> sections[a].name != sections[b].name
    ensures var rows := CreateSections(sections, next);
      |rows| == |sections| && forall k :: 0 <= k < |rows| ==>
        rows[k] == SectionRow(next + k, sections[k].name, sections[k].order)
  {
    hide SectionNamed;
    if sections != [] {
      var init, last := sections[..|sections| - 1], sections[|sections| - 1];
      SectionsCreated(init, next);
      assert forall k :: 0 <= k < |init| ==> init[k] == sections[k] && init[k].name != last.name;
      NameIsNew(CreateSections(init, next), last.name);
    }
  }

  lemma {:induction false} SectionsFound(sections: seq<GeoSection>, rows: seq<SectionRow>, n: nat)
    requires |rows| == |sections| && n <= |sections|
    requires forall k :: 0 <= k < |rows| ==> rows[k].name == sections[k].name
    requires forall a, b :: 0 <= a < b < |sections| ==>
      sections[a].id != sections[b].id && sections[a].name != sections[b].name
    ensures var byId := SectionsById(sections[..n], rows);
      forall k :: 0 <= k < n ==> sections[k].id in byId && byId[sections[k].id] == rows[k]
    ensures forall id :: id in SectionsById(sections[..n], rows) ==> exists k :: 0 <= k < n && sections[k].id == id
  {
    if n > 0 {
      hide SectionsById;
      SectionsFound(sections, rows, n - 1);
      OneMoreSection(sections, rows, n);
      var byId := SectionsById(sections[..n], rows);
      forall k | 0 <= k < n ensures sections[k].id in byId && byId[sections[k].id] == rows[k] {
        if k < n - 1 { assert sections[k].id != sections[n - 1].id; }
      }
      forall id | id in byId ensures exists k :: 0 <= k < n && sections[k].id == id {
        if id == sections[n - 1].id { assert sections[n - 1].id == id; }
      }
    }
  }

  lemma {:induction false} OneMoreSection(sections: seq<GeoSection>, rows: seq<SectionRow>, n: nat)
    requires |rows| == |sections| && 0 < n <= |sections|
    requires forall i :: 0 <= i < |rows| ==> rows[i].name == sections[i].name
    requires forall a, b :: 0 <= a < b < |sections| ==> sections[a].name != sections[b].name
    ensures SectionsById(sections[..n], rows)
      == SectionsById(sections[..n - 1], rows)[sections[n - 1].id := rows[n - 1]]
  {
    assert sections[..n][..n - 1] == sections[..n - 1] && sections[..n][n - 1] == sections[n - 1];
    assert SectionNamed(rows, sections[n - 1].name) == n - 1;
  }

  lemma {:induction false} TablesCreated(tables: seq<GeoTable>, sections: map<string, SectionRow>, next: RowId)
    requires forall a, b :: 0 <= a < b < |tables| ==> tables[a].name != tables[b].name
    requires forall k :: 0 <= k < |tables| ==> tables[k].sectionId in sections
    ensures var r := CreateTables(tables, sections, next);
      && r.Some? && |r.value| == |tables|
      && forall k :: 0 <= k < |tables| ==> r.value[k] == NewTable(tables[k], next + k, sections[tables[k].sectionId].id)
  {
    if tables != [] { TablesCreated(tables[..|tables| - 1], sections, next); }
  }

  lemma SameMembers<T>(a: seq<T>, b: seq<T>, x: T)
    requires multiset(a) == multiset(b)
    ensures x in a <==> x in b
  {
    assert x in a <==> x in multiset(a);
    assert x in b <==> x in multiset(b);
  }

  /** A table whose name is listed is found by its id, as the first row of that name. */
  lemma {:induction false} TableLookup(tables: seq<GeoTable>, listed: seq<TableRow>, k: nat)
    requires k < |tables| && TableNamed(listed, tables[k].name) < |listed|
    requires forall a, b :: 0 <= a < b < |tables| ==> tables[a].id != tables[b].id
    ensures tables[k].id in TablesById(tables, listed)
    ensures TablesById(tables, listed)[tables[k].id] == listed[TableNamed(listed, tables[k].name)]
  {
    if k < |tables| - 1 { TableLookup(tables[..|tables| - 1], listed, k); }
  }

  /** Distinct names: every table is found as its own row, however the rows are listed. */
  lemma TablesFound(tables: seq<GeoTable>, rows: seq<TableRow>, listed: seq<TableRow>, k: nat)
    requires |rows| == |tables| && multiset(listed) == multiset(rows) && k < |tables|
    requires forall i :: 0 <= i < |rows| ==> rows[i].name == tables[i].name
    requires forall a, b :: 0 <= a < b < |tables| ==> tables[a].id != tables[b].id && tables[a].name != tables[b].name
    ensures tables[k].id in TablesById(tables, listed) && TablesById(tables, listed)[tables[k].id] == rows[k]
  {
    SameMembers(listed, rows, rows[k]);
    var found := TableNamed(listed, tables[k].name);
    SameMembers(listed, rows, listed[found]);
    TableLookup(tables, listed, k);
  }

  lemma {:induction false} SourceFound(tables: seq<GeoTable>, sections: map<string, SectionRow>, k: nat)
    requires k < |tables| && tables[k].sectionId in sections
    requires forall a, b :: 0 <= a < b < |tables| ==> tables[a].id != tables[b].id
    ensures SourceSection(tables, sections, tables[k].id) == sections[tables[k].sectionId].name
  {
    if k > 0 { SourceFound(tables[1..], sections, k - 1); }
  }

  lemma {:induction false} SeatsCreated(g: Geometry, n: nat,
                                        sections: map<string, SectionRow>, tables: map<string, TableRow>)
    requires n <= |g.seats| && forall j :: 0 <= j < |g.seats| ==> g.seats[j].tableId in tables && g.seats[j].number >= 0
    ensures var rows := CreateSeats(g, g.seats[..n], sections, tables);
      && |rows| == n
      && forall j :: 0 <= j < n ==> rows[j] == NewSeat(g, g.seats[j], sections, tables)
  {
    if n > 0 {
      assert g.seats[..n][..n - 1] == g.seats[..n - 1];
      SeatsCreated(g, n - 1, sections, tables);
    }
  }

  /** The seat's row at a table: its links, its number, its caption, and its status if it is one. */
  predicate IsSeatRow(row: SeatRow, seat: GeoSeat, table: TableRow, sectionName: string) {
    && seat.number >= 0 && row.number == seat.number && row.tableId == table.id && row.sectionId == table.sectionId
    && row.caption == sectionName + " • " + table.name + " • Seat " + Decimal.ToString(seat.number)
    && row.status == (if seat.status == "RESERVED" || seat.status == "ASSIGNED" || seat.status == "BLOCKED"
                      then seat.status else "AVAILABLE")
  }

  lemma SeatRowIs(seat: GeoSeat, table: TableRow, sectionName: string)
    requires seat.number >= 0
    ensures IsSeatRow(SeatRowOf(seat, table, sectionName), seat, table, sectionName)
  {
  }

  /** The rows that a well-linked geometry becomes: one for each part, linked as the parts are. */
  ghost predicate Mirrors(g: Geometry, sectionOf: seq<nat>, tableOf: seq<nat>, rows: Rows, next: RowId)
    requires WellLinked(g, sectionOf, tableOf)
  {
    && |rows.sections| == |g.sections| && |rows.tables| == |g.tables| && |rows.seats| == |g.seats|
    && (forall k :: 0 <= k < |g.sections| ==>
          rows.sections[k] == SectionRow(next + k, g.sections[k].name, g.sections[k].order))
    && (forall k :: 0 <= k < |g.tables| ==>
          rows.tables[k] == TableRow(next + |g.sections| + k, rows.sections[sectionOf[k]].id, g.tables[k].name,
                                     g.tables[k].order, g.tables[k].capacity))
    && (forall j :: 0 <= j < |g.seats| ==>
          IsSeatRow(rows.seats[j], g.seats[j], rows.tables[tableOf[j]], rows.sections[sectionOf[tableOf[j]]].name))
  }

  lemma SectionAndTableRows(g: Geometry, sectionOf: seq<nat>, tableOf: seq<nat>, next: RowId)
    requires WellLinked(g, sectionOf, tableOf)
    ensures var sections := CreateSections(g.sections, next);
      && |sections| == |g.sections|
      && (forall k :: 0 <= k < |g.sections| ==>
            sections[k] == SectionRow(next + k, g.sections[k].name, g.sections[k].order))
      && (forall k :: 0 <= k < |g.sections| ==>
            && g.sections[k].id in SectionsById(g.sections, sections)
            && SectionsById(g.sections, sections)[g.sections[k].id] == sections[k])
      && WrittenTables(g, next).Some? && |WrittenTables(g, next).value| == |g.tables|
      && forall k :: 0 <= k < |g.tables| ==>
           WrittenTables(g, next).value[k] == NewTable(g.tables[k], next + |sections| + k, sections[sectionOf[k]].id)
  {
    hide CreateSections, SectionsById, CreateTables;
    var sections := CreateSections(g.sections, next);
    SectionsCreated(g.sections, next);
    SectionsFound(g.sections, sections, |g.sections|);
    assert g.sections[..|g.sections|] == g.sections;
    var byId := SectionsById(g.sections, sections);
    assert forall k :: 0 <= k < |g.tables| ==> g.sections[sectionOf[k]].id in byId;
    TablesCreated(g.tables, byId, next + |sections|);
  }

  lemma SeatRowsMirror(g: Geometry, sectionOf: seq<nat>, tableOf: seq<nat>, next: RowId, listed: seq<TableRow>)
    requires WellLinked(g, sectionOf, tableOf) && WrittenTables(g, next).Some?
    requires multiset(listed) == multiset(WrittenTables(g, next).value)
    ensures var sections, tables := CreateSections(g.sections, next), WrittenTables(g, next).value;
      var rows := SeatRows(g, sections, listed);
      && |sections| == |g.sections| && |tables| == |g.tables| && |rows| == |g.seats|
      && forall j :: 0 <= j < |g.seats| ==>
           IsSeatRow(rows[j], g.seats[j], tables[tableOf[j]], sections[sectionOf[tableOf[j]]].name)
  {
    hide CreateSections, SectionsById, WrittenTables, TablesById, CreateSeats, SourceSection, SeatRowOf, IsSeatRow;
    SectionAndTableRows(g, sectionOf, tableOf, next);
    var sections, tables := CreateSections(g.sections, next), WrittenTables(g, next).value;
    var byId, tablesById := SectionsById(g.sections, sections), TablesById(g.tables, listed);
    forall k | 0 <= k < |g.tables|
      ensures g.tables[k].id in tablesById && tablesById[g.tables[k].id] == tables[k]
    {
      TablesFound(g.tables, tables, listed, k);
    }
    SeatsCreated(g, |g.seats|, byId, tablesById);
    assert g.seats[..|g.seats|] == g.seats;
    forall j | 0 <= j < |g.seats|
      ensures IsSeatRow(SeatRows(g, sections, listed)[j], g.seats[j], tables[tableOf[j]],
                        sections[sectionOf[tableOf[j]]].name)
    {
      SourceFound(g.tables, byId, tableOf[j]);
      SeatRowIs(g.seats[j], tables[tableOf[j]], sections[sectionOf[tableOf[j]]].name);
    }
  }

  /** Lookup by distinct names loses nothing and mixes nothing up, however the tables are listed. */
  lemma WriteMirrors(g: Geometry, sectionOf: seq<nat>, tableOf: seq<nat>, next: RowId, list: Listing)
    requires WellLinked(g, sectionOf, tableOf)
    ensures WriteGeometry(g, next, list).Some?
    ensures Mirrors(g, sectionOf, tableOf, WriteGeometry(g, next, list).value, next)
  {
    hide CreateSections, WrittenTables, SeatRows, IsSeatRow, Reorders, AllDistinct;
    SectionAndTableRows(g, sectionOf, tableOf, next);
    ListedAgain(list, WrittenTables(g, next).value);
    SeatRowsMirror(g, sectionOf, tableOf, next, list(WrittenTables(g, next).value));
  }

  // ---------- Names that are not distinct

  /** Ids occur once and refer to something; nothing is said of names. Every generated geometry is like this. */
  ghost predicate Linked(g: Geometry) {
    && SeatsNumbered(g)
    && (forall a, b :: 0 <= a < b < |g.tables| ==> g.tables[a].id != g.tables[b].id)
    && (forall k :: 0 <= k < |g.tables| ==> HasSection(g, g.tables[k].sectionId))
    && (forall j :: 0 <= j < |g.seats| ==> HasTable(g, j))
  }

  predicate HasTable(g: Geometry, j: nat)
    requires j < |g.seats|
  {
    exists k: nat :: k < |g.tables| && SitsAt(g, j, k)
  }

  predicate HasSection(g: Geometry, sectionId: string) {
    exists s :: 0 <= s < |g.sections| && g.sections[s].id == sectionId
  }

  predicate SitsAt(g: Geometry, j: nat, k: nat) {
    j < |g.seats| && k < |g.tables| && g.seats[j].tableId == g.tables[k].id
  }

  /** Every section name has a row, also when sections share one. */
  lemma {:induction false} SectionNamesKept(sections: seq<GeoSection>, next: RowId, k: nat)
    requires k < |sections|
    ensures SectionNamed(CreateSections(sections, next), sections[k].name) < |CreateSections(sections, next)|
  {
    var rows, before := CreateSections(sections, next), CreateSections(sections[..|sections| - 1], next);
    if k < |sections| - 1 {
      SectionNamesKept(sections[..|sections| - 1], next, k);
      NameStaysFound(before, rows, sections[k].name);
    } else if |rows| > |before| {
      assert rows[|rows| - 1].name == sections[k].name;
    }
  }

  lemma NameStaysFound(before: seq<SectionRow>, after: seq<SectionRow>, name: string)
    requires before <= after && SectionNamed(before, name) < |before|
    ensures SectionNamed(after, name) < |after|
  {
    assert after[SectionNamed(before, name)].name == name;
  }

  lemma {:induction false} SectionLookup(sections: seq<GeoSection>, rows: seq<SectionRow>, k: nat)
    requires k < |sections| && SectionNamed(rows, sections[k].name) < |rows|
    ensures sections[k].id in SectionsById(sections, rows)
  {
    if k < |sections| - 1 { SectionLookup(sections[..|sections| - 1], rows, k); }
  }

  /** A batch that is not refused has a row for every table that has a section. */
  lemma {:induction false} TableRowsInOrder(tables: seq<GeoTable>, sections: map<string, SectionRow>, next: RowId)
    requires CreateTables(tables, sections, next).Some?
    requires forall k :: 0 <= k < |tables| ==> tables[k].sectionId in sections
    ensures var rows := CreateTables(tables, sections, next).value;
      && |rows| == |tables|
      && forall k :: 0 <= k < |rows| ==> rows[k] == NewTable(tables[k], next + k, sections[tables[k].sectionId].id)
  {
    if tables != [] { TableRowsInOrder(tables[..|tables| - 1], sections, next); }
  }

  /** Two tables of one name are to be put into one section row. */
  predicate Collide(s: GeoTable, t: GeoTable, sections: map<string, SectionRow>)
    requires s.sectionId in sections && t.sectionId in sections
  {
    s.name == t.name && sections[s.sectionId].id == sections[t.sectionId].id
  }

  /** The batch is refused exactly if two of its tables collide. */
  lemma {:induction false} BatchAcceptedWhen(tables: seq<GeoTable>, sections: map<string, SectionRow>, next: RowId)
    requires forall k :: 0 <= k < |tables| ==> tables[k].sectionId in sections
    ensures CreateTables(tables, sections, next).Some? <==>
      forall a, b :: 0 <= a < b < |tables| ==> !Collide(tables[a], tables[b], sections)
  {
    if tables != [] {
      var init := tables[..|tables| - 1];
      BatchAcceptedWhen(init, sections, next);
      assert forall k :: 0 <= k < |init| ==> init[k] == tables[k];
      if CreateTables(init, sections, next).Some? { TableRowsInOrder(init, sections, next); }
    }
  }

  /** Row k is the own row of table k: it has its name, and its id is like no other. */
  lemma OwnRows(g: Geometry, next: RowId)
    requires Linked(g) && WrittenTables(g, next).Some?
    ensures var rows := WrittenTables(g, next).value;
      && |rows| == |g.tables|
      && (forall k :: 0 <= k < |rows| ==> rows[k].name == g.tables[k].name)
      && (forall a, b :: 0 <= a < b < |rows| ==> rows[a].id != rows[b].id)
  {
    hide CreateSections, SectionsById, CreateTables, SectionNamed;
    var sections := CreateSections(g.sections, next);
    var byId := SectionsById(g.sections, sections);
    forall k | 0 <= k < |g.tables| ensures g.tables[k].sectionId in byId {
      var s :| 0 <= s < |g.sections| && g.sections[s].id == g.tables[k].sectionId;
      SectionNamesKept(g.sections, next, s);
      SectionLookup(g.sections, sections, s);
    }
    TableRowsInOrder(g.tables, byId, next + |sections|);
  }

  /** The row is listed, and no row of its name is listed before it. */
  ghost predicate FirstListed(listed: seq<TableRow>, row: TableRow) {
    TableNamed(listed, row.name) < |listed| && listed[TableNamed(listed, row.name)] == row
  }

  /** The written row of seat j is at the own row of table k. */
  ghost predicate AtOwnTable(g: Geometry, next: RowId, list: Listing, j: nat, k: nat)
    requires SeatsNumbered(g) && WrittenTables(g, next).Some?
  {
    var rows := WriteGeometry(g, next, list).value;
    j < |rows.seats| && k < |rows.tables| && rows.seats[j].tableId == rows.tables[k].id
  }

  /** Every table is found by its id, as the first listed row of its name. */
  lemma TablesFollowNames(g: Geometry, next: RowId, listed: seq<TableRow>, k: nat)
    requires Linked(g) && WrittenTables(g, next).Some? && k < |g.tables|
    requires multiset(listed) == multiset(WrittenTables(g, next).value)
    ensures TableNamed(listed, g.tables[k].name) < |listed|
    ensures g.tables[k].id in TablesById(g.tables, listed)
    ensures TablesById(g.tables, listed)[g.tables[k].id] == listed[TableNamed(listed, g.tables[k].name)]
  {
    hide WrittenTables, TablesById;
    OwnRows(g, next);
    var rows := WrittenTables(g, next).value;
    SameMembers(listed, rows, rows[k]);
    TableLookup(g.tables, listed, k);
  }

  /** Seat j of the geometry is written as seat row j, at the first listed row of its table's name. */
  lemma SeatsFollowNames(g: Geometry, next: RowId, listed: seq<TableRow>, j: nat, k: nat)
    requires Linked(g) && WrittenTables(g, next).Some? && SitsAt(g, j, k)
    requires multiset(listed) == multiset(WrittenTables(g, next).value)
    ensures var rows := SeatRows(g, CreateSections(g.sections, next), listed);
      && |rows| == |g.seats| && TableNamed(listed, g.tables[k].name) < |listed|
      && rows[j].tableId == listed[TableNamed(listed, g.tables[k].name)].id
  {
    hide CreateSections, SectionsById, WrittenTables, CreateSeats, TablesById, TableNamed, SourceSection;
    forall i | 0 <= i < |g.seats| ensures g.seats[i].tableId in TablesById(g.tables, listed) {
      assert HasTable(g, i);
      var t: nat :| t < |g.tables| && SitsAt(g, i, t);
      TablesFollowNames(g, next, listed, t);
    }
    TablesFollowNames(g, next, listed, k);
    SeatsCreated(g, |g.seats|, SectionsById(g.sections, CreateSections(g.sections, next)),
                 TablesById(g.tables, listed));
    assert g.seats[..|g.seats|] == g.seats;
  }

  /** A seat is written at its own table exactly if that table's row is the first listed of its name. */
  lemma OwnTableWhenFirstListed(g: Geometry, next: RowId, list: Listing, j: nat, k: nat)
    requires Linked(g) && WrittenTables(g, next).Some? && SitsAt(g, j, k)
    ensures k < |WrittenTables(g, next).value|
    ensures AtOwnTable(g, next, list, j, k) <==>
      FirstListed(list(WrittenTables(g, next).value), WrittenTables(g, next).value[k])
  {
    hide CreateSections, WrittenTables, SeatRows, TableNamed;
    var rows := WrittenTables(g, next).value;
    var listed := list(rows);
    ListedAgain(list, rows);
    OwnRows(g, next);
    SeatsFollowNames(g, next, listed, j, k);
    var found := listed[TableNamed(listed, g.tables[k].name)];
    SameMembers(listed, rows, found);
    var i :| 0 <= i < |rows| && rows[i] == found;
  }

  predicate NameOccursOnce(g: Geometry, k: nat)
    requires k < |g.tables|
  {
    forall i :: 0 <= i < |g.tables| && i != k ==> g.tables[i].name != g.tables[k].name
  }

  lemma FrontReorders(rows: seq<TableRow>, i: nat)
    requires i < |rows|
    ensures multiset([rows[i]] + rows[..i] + rows[i + 1..]) == multiset(rows)
  {
    assert rows == rows[..i] + [rows[i]] + rows[i + 1..];
  }

  /** A listing that has the i-th row first whenever it lists these rows. */
  function ListedFirst(rows: seq<TableRow>, i: nat): Listing
    requires i < |rows|
  {
    var list := (xs: seq<TableRow>) => if xs == rows then [rows[i]] + rows[..i] + rows[i + 1..] else xs;
    assert forall xs :: Reorders(list, xs) by { FrontReorders(rows, i); }
    list
  }

  lemma RowComesFirst(rows: seq<TableRow>, i: nat)
    requires i < |rows|
    ensures var listed := ListedFirst(rows, i)(rows); listed != [] && listed[0] == rows[i]
  {
  }

  /** A seat is written at its own table in every listing exactly if the table's name occurs once. */
  lemma OwnTableAlwaysWhen(g: Geometry, next: RowId, j: nat, k: nat)
    requires Linked(g) && WrittenTables(g, next).Some? && SitsAt(g, j, k)
    ensures (forall list: Listing :: AtOwnTable(g, next, list, j, k)) <==> NameOccursOnce(g, k)
  {
    hide AtOwnTable, WrittenTables;
    if NameOccursOnce(g, k) {
      forall list: Listing ensures AtOwnTable(g, next, list, j, k) { OnlyRowOfName(g, next, list, j, k); }
    } else {
      var i: nat :| i < |g.tables| && i != k && g.tables[i].name == g.tables[k].name;
      OwnRows(g, next);
      OtherRowFirst(g, next, j, k, i);
    }
  }

  lemma OtherRowFirst(g: Geometry, next: RowId, j: nat, k: nat, i: nat)
    requires Linked(g) && WrittenTables(g, next).Some? && SitsAt(g, j, k)
    requires i < |g.tables| && i != k && g.tables[i].name == g.tables[k].name
    ensures i < |WrittenTables(g, next).value|
    ensures !AtOwnTable(g, next, ListedFirst(WrittenTables(g, next).value, i), j, k)
  {
    hide AtOwnTable, WrittenTables, ListedFirst, FirstListed, Reorders;
    OwnRows(g, next);
    var rows := WrittenTables(g, next).value;
    var list := ListedFirst(rows, i);
    OwnTableWhenFirstListed(g, next, list, j, k);
    RowComesFirst(rows, i);
    AnotherIsFirst(list(rows), rows[k]);
  }

  lemma AnotherIsFirst(listed: seq<TableRow>, row: TableRow)
    requires listed != [] && listed[0].name == row.name && listed[0] != row
    ensures !FirstListed(listed, row)
  {
    assert TableNamed(listed, row.name) == 0;
  }

  lemma OnlyRowOfName(g: Geometry, next: RowId, list: Listing, j: nat, k: nat)
    requires Linked(g) && WrittenTables(g, next).Some? && SitsAt(g, j, k) && NameOccursOnce(g, k)
    ensures AtOwnTable(g, next, list, j, k)
  {
    hide AtOwnTable, CreateSections, WrittenTables, TableNamed;
    var rows := WrittenTables(g, next).value;
    var listed := list(rows);
    ListedAgain(list, rows);
    OwnRows(g, next);
    OwnTableWhenFirstListed(g, next, list, j, k);
    SameMembers(listed, rows, rows[k]);
    var found := listed[TableNamed(listed, rows[k].name)];
    SameMembers(listed, rows, found);
  }

  /** Of two tables with one name, the seats of one at least are written at the other, however the rows are listed. */
  lemma SharedNamesMisplace(g: Geometry, next: RowId, list: Listing, j: nat, k: nat, j': nat, k': nat)
    requires Linked(g) && WrittenTables(g, next).Some? && SitsAt(g, j, k) && SitsAt(g, j', k')
    requires k != k' && g.tables[k].name == g.tables[k'].name
    ensures !(AtOwnTable(g, next, list, j, k) && AtOwnTable(g, next, list, j', k'))
  {
    hide AtOwnTable, CreateSections, WrittenTables, TableNamed;
    OwnRows(g, next);
    OwnTableWhenFirstListed(g, next, list, j, k);
    OwnTableWhenFirstListed(g, next, list, j', k');
  }

  // ---------- What the engine generates is linked

  /** The table came from section i of the configurations, and its id says so. */
  ghost predicate FromSection(t: GeoTable, i: nat) {
    t.sectionId == SectionId(i) && ReadableTableId(t.id) && ParseTableId(t.id).0 == i
  }

  ghost predicate FromEarlier(t: GeoTable, n: nat) {
    exists i: nat :: i < n && FromSection(t, i)
  }

  ghost predicate FromSections(tables: seq<GeoTable>, n: nat) {
    && (forall k :: 0 <= k < |tables| ==> FromEarlier(tables[k], n))
    && (forall a, b :: 0 <= a < b < |tables| ==> tables[a].id != tables[b].id)
  }

  lemma {:induction false} TablesFromSections(configs: seq<SectionConfig>, n: nat)
    requires n <= |configs|
    ensures FromSections(AllTables(configs, n), n)
  {
    if n > 0 {
      TablesFromSections(configs, n - 1);
      var before, added := AllTables(configs, n - 1), TablesOf(configs[n - 1], n - 1);
      forall t | 0 <= t < |added|
        ensures FromSection(added[t], n - 1) && ParseTableId(added[t].id) == (n - 1, t)
      {
        TableIdRoundTrip(n - 1, t);
      }
      JoinSections(before, added, n - 1);
    }
  }

  lemma JoinSections(before: seq<GeoTable>, added: seq<GeoTable>, n: nat)
    requires FromSections(before, n)
    requires forall t :: 0 <= t < |added| ==> FromSection(added[t], n) && ParseTableId(added[t].id) == (n, t)
    ensures FromSections(before + added, n + 1)
  {
    hide ReadableTableId, ParseTableId, SectionId;
    var tables := before + added;
    forall k | 0 <= k < |tables| ensures FromEarlier(tables[k], n + 1) {
      if k < |before| {
        assert FromEarlier(before[k], n);
        var i: nat :| i < n && FromSection(before[k], i);
        assert FromSection(tables[k], i);
      } else {
        assert FromSection(tables[k], n);
      }
    }
    forall a, b | 0 <= a < b < |tables| ensures tables[a].id != tables[b].id {
      if b < |before| {
        assert tables[a] == before[a] && tables[b] == before[b];
      } else if a < |before| {
        assert FromEarlier(before[a], n);
        var i: nat :| i < n && FromSection(before[a], i);
        assert ParseTableId(tables[b].id) == (n, b - |before|);
      } else {
        assert ParseTableId(tables[a].id) == (n, a - |before|) && ParseTableId(tables[b].id) == (n, b - |before|);
      }
    }
  }

  lemma {:induction false} SeatsFromTables(configs: seq<SectionConfig>, tables: seq<GeoTable>)
    requires forall k :: 0 <= k < |tables| ==> Resolves(configs, tables[k])
    ensures forall j :: 0 <= j < |AllSeats(configs, tables)| ==>
      AllSeats(configs, tables)[j].number >= 0 && TableIdAmong(tables, AllSeats(configs, tables)[j].tableId)
  {
    hide Resolves;
    if tables != [] {
      var init, last := tables[..|tables| - 1], tables[|tables| - 1];
      SeatsFromTables(configs, init);
      var before, added := AllSeats(configs, init), SeatsOf(configs, last);
      var seats := before + added;
      forall j | 0 <= j < |seats| ensures seats[j].number >= 0 && TableIdAmong(tables, seats[j].tableId) {
        if j < |before| {
          assert TableIdAmong(init, before[j].tableId);
          var k :| 0 <= k < |init| && init[k].id == before[j].tableId;
          assert tables[k].id == before[j].tableId;
        } else {
          assert tables[|tables| - 1].id == seats[j].tableId;
        }
      }
    }
  }

  predicate TableIdAmong(tables: seq<GeoTable>, id: string) {
    exists k :: 0 <= k < |tables| && tables[k].id == id
  }

  /** So what is said above of linked geometries holds of every generated one, whatever its names. */
  lemma GeneratedIsLinked(configs: seq<SectionConfig>)
    ensures Linked(GeometryOf(configs))
  {
    hide AllTables, AllSeats, Resolves, SectionId, ReadableTableId, ParseTableId;
    var g := GeometryOf(configs);
    TablesResolve(configs, |configs|);
    TablesFromSections(configs, |configs|);
    SeatsFromTables(configs, g.tables);
    forall k | 0 <= k < |g.tables| ensures HasSection(g, g.tables[k].sectionId) {
      assert FromEarlier(g.tables[k], |configs|);
      var i: nat :| i < |configs| && FromSection(g.tables[k], i);
      assert g.sections[i].id == g.tables[k].sectionId;
    }
    forall j | 0 <= j < |g.seats| ensures HasTable(g, j) {
      assert TableIdAmong(g.tables, g.seats[j].tableId);
      var k: nat :| k < |g.tables| && g.tables[k].id == g.seats[j].tableId;
      assert SitsAt(g, j, k);
    }
  }

  // Two sections, each with a table of the same name and one seat: the unique index (section, name) allows it.

  function OneSeatSection(name: string): SectionConfig {
    SectionConfig(name, "CIRCLE", 1, [TableConfig(Some("Main"), "ROUND", 1, SeatsConfig(1, "CIRCLE"))])
  }

  const TWO_MAIN_TABLES := [OneSeatSection("A"), OneSeatSection("B")]

  lemma TwoMainTables()
    ensures var g := GeometryOf(TWO_MAIN_TABLES);
      && |g.sections| == 2 && g.sections[0].name == "A" && g.sections[1].name == "B"
      && g.sections[0].id == SectionId(0) && g.sections[1].id == SectionId(1)
      && |g.tables| == 2 && g.tables[0] == GeoTableAt(OneSeatSection("A"), 0, 0)
      && g.tables[1] == GeoTableAt(OneSeatSection("B"), 1, 0)
      && |g.seats| == 2 && g.seats[0].tableId == g.tables[0].id && g.seats[1].tableId == g.tables[1].id
  {
    hide SectionId, TableId, ReadableTableId;
    var g := GeometryOf(TWO_MAIN_TABLES);
    assert AllTables(TWO_MAIN_TABLES, 1) == TablesOf(TWO_MAIN_TABLES[0], 0);
    assert AllTables(TWO_MAIN_TABLES, 2) == AllTables(TWO_MAIN_TABLES, 1) + TablesOf(TWO_MAIN_TABLES[1], 1);
    TablesResolve(TWO_MAIN_TABLES, 2);
    TableIdRoundTrip(0, 0);
    TableIdRoundTrip(1, 0);
    assert g.tables[..1] == [g.tables[0]] && g.tables[..1][..0] == [];
    assert AllSeats(TWO_MAIN_TABLES, g.tables[..1]) == SeatsOf(TWO_MAIN_TABLES, g.tables[0]);
    assert AllSeats(TWO_MAIN_TABLES, g.tables)
        == AllSeats(TWO_MAIN_TABLES, g.tables[..1]) + SeatsOf(TWO_MAIN_TABLES, g.tables[1]);
  }

  lemma TwoMainTablesAccepted(g: Geometry, next: RowId)
    requires |g.sections| == 2 && g.sections[0].name != g.sections[1].name && g.sections[0].id != g.sections[1].id
    requires |g.tables| == 2 && g.tables[0].sectionId == g.sections[0].id && g.tables[1].sectionId == g.sections[1].id
    ensures WrittenTables(g, next).Some?
  {
    hide CreateSections, SectionsById, CreateTables;
    SectionsCreated(g.sections, next);
    var sections := CreateSections(g.sections, next);
    SectionsFound(g.sections, sections, 2);
    assert g.sections[..2] == g.sections;
    BatchAcceptedWhen(g.tables, SectionsById(g.sections, sections), next + |sections|);
  }

  /** The engine's geometry for them is written, and in every listing a seat of one is at the other. */
  lemma SharedNamesHappen(next: RowId, list: Listing)
    ensures var g := GeometryOf(TWO_MAIN_TABLES);
      && Linked(g) && WrittenTables(g, next).Some? && SitsAt(g, 0, 0) && SitsAt(g, 1, 1)
      && !(AtOwnTable(g, next, list, 0, 0) && AtOwnTable(g, next, list, 1, 1))
  {
    hide GeometryOf, WrittenTables, AtOwnTable, Linked, SectionId, TableId;
    var g := GeometryOf(TWO_MAIN_TABLES);
    TwoMainTables();
    GeneratedIsLinked(TWO_MAIN_TABLES);
    SectionIdsDiffer();
    TwoMainTablesAccepted(g, next);
    SharedNamesMisplace(g, next, list, 0, 0, 1, 1);
  }

  lemma SectionIdsDiffer()
    ensures SectionId(0) != SectionId(1)
  {
    if SectionId(0) == SectionId(1) { Decimal.Injective("sec_", 0, 1); }
  }

  /** The listing of the sections does not matter: no two rows have one name. */
  lemma {:induction false} AnySectionListing(sections: seq<GeoSection>, rows: seq<SectionRow>, listed: seq<SectionRow>)
    requires multiset(listed) == multiset(rows)
    requires NamesDistinct(rows)
    ensures SectionsById(sections, listed) == SectionsById(sections, rows)
  {
    if sections != [] {
      AnySectionListing(sections[..|sections| - 1], rows, listed);
      SameSectionFound(rows, listed, sections[|sections| - 1].name);
    }
  }

  lemma SameSectionFound(rows: seq<SectionRow>, listed: seq<SectionRow>, name: string)
    requires multiset(listed) == multiset(rows)
    requires NamesDistinct(rows)
    ensures var i, k := SectionNamed(rows, name), SectionNamed(listed, name);
      (i < |rows| <==> k < |listed|) && (i < |rows| ==> rows[i] == listed[k])
  {
    hide SectionNamed;
    var i, k := SectionNamed(rows, name), SectionNamed(listed, name);
    if i < |rows| {
      SameMembers(listed, rows, rows[i]);
    }
    if k < |listed| {
      SameMembers(listed, rows, listed[k]);
    }
  }

  ghost predicate NamesDistinct(rows: seq<SectionRow>) {
    forall a, b :: 0 <= a < b < |rows| ==> rows[a].name != rows[b].name
  }

  lemma {:induction false} SectionNamesDistinct(sections: seq<GeoSection>, next: RowId)
    ensures NamesDistinct(CreateSections(sections, next))
  {
    if sections != [] {
      var init, last := sections[..|sections| - 1], sections[|sections| - 1];
      SectionNamesDistinct(init, next);
      NewNameIsDistinct(CreateSections(init, next),
                        SectionRow(next + |CreateSections(init, next)|, last.name, last.order));
    }
  }

  lemma NewNameIsDistinct(rows: seq<SectionRow>, row: SectionRow)
    requires NamesDistinct(rows)
    ensures SectionNamed(rows, row.name) == |rows| ==> NamesDistinct(rows + [row])
  {
    var found := SectionNamed(rows, row.name);
    assert forall k :: 0 <= k < found ==> rows[k].name != row.name;
  }
}
