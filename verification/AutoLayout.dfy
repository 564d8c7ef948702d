/**
  Automatic layouts (layout-write.service.ts, buildAutoGenerateInputFromMaxSeats and writeGeometry;
  geometry-engine.ts): a seat count becomes section, table and seat configurations, these become geometry,
  and the geometry becomes rows. Coordinates are symbolic: only how many there are matters here.
 */
module AutoLayout {
  import opened Numbers
  import opened Outcomes
  import Decimal
  import Splitting

  const MAX_SEATS_PER_TABLE := 10
  const MAX_TABLES_PER_SECTION := 5

  datatype SeatsConfig = SeatsConfig(count: nat, shape: string)

  datatype TableConfig = TableConfig(name: Option<string>, shape: string, order: int, seats: SeatsConfig)

  datatype SectionConfig = SectionConfig(name: string, shape: string, order: int, tables: seq<TableConfig>)

  /** Math.ceil(a / b) for a positive b. */
  function CeilDiv(a: int, b: int): int
    requires b > 0
  {
    (a + b - 1) / b
  }

  // ---------- From a number of seats to configurations

  function TableCount(n: int): nat {
    if n <= 0 then 0 else CeilDiv(n, MAX_SEATS_PER_TABLE)
  }

  function SectionCount(n: int): nat {
    CeilDiv(TableCount(n), MAX_TABLES_PER_SECTION)
  }

  function TableName(k: nat): string {
    "Table " + Decimal.ToString(k + 1)
  }

  function SectionName(s: nat): string {
    "Section " + Decimal.ToString(s + 1)
  }

  /** Table k of all: ten seats, or what is left of n for the last. */
  function PlannedTable(n: int, k: nat): TableConfig
    requires k < TableCount(n)
  {
    TableConfig(Some(TableName(k)), "ROUND", k + 1, SeatsConfig(Min(10, n - 10 * k), "CIRCLE"))
  }

  function TablesIn(n: int, s: nat): nat
    requires s < SectionCount(n)
  {
    Min(5, TableCount(n) - 5 * s)
  }

  function PlannedSection(n: int, s: nat): SectionConfig
    requires s < SectionCount(n)
  {
    SectionConfig(SectionName(s), "CIRCLE", s + 1,
                  seq(TablesIn(n, s), t requires 0 <= t < TablesIn(n, s) => PlannedTable(n, 5 * s + t)))
  }

  function Plan(n: int): (sections: seq<SectionConfig>)
    ensures |sections| == SectionCount(n)
  {
    seq(SectionCount(n), s requires 0 <= s < SectionCount(n) => PlannedSection(n, s))
  }

  /** The plan for n seats: tables of ten, numbered through, and sections of five; the last of each may have fewer. */
  ghost predicate IsPlan(n: int, sections: seq<SectionConfig>) {
    var seats := if n < 0 then 0 else n;
    && |sections| == ((seats + 9) / 10 + 4) / 5
    && forall s :: 0 <= s < |sections| ==> IsPlannedSection(seats, s, sections[s])
  }

  ghost predicate IsPlannedSection(seats: nat, s: nat, section: SectionConfig) {
    var tables := (seats + 9) / 10;
    && section.name == "Section " + Decimal.ToString(s + 1) && section.shape == "CIRCLE" && section.order == s + 1
    && |section.tables| == (if 5 * s + 5 <= tables then 5 else tables - 5 * s)
    && forall t :: 0 <= t < |section.tables| ==> IsPlannedTable(seats, 5 * s + t, section.tables[t])
  }

  predicate IsPlannedTable(seats: nat, k: nat, table: TableConfig) {
    && table.name == Some("Table " + Decimal.ToString(k + 1)) && table.shape == "ROUND" && table.order == k + 1
    && table.seats.count == (if 10 * k + 10 <= seats then 10 else seats - 10 * k) && table.seats.shape == "CIRCLE"
  }

  lemma PlanMeans(n: int)
    ensures IsPlan(n, Plan(n))
  {
    hide IsPlannedSection, PlannedSection;
    forall s: nat | s < SectionCount(n) ensures IsPlannedSection(Max(n, 0), s, Plan(n)[s]) { SectionIsPlanned(n, s); }
  }

  lemma SectionIsPlanned(n: int, s: nat)
    requires s < SectionCount(n)
    ensures IsPlannedSection(Max(n, 0), s, PlannedSection(n, s))
  {
    hide Decimal.ToString, PlannedTable, IsPlannedTable;
    var tables := PlannedSection(n, s).tables;
    forall t | 0 <= t < |tables| ensures IsPlannedTable(Max(n, 0), 5 * s + t, tables[t]) {
      TableIsPlanned(n, 5 * s + t);
    }
  }

  lemma TableIsPlanned(n: int, k: nat)
    requires k < TableCount(n)
    ensures IsPlannedTable(Max(n, 0), k, PlannedTable(n, k))
  {
    hide Decimal.ToString;
  }

  method BuildSections(maxSeats: int) returns (sections: seq<SectionConfig>)
    ensures sections == Plan(maxSeats) && IsPlan(maxSeats, sections)
  {
    PlanMeans(maxSeats);
    hide IsPlan;
    var totalTables := CeilDiv(maxSeats, MAX_SEATS_PER_TABLE);
    var totalSections := CeilDiv(totalTables, MAX_TABLES_PER_SECTION);
    sections := [];
    var remainingSeats, tableOrder, sectionOrder := maxSeats, 1, 1;
    var s := 0;
    while s < totalSections
      invariant 0 <= s && (s == 0 || s <= totalSections) && sectionOrder == s + 1
      invariant |sections| == s && forall i :: 0 <= i < s ==>
        i < SectionCount(maxSeats) && sections[i] == PlannedSection(maxSeats, i)
      invariant tableOrder - 1 == Min(5 * s, TableCount(maxSeats))
      invariant maxSeats > 0 ==> remainingSeats == maxSeats - Min(10 * (tableOrder - 1), maxSeats)
    {
      assert s < SectionCount(maxSeats);
      var tables: seq<TableConfig> := [];
      var t := 0;
      while t < MAX_TABLES_PER_SECTION && remainingSeats > 0
        invariant 0 <= t <= 5 && |tables| == t <= TablesIn(maxSeats, s)
        invariant tableOrder == 5 * s + t + 1
        invariant remainingSeats == maxSeats - Min(10 * (tableOrder - 1), maxSeats)
        invariant forall i :: 0 <= i < t ==> tables[i] == PlannedTable(maxSeats, 5 * s + i)
      {
        var seatCount := Min(MAX_SEATS_PER_TABLE, remainingSeats);
        tables := tables + [TableConfig(Some("Table " + Decimal.ToString(tableOrder)), "ROUND", tableOrder,
                                        SeatsConfig(seatCount, "CIRCLE"))];
        tableOrder := tableOrder + 1;
        remainingSeats := remainingSeats - seatCount;
        t := t + 1;
      }
      sections := sections + [SectionConfig("Section " + Decimal.ToString(sectionOrder), "CIRCLE", sectionOrder,
                                            tables)];
      assert sections[s] == PlannedSection(maxSeats, s);
      sectionOrder := sectionOrder + 1;
      s := s + 1;
    }
    assert s == SectionCount(maxSeats);
  }

  // ---------- Geometry

  /** Where a table or seat is put: on a ring or a grid, or in one of two rows. Coordinates are not computed. */
  datatype Place = OnRing(index: nat, of: nat) | OnGrid(index: nat, of: nat) | InRow(row: nat, index: nat)

  function Ring(n: nat): seq<Place> {
    seq(n, i requires 0 <= i < n => OnRing(i, n))
  }

  /** The first `half` places in one row, the others in the next. */
  function TwoRows(n: nat, half: nat): (places: seq<Place>)
    requires half <= n
    ensures |places| == n
  {
    seq(half, i requires 0 <= i < half => InRow(0, i)) + seq(n - half, i requires 0 <= i < n - half => InRow(1, i))
  }

  /** Every table shape has one place for each table. */
  function TablePlaces(shape: string, n: nat): (places: seq<Place>)
    ensures |places| == n
  {
    if shape == "grid" then seq(n, i requires 0 <= i < n => OnGrid(i, n))
    else if shape == "u" then TwoRows(n, CeilDiv(n, 2))
    else if shape == "horseshoe" then TwoRows(n, CeilDiv(3 * n, 5))
    else Ring(n)
  }

  /** Every seat shape has one place for each seat. */
  function SeatPlaces(shape: string, n: nat): (places: seq<Place>)
    ensures |places| == n
  {
    if shape == "grid" then TwoRows(n, CeilDiv(n, 2))
    else if shape == "row" then seq(n, i requires 0 <= i < n => InRow(0, i))
    else Ring(n)
  }

  /** No two tables of a section and no two seats of a table share a place. */
  lemma PlacesDistinct(shape: string, n: nat, a: nat, b: nat)
    requires a < b < n
    ensures TablePlaces(shape, n)[a] != TablePlaces(shape, n)[b] && SeatPlaces(shape, n)[a] != SeatPlaces(shape, n)[b]
  {
  }

  /** Place k of n when the first row has `first` places. */
  predicate IsInRows(p: Place, k: nat, first: nat) {
    p.InRow? && p.row == (if k < first then 0 else 1) && p.index == (if k < first then k else k - first)
  }

  /** Every place has its number: on its grid or ring, or counted along its row. */
  lemma PlacesAre(shape: string, n: nat, k: nat)
    requires k < n
    ensures var p := TablePlaces(shape, n)[k];
      if shape == "grid" then p.OnGrid? && p.index == k && p.of == n
      else if shape == "u" then IsInRows(p, k, (n + 1) / 2)
      else if shape == "horseshoe" then IsInRows(p, k, (3 * n + 4) / 5)
      else p.OnRing? && p.index == k && p.of == n
    ensures var p := SeatPlaces(shape, n)[k];
      if shape == "grid" then IsInRows(p, k, (n + 1) / 2)
      else if shape == "row" then IsInRows(p, k, n)
      else p.OnRing? && p.index == k && p.of == n
  {
  }

  ghost function RowOf(places: seq<Place>, row: nat): set<int> {
    set k | 0 <= k < |places| && places[k].InRow? && places[k].row == row
  }

  /** How the places in rows are shared out: evenly, three fifths first in a horseshoe, and all in one row of seats. */
  lemma RowsShared(n: nat)
    ensures 2 * |RowOf(TablePlaces("u", n), 0)| in {n, n + 1}
    ensures 0 <= 5 * |RowOf(TablePlaces("horseshoe", n), 0)| - 3 * n < 5
    ensures 2 * |RowOf(SeatPlaces("grid", n), 0)| in {n, n + 1}
    ensures |RowOf(SeatPlaces("row", n), 0)| == n
  {
    FirstRow(n, CeilDiv(n, 2));
    FirstRow(n, CeilDiv(3 * n, 5));
    CountBelow(RowOf(SeatPlaces("row", n), 0), n);
  }

  lemma FirstRow(n: nat, half: nat)
    requires half <= n
    ensures |RowOf(TwoRows(n, half), 0)| == half
  {
    CountBelow(RowOf(TwoRows(n, half), 0), half);
  }

  lemma CountBelow(s: set<int>, n: nat)
    requires forall k :: k in s <==> 0 <= k < n
    ensures |s| == n
  {
    var r := seq(n, i requires 0 <= i < n => i);
    forall x: int ensures x in r <==> x in s {
      if 0 <= x < n { assert r[x] == x; }
    }
    DistinctCount(r, s);
  }

  datatype GeoSection = GeoSection(id: string, name: string, order: int)

  datatype GeoTable = GeoTable(id: string, sectionId: string, name: string, order: int, capacity: nat)

  datatype GeoSeat = GeoSeat(id: string, tableId: string, number: int, place: Place, status: string)

  datatype Geometry = Geometry(sections: seq<GeoSection>, tables: seq<GeoTable>, seats: seq<GeoSeat>)

  function SectionId(i: nat): string {
    "sec_" + Decimal.ToString(i)
  }

  function TableId(i: nat, t: nat): string {
    "tbl_" + Decimal.ToString(i) + "_" + Decimal.ToString(t)
  }

  function GeoSections(configs: seq<SectionConfig>): seq<GeoSection> {
    seq(|configs|, i requires 0 <= i < |configs| => GeoSection(SectionId(i), configs[i].name, i + 1))
  }

  function GeoTableAt(config: SectionConfig, i: nat, t: nat): GeoTable
    requires t < |config.tables|
  {
    var default := config.name + "-T" + Decimal.ToString(t + 1);
    GeoTable(TableId(i, t), SectionId(i), config.tables[t].name.GetOr(default), t + 1, config.tables[t].seats.count)
  }

  function TablesOf(config: SectionConfig, i: nat): (tables: seq<GeoTable>)
    ensures |tables| == |config.tables|
  {
    seq(|config.tables|, t requires 0 <= t < |config.tables| => GeoTableAt(config, i, t))
  }

  /** The tables of the first n sections, in order. */
  function AllTables(configs: seq<SectionConfig>, n: nat): seq<GeoTable>
    requires n <= |configs|
  {
    if n == 0 then [] else AllTables(configs, n - 1) + TablesOf(configs[n - 1], n - 1)
  }

  method GenerateTables(configs: seq<SectionConfig>, sections: seq<GeoSection>) returns (list: seq<GeoTable>)
    requires sections == GeoSections(configs)
    ensures list == AllTables(configs, |configs|)
  {
    list := [];
    for i := 0 to |sections|
      invariant list == AllTables(configs, i)
    {
      var tables := configs[i].tables;
      var positions := TablePlaces(configs[i].shape, |tables|);
      ghost var before := list;
      for t := 0 to |tables|
        invariant list == before + TablesOf(configs[i], i)[..t]
      {
        if t < |positions| {
          var default := sections[i].name + "-T" + Decimal.ToString(t + 1);
          list := list + [GeoTable("tbl_" + Decimal.ToString(i) + "_" + Decimal.ToString(t), sections[i].id,
                                   tables[t].name.GetOr(default), t + 1, tables[t].seats.count)];
        }
      }
      assert TablesOf(configs[i], i)[..|tables|] == TablesOf(configs[i], i);
    }
  }

  /** The section and table indexes that a table id carries. */
  function ParseTableId(id: string): (nat, nat)
    requires ReadableTableId(id)
  {
    var parts := Splitting.Split(id, '_');
    (Decimal.ToNumber(parts[1]), Decimal.ToNumber(parts[2]))
  }

  predicate ReadableTableId(id: string) {
    var parts := Splitting.Split(id, '_');
    |parts| == 3 && Decimal.IsNumeral(parts[1]) && Decimal.IsNumeral(parts[2])
  }

  /** Reading a table id gives back the indexes it was made from. */
  lemma TableIdRoundTrip(i: nat, t: nat)
    ensures ReadableTableId(TableId(i, t)) && ParseTableId(TableId(i, t)) == (i, t)
  {
    Splitting.SplitNumbers("tbl", i, t);
    assert "tbl_" == "tbl" + "_";
    assert TableId(i, t) == "tbl" + "_" + Decimal.ToString(i) + "_" + Decimal.ToString(t);
    Decimal.RoundTrip(i);
    Decimal.RoundTrip(t);
  }

  /** The id leads back to the configuration of the table that has it. */
  predicate Resolves(configs: seq<SectionConfig>, table: GeoTable) {
    ReadableTableId(table.id) &&
    var (i, t) := ParseTableId(table.id);
    i < |configs| && t < |configs[i].tables|
  }

  function SeatsOf(configs: seq<SectionConfig>, table: GeoTable): seq<GeoSeat>
    requires Resolves(configs, table)
  {
    var (i, t) := ParseTableId(table.id);
    var config := configs[i].tables[t].seats;
    var places := SeatPlaces(config.shape, config.count);
    seq(config.count, s requires 0 <= s < config.count =>
      GeoSeat("seat_" + Decimal.ToString(i) + "_" + Decimal.ToString(t) + "_" + Decimal.ToString(s),
              table.id, s + 1, places[s], "AVAILABLE"))
  }

  function AllSeats(configs: seq<SectionConfig>, tables: seq<GeoTable>): seq<GeoSeat>
    requires forall k :: 0 <= k < |tables| ==> Resolves(configs, tables[k])
  {
    if tables == [] then []
    else AllSeats(configs, tables[..|tables| - 1]) + SeatsOf(configs, tables[|tables| - 1])
  }

  /** The inner loop: the seats around one table. */
  method PlaceSeats(configs: seq<SectionConfig>, table: GeoTable) returns (seats: seq<GeoSeat>)
    requires Resolves(configs, table)
    ensures seats == SeatsOf(configs, table)
  {
    hide Splitting.Split, Decimal.ToString, Decimal.ToNumber, Decimal.IsNumeral, SeatPlaces;
    var parts := Splitting.Split(table.id, '_');
    var secIndex, tblIndex := Decimal.ToNumber(parts[1]), Decimal.ToNumber(parts[2]);
    var config := configs[secIndex].tables[tblIndex].seats;
    var positions := SeatPlaces(config.shape, config.count);
    seats := [];
    for s := 0 to |positions|
      invariant seats == SeatsOf(configs, table)[..s]
    {
      var id := "seat_" + Decimal.ToString(secIndex) + "_" + Decimal.ToString(tblIndex) + "_" + Decimal.ToString(s);
      seats := seats + [GeoSeat(id, table.id, s + 1, positions[s], "AVAILABLE")];
    }
    assert SeatsOf(configs, table)[..|positions|] == SeatsOf(configs, table);
  }

  method GenerateSeats(configs: seq<SectionConfig>, tables: seq<GeoTable>) returns (list: seq<GeoSeat>)
    requires forall k :: 0 <= k < |tables| ==> Resolves(configs, tables[k])
    ensures list == AllSeats(configs, tables)
  {
    hide Resolves, SeatsOf;
    list := [];
    for k := 0 to |tables|
      invariant list == AllSeats(configs, tables[..k])
    {
      var seats := PlaceSeats(configs, tables[k]);
      list := list + seats;
      assert tables[..k + 1][..k] == tables[..k];
    }
    assert tables[..|tables|] == tables;
  }

  /** The tables that the engine makes can all be read back. */
  lemma {:induction false} TablesResolve(configs: seq<SectionConfig>, n: nat)
    requires n <= |configs|
    ensures forall k :: 0 <= k < |AllTables(configs, n)| ==> Resolves(configs, AllTables(configs, n)[k])
  {
    if n > 0 {
      TablesResolve(configs, n - 1);
      var last := TablesOf(configs[n - 1], n - 1);
      forall t | 0 <= t < |last| ensures Resolves(configs, last[t]) { TableIdRoundTrip(n - 1, t); }
    }
  }

  function GeometryOf(configs: seq<SectionConfig>): Geometry {
    TablesResolve(configs, |configs|);
    var tables := AllTables(configs, |configs|);
    Geometry(GeoSections(configs), tables, AllSeats(configs, tables))
  }

  method Generate(configs: seq<SectionConfig>) returns (geometry: Geometry)
    ensures geometry == GeometryOf(configs)
  {
    var sections := GeoSections(configs);
    var tables := GenerateTables(configs, sections);
    TablesResolve(configs, |configs|);
    var seats := GenerateSeats(configs, tables);
    return Geometry(sections, tables, seats);
  }
}
