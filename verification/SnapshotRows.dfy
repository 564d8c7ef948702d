/**
  What a saved version contains and what comes back from it, column by column (snapshot-serializer.ts;
  layout-write.service.ts, restoreVersion): rows before the save and rows after the restore, without the snapshot.
 */
module SnapshotRows {
  import opened Outcomes
  import opened Snapshot
  import opened SnapshotRoundTrip

  // ---------- What is saved

  function TextOr(meta: Option<Meta>): Meta {
    if meta == None then "{}" else meta.value
  }

  function NumberOr(n: Option<real>): real {
    if n == None then 0.0 else n.value
  }

  /** Every entry of a saved layout repeats its row; only metadata and a seat's numbers have defaults. */
  lemma SavedColumns(s: Store, l: Listing)
    requires l.Lists(s)
    ensures var saved := Serialize(s, l);
      && |saved.sections| == |l.sections| && |saved.tables| == |l.tables| && |saved.seats| == |l.seats|
      && (forall k :: 0 <= k < |l.sections| ==>
            var r, x := s.sections[l.sections[k]], saved.sections[k];
            && x.id == Some(l.sections[k]) && x.name == r.name && x.order == r.order && x.x == r.x && x.y == r.y
            && x.width == r.width && x.height == r.height && x.meta == TextOr(r.meta))
      && (forall k :: 0 <= k < |l.tables| ==>
            var r, x := s.tables[l.tables[k]], saved.tables[k];
            && x.id == Some(l.tables[k]) && x.sectionId == Some(r.sectionId) && x.name == r.name && x.order == r.order
            && x.x == r.x && x.y == r.y && x.capacity == r.capacity && x.meta == TextOr(r.meta))
      && (forall k :: 0 <= k < |l.seats| ==>
            var r, x := s.seats[l.seats[k]], saved.seats[k];
            && x.id == Some(l.seats[k]) && x.tableId == r.tableId && x.sectionId == Some(r.sectionId)
            && x.number == (if r.number == None then 0 else r.number.value) && x.caption == r.caption
            && x.x == NumberOr(r.x) && x.y == NumberOr(r.y) && x.rotation == NumberOr(r.rotation)
            && x.seatType == r.seatType && x.status == r.status && x.meta == TextOr(r.meta))
  {
  }

  // ---------- What comes back

  predicate SectionReturns(older: SectionRow, newer: SectionRow) {
    && newer.name == older.name && newer.order == older.order && newer.x == older.x && newer.y == older.y
    && newer.width == older.width && newer.height == older.height && newer.meta == Some(TextOr(older.meta))
  }

  predicate TableReturns(older: TableRow, newer: TableRow, section: Id) {
    && newer.sectionId == section && newer.name == older.name && newer.order == older.order
    && newer.x == older.x && newer.y == older.y && newer.capacity == older.capacity
    && newer.meta == Some(TextOr(older.meta))
  }

  /** The seat type is the one column that is lost: every type but RESERVED becomes STANDARD. */
  predicate SeatReturns(older: SeatRow, newer: SeatRow, section: Id, table: Id) {
    && newer.sectionId == section && newer.tableId == Some(table)
    && newer.number == Some(if older.number == None then 0 else older.number.value) && newer.caption == older.caption
    && newer.x == Some(NumberOr(older.x)) && newer.y == Some(NumberOr(older.y))
    && newer.rotation == Some(NumberOr(older.rotation))
    && newer.seatType == Some(if older.seatType == Some(ReservedType) then ReservedType else Standard)
    && newer.status == older.status && newer.meta == Some(TextOr(older.meta))
  }

  predicate HasPlace(s: Store, seat: Id) {
    && seat in s.seats && s.seats[seat].sectionId in s.sections
    && s.seats[seat].tableId.Some? && HasSection(s, s.seats[seat].tableId.value)
  }

  /** The tables of the event's sections. */
  function PlacedTables(s: Store): set<Id> {
    set id | id in s.tables && HasSection(s, id)
  }

  /** The seats of its sections at such tables. */
  function PlacedSeats(s: Store): set<Id> {
    set id | id in s.seats && HasPlace(s, id)
  }

  /** Each map takes the old ids that come back to the ids of the new rows, one to one, and there are no other rows. */
  ghost predicate Covers(m: map<Id, Id>, older: set<Id>, newer: set<Id>) {
    && (forall id :: id in m <==> id in older)
    && (forall id :: id in m ==> m[id] in newer)
    && (forall a, b :: a in m && b in m && a != b ==> m[a] != m[b])
    && (forall r :: r in newer ==> exists id :: id in m && m[id] == r)
  }

  ghost predicate ComesBack(s: Store, w: Work) {
    && Covers(w.sectionMap, s.sections.Keys, w.store.sections.Keys)
    && Covers(w.tableMap, PlacedTables(s), w.store.tables.Keys)
    && Covers(w.seatMap, PlacedSeats(s), w.store.seats.Keys)
    && (forall id :: id in s.sections ==> SectionReturns(s.sections[id], w.store.sections[w.sectionMap[id]]))
    && (forall id :: HasSection(s, id) ==>
          TableReturns(s.tables[id], w.store.tables[w.tableMap[id]], w.sectionMap[s.tables[id].sectionId]))
    && (forall id :: HasPlace(s, id) ==>
          SeatReturns(s.seats[id], w.store.seats[w.seatMap[id]], w.sectionMap[s.seats[id].sectionId],
                      w.tableMap[s.seats[id].tableId.value]))
  }

  /** Rows under consecutive ids, and a map to them from distinct old ids, cover each other. */
  lemma CoversRows<R>(m: map<Id, Id>, ids: seq<Option<Id>>, older: set<Id>, rows: map<Id, R>, expected: seq<R>,
                      base: Id)
    requires MapsTo(m, ids, base) && Rows(rows, expected, base) && |ids| == |expected|
    requires forall id :: id in m <==> id in older
    ensures Covers(m, older, rows.Keys)
    ensures forall i :: 0 <= i < |ids| ==>
      ids[i].Some? && ids[i].value in m && m[ids[i].value] in rows && rows[m[ids[i].value]] == expected[i]
  {
    MapsToInjective(m, ids, base);
    forall id | id in m ensures m[id] in rows { assert Some(id) in ids; }
    forall r | r in rows ensures exists id :: id in m && m[id] == r {
      assert m[ids[r - base].value] == r;
    }
  }

  lemma SectionsComeBack(s: Store, l: Listing, w: Work, base: Id)
    requires l.Lists(s) && SectionsBack(Serialize(s, l), w, base)
    ensures Covers(w.sectionMap, s.sections.Keys, w.store.sections.Keys)
    ensures forall id :: id in s.sections ==> SectionReturns(s.sections[id], w.store.sections[w.sectionMap[id]])
  {
    hide MapsTo, Rows, Covers;
    SectionsKnown(s, l, w, base);
    var xs := Serialize(s, l).sections;
    CoversRows(w.sectionMap, SectionIds(xs), s.sections.Keys, w.store.sections, SectionRows(xs), base);
    forall id | id in s.sections
      ensures id in w.sectionMap && w.sectionMap[id] in w.store.sections
      ensures SectionReturns(s.sections[id], w.store.sections[w.sectionMap[id]])
    {
      var k := PlaceOf(l.sections, s.sections.Keys, id);
      CoveredIn(w.sectionMap, s.sections.Keys, w.store.sections.Keys, id);
      assert SectionIds(xs)[k] == Some(id) && SectionRows(xs)[k] == SectionOf(xs[k]);
    }
  }

  lemma CoveredIn(m: map<Id, Id>, older: set<Id>, newer: set<Id>, id: Id)
    requires Covers(m, older, newer) && id in older
    ensures id in m && m[id] in newer
  {
  }

  /** Where the entry of a table that is kept stands among the kept ones. */
  lemma KeptTableAt(s: Store, order: seq<Id>, w: Work, id: Id) returns (i: nat)
    requires IsListing(order, s.tables.Keys) && HasSection(s, id) && s.tables[id].sectionId in w.sectionMap
    ensures var kept := KeptTables(w, TableSnaps(s.tables, order));
      i < |kept| && kept[i] == TableToSnap(id, s.tables[id])
  {
    var saved := TableSnaps(s.tables, order);
    var kept := KeptTables(w, saved);
    var k := PlaceOf(order, s.tables.Keys, id);
    assert saved[k] in saved && saved[k] in kept;
    i :| 0 <= i < |kept| && kept[i] == saved[k];
  }

  lemma TablesComeBack(s: Store, l: Listing, w: Work, base: Id)
    requires l.Lists(s) && TablesBack(Serialize(s, l), w, base)
    requires forall id :: id in w.sectionMap <==> id in s.sections
    ensures Covers(w.tableMap, PlacedTables(s), w.store.tables.Keys)
    ensures forall id :: HasSection(s, id) ==>
      TableReturns(s.tables[id], w.store.tables[w.tableMap[id]], w.sectionMap[s.tables[id].sectionId])
  {
    hide MapsTo, Rows, Covers, KeptTables;
    TablesKnown(s, l, w, base);
    var kept := KeptTables(w, TableSnaps(s.tables, l.tables));
    CoversRows(w.tableMap, TableIds(kept), PlacedTables(s), w.store.tables, TableRows(w, kept), base);
    forall id | HasSection(s, id)
      ensures id in w.tableMap && w.tableMap[id] in w.store.tables
      ensures TableReturns(s.tables[id], w.store.tables[w.tableMap[id]], w.sectionMap[s.tables[id].sectionId])
    {
      var i := KeptTableAt(s, l.tables, w, id);
      CoveredIn(w.tableMap, PlacedTables(s), w.store.tables.Keys, id);
      assert TableIds(kept)[i] == Some(id);
      assert TableRows(w, kept)[i] == TableOf(kept[i], w.sectionMap[s.tables[id].sectionId]);
    }
  }

  lemma KeptSeatAt(s: Store, order: seq<Id>, w: Work, id: Id) returns (i: nat)
    requires IsListing(order, s.seats.Keys) && HasPlace(s, id)
    requires s.seats[id].sectionId in w.sectionMap && s.seats[id].tableId.value in w.tableMap
    ensures var kept := KeptSeats(w, NormalSeatsOf(s, order));
      i < |kept| && kept[i] == NormalSeat(SeatToSnap(id, s.seats[id]))
  {
    var saved := NormalSeatsOf(s, order);
    var kept := KeptSeats(w, saved);
    var k := PlaceOf(order, s.seats.Keys, id);
    assert saved[k] in saved && saved[k] in kept;
    i :| 0 <= i < |kept| && kept[i] == saved[k];
  }

  ghost function NormalSeatsOf(s: Store, order: seq<Id>): (xs: seq<SeatSnap>)
    requires forall k :: 0 <= k < |order| ==> order[k] in s.seats
    ensures |xs| == |order|
    ensures forall k :: 0 <= k < |xs| ==> xs[k] == NormalSeat(SeatToSnap(order[k], s.seats[order[k]]))
  {
    var saved := SeatSnaps(s.seats, order);
    seq(|saved|, k requires 0 <= k < |saved| => NormalSeat(saved[k]))
  }

  lemma KeptSeatIds(s: Store, order: seq<Id>, w: Work, id: Id)
    requires IsListing(order, s.seats.Keys)
    requires (forall x :: x in w.sectionMap <==> x in s.sections) && forall x :: x in w.tableMap <==> HasSection(s, x)
    ensures Some(id) in SeatIds(KeptSeats(w, NormalSeatsOf(s, order))) <==> HasPlace(s, id)
  {
    var saved := NormalSeatsOf(s, order);
    var kept := KeptSeats(w, saved);
    if HasPlace(s, id) {
      var i := KeptSeatAt(s, order, w, id);
      assert SeatIds(kept)[i] == Some(id);
    }
    if Some(id) in SeatIds(kept) {
      var i :| 0 <= i < |kept| && SeatIds(kept)[i] == Some(id);
      assert kept[i] in kept && kept[i] in saved;
      var k :| 0 <= k < |saved| && saved[k] == kept[i];
      assert saved[k] == NormalSeat(SeatToSnap(order[k], s.seats[order[k]]));
    }
  }

  lemma SeatsKnown(s: Store, order: seq<Id>, w: Work, kept: seq<SeatSnap>, base: Id)
    requires IsListing(order, s.seats.Keys) && kept == KeptSeats(w, NormalSeatsOf(s, order))
    requires MapsTo(w.seatMap, SeatIds(kept), base)
    requires (forall x :: x in w.sectionMap <==> x in s.sections) && forall x :: x in w.tableMap <==> HasSection(s, x)
    ensures forall id :: id in w.seatMap <==> HasPlace(s, id)
  {
    hide MapsTo, HasPlace, HasSection;
    MapKnows(w.seatMap, SeatIds(kept), base);
    forall id { KeptSeatIds(s, order, w, id); }
  }

  lemma SeatsComeBack(s: Store, l: Listing, w: Work, base: Id)
    requires l.Lists(s) && SeatsBack(Serialize(s, l), w, base)
    requires (forall x :: x in w.sectionMap <==> x in s.sections) && forall x :: x in w.tableMap <==> HasSection(s, x)
    ensures Covers(w.seatMap, PlacedSeats(s), w.store.seats.Keys)
    ensures forall id :: HasPlace(s, id) ==>
      SeatReturns(s.seats[id], w.store.seats[w.seatMap[id]], w.sectionMap[s.seats[id].sectionId],
                  w.tableMap[s.seats[id].tableId.value])
  {
    hide MapsTo, Rows, Covers, KeptSeats, HasSection, SeatReturns, SeatRows, SeatIds;
    SameNormalSeats(s, l);
    var kept := KeptSeats(w, NormalSeatsOf(s, l.seats));
    SeatsKnown(s, l.seats, w, kept, base);
    CoversRows(w.seatMap, SeatIds(kept), PlacedSeats(s), w.store.seats, SeatRows(w, kept), base);
    forall id | HasPlace(s, id)
      ensures id in w.seatMap && w.seatMap[id] in w.store.seats
      ensures SeatReturns(s.seats[id], w.store.seats[w.seatMap[id]], w.sectionMap[s.seats[id].sectionId],
                          w.tableMap[s.seats[id].tableId.value])
    {
      PlacedMeans(s, id);
      CoveredIn(w.seatMap, PlacedSeats(s), w.store.seats.Keys, id);
      SeatComesBack(s, l.seats, w, kept, id);
    }
  }

  lemma SameNormalSeats(s: Store, l: Listing)
    requires l.Lists(s)
    ensures Normalize(Serialize(s, l)).seats == NormalSeatsOf(s, l.seats)
  {
  }

  lemma PlacedMeans(s: Store, id: Id)
    requires HasPlace(s, id)
    ensures id in PlacedSeats(s) && s.seats[id].sectionId in s.sections && HasSection(s, s.seats[id].tableId.value)
  {
  }

  lemma SeatComesBack(s: Store, order: seq<Id>, w: Work, kept: seq<SeatSnap>, id: Id)
    requires IsListing(order, s.seats.Keys) && kept == KeptSeats(w, NormalSeatsOf(s, order)) && HasPlace(s, id)
    requires s.seats[id].sectionId in w.sectionMap && s.seats[id].tableId.value in w.tableMap
    requires id in w.seatMap && w.seatMap[id] in w.store.seats
    requires forall i :: 0 <= i < |kept| ==>
      && SeatIds(kept)[i].Some? && SeatIds(kept)[i].value in w.seatMap
      && w.seatMap[SeatIds(kept)[i].value] in w.store.seats
      && w.store.seats[w.seatMap[SeatIds(kept)[i].value]] == SeatRows(w, kept)[i]
    ensures SeatReturns(s.seats[id], w.store.seats[w.seatMap[id]], w.sectionMap[s.seats[id].sectionId],
                        w.tableMap[s.seats[id].tableId.value])
  {
    hide KeptSeats, HasSection, SeatReturns;
    var i := KeptSeatAt(s, order, w, id);
    assert SeatIds(kept)[i] == Some(id);
    assert SeatRows(w, kept)[i] == NewSeat(w, kept[i]);
    NewSeatReturns(w, id, s.seats[id]);
  }

  lemma NewSeatReturns(w: Work, id: Id, row: SeatRow)
    requires row.sectionId in w.sectionMap && row.tableId.Some? && row.tableId.value in w.tableMap
    ensures SeatReturns(row, NewSeat(w, NormalSeat(SeatToSnap(id, row))), w.sectionMap[row.sectionId],
                        w.tableMap[row.tableId.value])
  {
  }

  lemma RestoredRowsComeBack(s: Store, l: Listing, w: Work)
    requires Good(s) && l.Lists(s) && Restored(Serialize(s, l), w, s.next)
    ensures ComesBack(s, w)
  {
    hide Serialize, Good, Listing.Lists, SectionsBack, TablesBack, SeatsBack, Covers, SectionReturns,
      TableReturns, SeatReturns, HasSection, HasPlace, KeptTables, PlacedTables, PlacedSeats;
    var saved := Serialize(s, l);
    SectionsKnown(s, l, w, s.next);
    SectionsComeBack(s, l, w, s.next);
    TablesKnown(s, l, w, s.next + |saved.sections|);
    TablesComeBack(s, l, w, s.next + |saved.sections|);
    SeatsComeBack(s, l, w, s.next + |saved.sections| + |KeptTables(w, saved.tables)|);
  }

  /** A saved version restores every section, every table of one and every seat of such a table, and nothing else. */
  lemma RowsComeBack(s: Store, l: Listing)
    requires Good(s) && l.Lists(s)
    ensures Restore(s, Serialize(s, l)).Some? && ComesBack(s, Restore(s, Serialize(s, l)).value)
  {
    hide Restore, Serialize, Good, Listing.Lists, ComesBack, Restored;
    RestoreSucceeds(s, l);
    RestoredRowsComeBack(s, l, Restore(s, Serialize(s, l)).value);
  }

  // ---------- When any snapshot is refused

  /** The rows so far have exactly the names of the entries so far; fresh ids are unused. */
  ghost predicate HasNames(store: Store, xs: seq<SectionSnap>) {
    && (forall id :: id in store.sections ==> id < store.next && NameAmong(xs, store.sections[id].name))
    && (forall k :: 0 <= k < |xs| ==> SectionNameTaken(store, xs[k].name))
  }

  predicate NameAmong(xs: seq<SectionSnap>, name: string) {
    exists k :: 0 <= k < |xs| && xs[k].name == name
  }

  predicate NamesDiffer(xs: seq<SectionSnap>) {
    forall i, j :: 0 <= i < j < |xs| ==> xs[i].name != xs[j].name
  }

  lemma LastNameDiffers(init: seq<SectionSnap>, last: SectionSnap)
    ensures NamesDiffer(init + [last]) <==> NamesDiffer(init) && !NameAmong(init, last.name)
  {
    var xs := init + [last];
    assert xs[|init|] == last && forall k :: 0 <= k < |init| ==> xs[k] == init[k];
  }

  /** Sections are refused exactly if two of them have one name. */
  lemma {:induction false} SectionsAcceptedWhen(w: Work, xs: seq<SectionSnap>)
    requires w.store.sections == map[]
    ensures AddSections(w, xs).Some? <==> NamesDiffer(xs)
    ensures AddSections(w, xs).Some? ==> HasNames(AddSections(w, xs).value.store, xs)
  {
    if xs != [] {
      hide NamesDiffer, NameAmong, HasNames;
      var init, last := xs[..|xs| - 1], xs[|xs| - 1];
      assert xs == init + [last];
      SectionsAcceptedWhen(w, init);
      LastNameDiffers(init, last);
      if AddSections(w, init).Some? { OneMoreName(AddSections(w, init).value, init, last); }
    }
  }

  lemma OneMoreName(before: Work, init: seq<SectionSnap>, last: SectionSnap)
    requires HasNames(before.store, init)
    ensures SectionNameTaken(before.store, last.name) <==> NameAmong(init, last.name)
    ensures AddSection(before, last).Some? ==> HasNames(AddSection(before, last).value.store, init + [last])
  {
    var xs := init + [last];
    assert xs[|init|] == last && forall k :: 0 <= k < |init| ==> xs[k] == init[k];
    if AddSection(before, last).Some? {
      var after := AddSection(before, last).value.store;
      forall k | 0 <= k < |xs| ensures SectionNameTaken(after, xs[k].name) {
        if k < |init| {
          assert SectionNameTaken(before.store, init[k].name);
          var id :| id in before.store.sections && before.store.sections[id].name == init[k].name;
          assert id in after.sections && after.sections[id].name == xs[k].name;
        } else {
          assert after.sections[before.store.next].name == last.name;
        }
      }
      forall id | id in after.sections ensures id < after.next && NameAmong(xs, after.sections[id].name) {
        if id in before.store.sections && id != before.store.next {
          assert NameAmong(init, before.store.sections[id].name);
          var k :| 0 <= k < |init| && init[k].name == before.store.sections[id].name;
          assert xs[k].name == after.sections[id].name;
        }
      }
    }
  }

  /** Two entries would become tables of one name in one section. */
  predicate Collide(w: Work, a: TableSnap, b: TableSnap) {
    && Find(w.sectionMap, a.sectionId).Some? && Find(w.sectionMap, a.sectionId) == Find(w.sectionMap, b.sectionId)
    && a.name == b.name
  }

  ghost predicate HasTables(w: Work, store: Store, xs: seq<TableSnap>) {
    && (forall id :: id in store.tables ==>
          id < store.next && exists k :: 0 <= k < |xs| && Became(w, xs[k], store.tables[id]))
    && (forall k :: 0 <= k < |xs| && Find(w.sectionMap, xs[k].sectionId).Some? ==>
          TableNameTaken(store, Find(w.sectionMap, xs[k].sectionId).value, xs[k].name))
  }

  predicate Became(w: Work, x: TableSnap, row: TableRow) {
    Find(w.sectionMap, x.sectionId) == Some(row.sectionId) && x.name == row.name
  }

  predicate NoneCollide(w: Work, xs: seq<TableSnap>) {
    forall i, j :: 0 <= i < j < |xs| ==> !Collide(w, xs[i], xs[j])
  }

  lemma LastCollides(w: Work, init: seq<TableSnap>, last: TableSnap)
    ensures NoneCollide(w, init + [last])
      <==> NoneCollide(w, init) && forall k :: 0 <= k < |init| ==> !Collide(w, init[k], last)
  {
    hide Collide;
    var xs := init + [last];
    assert xs[|init|] == last && forall k :: 0 <= k < |init| ==> xs[k] == init[k];
  }

  /** Tables without a section are passed over; the others are refused exactly if two of them collide. */
  lemma {:induction false} TablesAcceptedWhen(w: Work, xs: seq<TableSnap>)
    requires w.store.tables == map[]
    ensures AddTables(w, xs).Some? <==> NoneCollide(w, xs)
    ensures AddTables(w, xs).Some? ==>
      AddTables(w, xs).value.sectionMap == w.sectionMap && HasTables(w, AddTables(w, xs).value.store, xs)
  {
    if xs != [] {
      hide NoneCollide, Collide, HasTables, AddTable;
      var init, last := xs[..|xs| - 1], xs[|xs| - 1];
      assert xs == init + [last];
      TablesAcceptedWhen(w, init);
      LastCollides(w, init, last);
      if AddTables(w, init).Some? { OneMoreTable(w, AddTables(w, init).value, init, last); }
    }
  }

  lemma OneMoreTable(w: Work, before: Work, init: seq<TableSnap>, last: TableSnap)
    requires HasTables(w, before.store, init) && before.sectionMap == w.sectionMap
    ensures AddTable(before, last).Some? <==> forall k :: 0 <= k < |init| ==> !Collide(w, init[k], last)
    ensures AddTable(before, last).Some? ==>
      AddTable(before, last).value.sectionMap == w.sectionMap
      && HasTables(w, AddTable(before, last).value.store, init + [last])
  {
    hide Became;
    TakenMeans(w, before, init, last);
    if AddTable(before, last).Some? {
      RowsBecame(w, before, init, last);
      NamesTaken(w, before, init, last);
    }
  }

  lemma RowsBecame(w: Work, before: Work, init: seq<TableSnap>, last: TableSnap)
    requires HasTables(w, before.store, init) && before.sectionMap == w.sectionMap && AddTable(before, last).Some?
    ensures var after := AddTable(before, last).value.store; var xs := init + [last];
      forall id :: id in after.tables ==>
        id < after.next && exists k :: 0 <= k < |xs| && Became(w, xs[k], after.tables[id])
  {
    var xs, after := init + [last], AddTable(before, last).value.store;
    assert xs[|init|] == last && forall k :: 0 <= k < |init| ==> xs[k] == init[k];
    forall id | id in after.tables
      ensures id < after.next && exists k :: 0 <= k < |xs| && Became(w, xs[k], after.tables[id])
    {
      if id in before.store.tables && id != before.store.next {
        var k :| 0 <= k < |init| && Became(w, init[k], before.store.tables[id]);
        assert Became(w, xs[k], after.tables[id]);
      } else {
        assert Became(w, xs[|init|], after.tables[id]);
      }
    }
  }

  lemma NamesTaken(w: Work, before: Work, init: seq<TableSnap>, last: TableSnap)
    requires HasTables(w, before.store, init) && before.sectionMap == w.sectionMap && AddTable(before, last).Some?
    ensures var after := AddTable(before, last).value.store; var xs := init + [last];
      forall k :: 0 <= k < |xs| && Find(w.sectionMap, xs[k].sectionId).Some? ==>
        TableNameTaken(after, Find(w.sectionMap, xs[k].sectionId).value, xs[k].name)
  {
    hide Find;
    var xs, after := init + [last], AddTable(before, last).value.store;
    assert xs[|init|] == last && forall k :: 0 <= k < |init| ==> xs[k] == init[k];
    forall k | 0 <= k < |xs| && Find(w.sectionMap, xs[k].sectionId).Some?
      ensures TableNameTaken(after, Find(w.sectionMap, xs[k].sectionId).value, xs[k].name)
    {
      if k < |init| {
        var section := Find(w.sectionMap, init[k].sectionId).value;
        var id :| id in before.store.tables
          && before.store.tables[id].sectionId == section && before.store.tables[id].name == init[k].name;
        assert id in after.tables && after.tables[id] == before.store.tables[id];
      } else {
        assert before.store.next in after.tables;
      }
    }
  }

  lemma TakenMeans(w: Work, before: Work, init: seq<TableSnap>, last: TableSnap)
    requires HasTables(w, before.store, init) && before.sectionMap == w.sectionMap
    ensures Find(w.sectionMap, last.sectionId).Some? ==>
      (TableNameTaken(before.store, Find(w.sectionMap, last.sectionId).value, last.name) <==>
         exists k :: 0 <= k < |init| && Collide(w, init[k], last))
  {
    if Find(w.sectionMap, last.sectionId).Some? {
      var section := Find(w.sectionMap, last.sectionId).value;
      if TableNameTaken(before.store, section, last.name) {
        var id :| id in before.store.tables
          && before.store.tables[id].sectionId == section && before.store.tables[id].name == last.name;
        var k :| 0 <= k < |init| && Became(w, init[k], before.store.tables[id]);
        assert Collide(w, init[k], last);
      }
      if k :| 0 <= k < |init| && Collide(w, init[k], last) {
        assert TableNameTaken(before.store, section, init[k].name);
      }
    }
  }

  /** A version is refused exactly if two sections have one name, or two tables one name in one restored section. */
  lemma RestoreRefusedWhen(s: Store, saved: Layout)
    ensures Restore(s, saved).None? <==>
      || (exists i, j :: 0 <= i < j < |saved.sections| && saved.sections[i].name == saved.sections[j].name)
      || exists i, j :: 0 <= i < j < |saved.tables|
           && AddSections(Cleared(s), saved.sections).Some?
           && Collide(AddSections(Cleared(s), saved.sections).value, saved.tables[i], saved.tables[j])
  {
    hide AddSections, AddTables, AddSeats, Collide;
    SectionsAcceptedWhen(Cleared(s), saved.sections);
    if AddSections(Cleared(s), saved.sections).Some? {
      SectionsOnly(Cleared(s), saved.sections);
      TablesAcceptedWhen(AddSections(Cleared(s), saved.sections).value, saved.tables);
    }
  }

  lemma {:induction false} SectionsOnly(w: Work, xs: seq<SectionSnap>)
    requires AddSections(w, xs).Some?
    ensures AddSections(w, xs).value.store.tables == w.store.tables
  {
    if xs != [] { SectionsOnly(w, xs[..|xs| - 1]); }
  }
}
