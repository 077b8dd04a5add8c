/** QU_Delete: the records of a relation that satisfy a condition on one of its attributes are deleted. */
module Delete {
  import opened Common
  import opened Compare
  import opened PageSpec
  import opened BufHash
  import opened BufRefine
  import opened BufRuns
  import opened HeapSpec
  import opened Chain
  import opened Storage
  import opened HeapFile
  import opened Session
  import opened Tandem
  import opened QuerySpec
  import opened Query
  import opened CatalogSpec
  import opened CatalogScan
  import opened Catalog

  // ----- attributes in the catalog

  /** What a tuple of the attribute catalog says. */
  function DescFrom(row: Bytes): AttrDesc {
    AttrDesc(CString(row, 0, MAXNAME), CString(row, MAXNAME, MAXNAME), Int32(row, 64), KindOf(Int32(row, 68)),
             Int32(row, 72))
  }

  /**
   Attribute `k` of a relation as it was declared; its offset is the sum of the lengths in front of it, as an `int`.
   */
  function Declared(relation: Bytes, list: seq<AttrInfo>, k: nat): AttrDesc
    requires k < |list|
  {
    AttrDesc(relation, list[k].name, Wrap32(Offset(list, k)), list[k].kind, Wrap32(list[k].len))
  }

  lemma DescFromRow(relation: Bytes, list: seq<AttrInfo>, k: nat)
    requires k < |list| && Storable(relation) && Storable(list[k].name)
    ensures DescFrom(RowAt(relation, list, k)) == Declared(relation, list, k)
  {
    hide IntBytes, CString, Wrap32, Word, Offset;
    var r, a := RowAt(relation, list, k), list[k];
    RowNames(relation, a, Offset(list, k));
    assert r[64..68] == IntBytes(Offset(list, k)) && r[68..72] == IntBytes(KindCode(a.kind)) &&
           r[72..76] == IntBytes(a.len);
    IntRoundTrip(Offset(list, k), r, 64);
    IntRoundTrip(KindCode(a.kind), r, 68);
    IntRoundTrip(a.len, r, 72);
  }

  /** The first attribute with this name from `i` on, or -1. */
  function IndexFrom(list: seq<AttrInfo>, name: Bytes, i: nat): (k: int)
    requires i <= |list|
    ensures k == -1 || (i <= k < |list| && list[k].name == name)
    ensures forall j :: i <= j < (if k < 0 then |list| else k) ==> list[j].name != name
    decreases |list| - i
  {
    if i == |list| then -1 else if list[i].name == name then i else IndexFrom(list, name, i + 1)
  }

  lemma {:induction false} FirstNamed(relation: Bytes, list: seq<AttrInfo>, name: Bytes, i: nat)
    requires i <= |list| && Storable(relation) && NamesStorable(list, |list|)
    ensures var k := IndexFrom(list, name, i);
            FirstOf(AttrRows(relation, list, |list|)[i..], AttrNameIs(name)) == if k < 0 then None
              else Some(RowAt(relation, list, k))
    decreases |list| - i
  {
    hide AttrRow, CString;
    if i < |list| {
      var rows := AttrRows(relation, list, |list|);
      RowAtFor(relation, list, i);
      FirstNamed(relation, list, name, i + 1);
      assert rows[i..][1..] == rows[i + 1..];
    }
  }

  /** Where the attribute of a condition is in the list of its relation; -1 if there is none. */
  function AttrIndex(schema: Schema, relation: Bytes, name: Bytes): (k: int)
    ensures k == -1 || (relation in schema && 0 <= k < |schema[relation]| && schema[relation][k].name == name)
  {
    if relation in schema then IndexFrom(schema[relation], name, 0) else -1
  }

  /** The lookup of an attribute finds it as it was declared. */
  lemma LookUpFinds(c: Catalogs, relation: Bytes, name: Bytes)
    requires c.Valid() && IsName(relation)
    ensures var k := AttrIndex(c.schema, relation, name);
            var found := FirstOf(Tuples(c.attrs.pages, relation), AttrNameIs(name));
            if k < 0 then found == None
            else found.Some? && DescFrom(found.value) == Declared(relation, c.schema[relation], k)
  {
    hide Tuples, Writable, Declared, DescFrom, AttrRow, RelRow, Consistent, FirstOf, Store.Valid;
    DescribedHere(c.rels.pages, c.attrs.pages, c.schema, relation);
    if relation in c.schema {
      var list := c.schema[relation];
      FirstNamed(relation, list, name, 0);
      assert AttrRows(relation, list, |list|)[0..] == AttrRows(relation, list, |list|);
      var k := AttrIndex(c.schema, relation, name);
      if k >= 0 {
        DescFromRow(relation, list, k);
      }
    } else {
      NoRows(AttrNameIs(name));
    }
  }

  lemma NoRows(t: Bytes -> bool)
    ensures FirstOf([], t) == None
  {
  }

  // ----- the deletion

  /** The deletion loop and the destruction of the scan, which was opened on top of `b`. */
  method DeleteAndClose(hfs: HeapFile, ghost chain: seq<int>, ghost pages: seq<PageImage>, ghost b: Base)
    returns (ghost pages': seq<PageImage>)
    requires hfs.Valid(chain) && hfs.Shows(chain, pages) && hfs.Others() < hfs.store.bm.numBufs &&
             hfs.filePtr in hfs.store.bm.db.openCnt
    requires hfs.headerPageNo == 1 && hfs.curPage && hfs.pos == 0 && hfs.curRec == NULLRID && Plain(hfs.filter) &&
             Over(b, hfs.store.view, [hfs.Held()])
    modifies hfs, hfs.store.Repr(), hfs.store.bm.db
    ensures hfs.store.Valid() && hfs.store.view.pins == b.pins && hfs.store.view.owed == b.owed
    ensures Deleted(hfs.store.view.logical, hfs.filePtr, chain, pages, pages', old(hfs.Matches()))
    ensures OthersSame(old(hfs.store.view), hfs.store.view, hfs.filePtr)
    ensures hfs.store.bm.db.openCnt ==
            old(hfs.store.bm.db.openCnt)[hfs.filePtr := CountAfterClose(old(hfs.store.bm.db.openCnt)[hfs.filePtr])]
    ensures old(hfs.store.bm.db.openCnt)[hfs.filePtr] == 1 && NoPins(hfs.store.view, hfs.filePtr) ==>
              Durable(hfs.store.bm.pool, hfs.store.view, hfs.filePtr)
  {
    hide Store.Valid, HeapFile.Core, HeapAt, PagesOf, AllEntries, Survivors, Ahead, Exchanged, Over, Miscounted,
         Durable, NoEmptyRecords, NoPins, OthersSame;
    ghost var v, o := hfs.store.view, hfs.Held();
    PageFacts(v.logical, hfs.filePtr, 1, chain, 0);
    FreshScan(hfs.Position(), pages);
    pages' := DeleteMatching(hfs, chain, pages);
    ghost var v1 := hfs.store.view;
    hfs.HoldingOfCore();
    WorkOver(b, v, [o], 0, v1, hfs.Held());
    assert [o][0 := hfs.Held()] == [] + [hfs.Held()];
    CloseLast(hfs, b, []);
    NothingOver(b, hfs.store.view);
    OthersSameTwice(v, v1, hfs.store.view, hfs.store.view, hfs.filePtr);
  }

  /** The filter of a deletion from relation `relation`, as it was declared. */
  function Condition(schema: Schema, relation: Bytes, attrName: Bytes, kind: Datatype, value: Bytes,
                     op: Operator): Filter
    requires attrName == [] || AttrIndex(schema, relation, attrName) >= 0
  {
    if attrName == [] then NoFilter
      else DeleteFilter(attrName, Declared(relation, schema[relation], AttrIndex(schema, relation, attrName)), kind,
                        value, op)
  }

  /** The relation has just been opened for a scan, on top of `b`. */
  ghost predicate JustOpened(hfs: HeapFile, x: HeapImage, b: Base)
    reads hfs, hfs.store, hfs.store.bm, hfs.store.bm.db, hfs.store.bm.hashTable, hfs.store.bm.hashTable.ht,
          hfs.store.bm.bufTable, hfs.store.bm.bufPool
  {
    && hfs.Valid(x.chain) && hfs.Shows(x.chain, x.pages) && hfs.filePtr == x.file && hfs.headerPageNo == 1 &&
       hfs.filter == Unfiltered
    && hfs.curPage && hfs.pos == 0 && hfs.curRec == NULLRID && Over(b, hfs.store.view, [hfs.Held()])
  }

  method OpenRelation(s: Store, f: int, ghost x: HeapImage, ghost b: Base) returns (hfs: HeapFile)
    requires s.Valid() && Stored(s.view, x) && x.file == f && f in s.bm.db.openCnt &&
             |s.view.pins| + 2 <= s.bm.numBufs && Over(b, s.view, [])
    modifies s.Repr(), s.bm.db
    ensures fresh(hfs) && hfs.store == s && JustOpened(hfs, x, b) && hfs.Others() == |old(s.view.pins)| + 1
    ensures s.view.logical == old(s.view.logical) && s.view.free == old(s.view.free)
    ensures s.bm.db.openCnt == old(s.bm.db.openCnt)[f := old(s.bm.db.openCnt)[f] + 1]
  {
    hide HeapAt, PagesOf, HeapFile.Valid, HeapFile.Fields, Store.Valid, Holding, Opened, Over, FramesFor;
    ghost var v := s.view;
    HeaderFacts(v.logical, f, 1, x.chain);
    OpenFits(v.pins, f, x.chain, s.bm.numBufs);
    hfs := new HeapFile.Open(s, f, false, x.chain);
    hfs.ValidParts(x.chain);
    OpenOver(b, v, [], s.view, hfs.Held());
    assert [] + [hfs.Held()] == [hfs.Held()];
  }

  /** Sets the filter of a scan just opened. The attribute is looked up while the relation is open. */
  method SetCondition(hfs: HeapFile, attrFile: int, relation: Bytes, attrName: Bytes, op: Operator, kind: Datatype,
                      value: Bytes,
                      ghost x: HeapImage, ghost attrs: HeapImage, ghost b: Base)
    returns (st: Status)
    requires JustOpened(hfs, x, b) && Reachable(hfs.store, attrs) && attrs.file == attrFile && attrName != []
    modifies hfs`filter, hfs.store.Repr(), hfs.store.bm.db
    ensures hfs.Valid(x.chain) && hfs.Shows(x.chain, x.pages) && hfs.Others() == old(hfs.Others()) &&
            Over(b, hfs.store.view, [hfs.Held()])
    ensures hfs.store.view.logical == old(hfs.store.view.logical) && hfs.store.view.free == old(hfs.store.view.free)
    ensures hfs.store.bm.db.openCnt == old(hfs.store.bm.db.openCnt)
    ensures var found := FirstOf(Tuples(attrs.pages, relation), AttrNameIs(attrName));
            && st == (if found.None? then ATTRNOTFOUND else OK)
            && (st == OK ==>
                Plain(hfs.filter) && hfs.Matches() ==
                Filtering(DeleteFilter(attrName, DescFrom(found.value), kind, value, op)))
  {
    hide HeapAt, PagesOf, HeapFile.Valid, HeapFile.Fields, Store.Valid, Holding, Over, Tuples, FirstOf, AttrNameIs,
         DescFrom, Filtering, Stored, Reachable;
    ghost var v := hfs.store.view;
    var row;
    hfs.ValidParts(x.chain);
    st, row := NamedTuple(hfs.store, attrFile, relation, attrName, attrs, b, [hfs.Held()]);
    Kept(hfs, x.chain, x.pages, v, b, [hfs.Held()], 0);
    if st != OK {
      return;
    }
    var attr := DescFrom(row);
    var ignored := hfs.StartScan(x.chain, attr.attrOffset, attr.attrLen, kind, Value(value), op);
    st := OK;
  }

  /** Opens a relation and sets the filter of a deletion. */
  method StartDelete(c: Catalogs, relation: Bytes, f: int, attrName: Bytes, op: Operator, kind: Datatype, value: Bytes,
                     ghost x: HeapImage, ghost b: Base)
    returns (st: Status, hfs: HeapFile)
    requires c.Valid() && IsName(relation) && Stored(c.store.view, x) && x.file == f && f in c.store.bm.db.openCnt &&
             f != c.attrFile
    requires |c.store.view.pins| + 4 <= c.store.bm.numBufs && Over(b, c.store.view, [])
    modifies c.store.Repr(), c.store.bm.db
    ensures fresh(hfs) && hfs.store == c.store && hfs.filePtr == f && hfs.headerPageNo == 1 && hfs.Valid(x.chain) &&
            hfs.Shows(x.chain, x.pages)
    ensures hfs.curPage && hfs.pos == 0 && hfs.curRec == NULLRID && hfs.Others() == |old(c.store.view.pins)| + 1 &&
            Over(b, c.store.view, [hfs.Held()])
    ensures c.store.view.logical == old(c.store.view.logical) && c.store.view.free == old(c.store.view.free)
    ensures c.store.bm.db.openCnt == old(c.store.bm.db.openCnt)[f := old(c.store.bm.db.openCnt)[f] + 1]
    ensures st == if attrName != [] && AttrIndex(c.schema, relation, attrName) < 0 then ATTRNOTFOUND else OK
    ensures st == OK ==>
              Plain(hfs.filter) && hfs.Matches() == Filtering(Condition(c.schema, relation, attrName, kind, value, op))
  {
    hide HeapFile.Valid, HeapFile.Shows, Store.Valid, Over, Tuples, FirstOf, AttrNameIs, DescFrom, Declared, Filtering,
         AttrIndex, Stored, Reachable, Writable, DeleteFilter, Consistent, NoEmptyRecords, AllEntries, HeapFile.Fields,
         HeapFile.Core, IsName;
    ghost var v := c.store.view;
    LookUpFinds(c, relation, attrName);
    StillReachable(c, v);
    hfs := OpenRelation(c.store, f, x, b);
    st := OK;
    if attrName != [] {
      AttrsReachable(hfs, c, v, x.chain);
      st := SetCondition(hfs, c.attrFile, relation, attrName, op, kind, value, x, c.attrs, b);
    }
  }

  lemma StillReachable(c: Catalogs, v: View)
    requires c.Usable() && v == c.store.view
    ensures Stored(v, c.attrs) && c.store.Valid() && c.attrs.file == c.attrFile &&
            c.attrFile in c.store.bm.db.openCnt && c.store.bm.db.openCnt[c.attrFile] >= 0
    ensures NoEmptyRecords(AllEntries(c.attrs.pages))
  {
    hide Store.Valid, Stored, NoEmptyRecords, AllEntries;
  }

  lemma AttrsReachable(hfs: HeapFile, c: Catalogs, v: View, chain: seq<int>)
    requires hfs.store == c.store && hfs.Valid(chain) && Stored(v, c.attrs) && c.store.view.logical == v.logical &&
             c.store.view.free == v.free
    requires c.attrs.file in c.store.bm.db.openCnt && c.store.bm.db.openCnt[c.attrs.file] >= 0 &&
             |c.store.view.pins| + 2 <= c.store.bm.numBufs
    requires NoEmptyRecords(AllEntries(c.attrs.pages))
    ensures Reachable(hfs.store, c.attrs)
  {
    hide HeapFile.Valid, Store.Valid, Stored, NoEmptyRecords, AllEntries;
    hfs.ValidParts(chain);
    SameStored(v, c.store.view, c.attrs);
  }

  /**
   Deletes the records of a relation that satisfy a condition. Every pin is given back; if nobody else has the relation
   open, the disk holds the outcome. If the relation has no such attribute the scan object is lost and with it two pins
   and the chance to close the file.
   */
  method QuDelete(c: Catalogs, relation: Bytes, f: int, attrName: Bytes, op: Operator, kind: Datatype, value: Bytes,
                  ghost x: HeapImage)
    returns (st: Status, ghost pages': seq<PageImage>, ghost lost: Hold)
    requires c.Valid() && IsName(relation) && Stored(c.store.view, x) && x.file == f && f in c.store.bm.db.openCnt &&
             c.store.bm.db.openCnt[f] >= 0
    requires f != c.relFile && f != c.attrFile && |c.store.view.pins| + 4 <= c.store.bm.numBufs
    modifies c.store.Repr(), c.store.bm.db
    ensures c.store.Valid() && OthersSame(old(c.store.view), c.store.view, f)
    ensures st == if Reserved(relation) then BADCATPARM
                  else if attrName != [] && AttrIndex(c.schema, relation, attrName) < 0 then ATTRNOTFOUND else OK
    ensures st == BADCATPARM ==>
              c.store.view == old(c.store.view) && c.store.bm.db.openCnt == old(c.store.bm.db.openCnt)
    ensures st == ATTRNOTFOUND ==>
              && c.store.view.logical == old(c.store.view.logical) &&
                 Over(Base(old(c.store.view.pins), old(c.store.view.owed)), c.store.view, [lost])
              && c.store.bm.db.openCnt == old(c.store.bm.db.openCnt)[f := old(c.store.bm.db.openCnt)[f] + 1]
    ensures st == OK ==>
              && c.Valid() && c.store.view.pins == old(c.store.view.pins) && c.store.view.owed == old(c.store.view.owed)
              && c.store.bm.db.openCnt == old(c.store.bm.db.openCnt)
              && Deleted(c.store.view.logical, f, x.chain, x.pages, pages',
                         Filtering(Condition(c.schema, relation, attrName, kind, value, op)))
              && (old(c.store.bm.db.openCnt)[f] == 0 && NoPins(old(c.store.view), f) ==>
                  Durable(c.store.bm.pool, c.store.view, f))
  {
    hide Store.Valid, HeapFile.Valid, HeapFile.Shows, Over, Stored, OthersSame, Deleted, Durable, Filtering, Reserved,
         Tuples, FirstOf, AttrNameIs, DescFrom, Declared, AttrIndex, Consistent, NoEmptyRecords, AllEntries,
         DeleteFilter, Condition, NoPins;
    var s := c.store;
    ghost var v, b := s.view, Base(s.view.pins, s.view.owed);
    OthersSameNow(v, f);
    lost := Hold(Key(f, 1), -1, false, false, Key(f, 1), -1, false);
    pages' := x.pages;
    if Reserved(relation) {
      return BADCATPARM, pages', lost;
    }
    s.DebtsWithinPins();
    OverItself(v);
    var hfs;
    st, hfs := StartDelete(c, relation, f, attrName, op, kind, value, x, b);
    ghost var v1 := s.view;
    OthersSameTwice(v, v, v1, v1, f);
    if st != OK {
      lost := hfs.Held();
      hfs.ValidParts(x.chain);
      return;
    }
    pages' := DeleteAndClose(hfs, x.chain, x.pages, b);
    OthersSameTwice(v, v1, v1, s.view, f);
    StoredSame(v, s.view, f, c.rels);
    StoredSame(v, s.view, f, c.attrs);
    SameNoPins(v, s.view, f);
    OpenThenClose(old(s.bm.db.openCnt), f);
  }
}
