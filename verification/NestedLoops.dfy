/** The nested loops join on heap files in the buffer pool. */
module NestedLoops {
  import opened Common
  import opened Compare
  import opened PageSpec
  import opened BufRefine
  import opened BufRuns
  import opened HeapSpec
  import opened Chain
  import opened Storage
  import opened HeapFile
  import opened QuerySpec
  import opened Session
  import opened Tandem
  import Query
  import CatalogSpec

  /** Copies the projected attributes into the output record. */
  method BuildRow(j: Join, outer: Bytes, inner: Bytes) returns (row: Bytes)
    ensures row == Row(j, |j.proj|, outer, inner) && |row| == RowLength(j.proj)
  {
    row := [];
    for i := 0 to |j.proj|
      invariant row == Row(j, i, outer, inner)
    {
      var a := j.proj[i];
      if a.relName == j.attr1.relName {
        row := row + Field(outer, a.attrOffset, a.attrLen);
      } else {
        row := row + Field(inner, a.attrOffset, a.attrLen);
      }
    }
    RowHasLength(j, |j.proj|, outer, inner);
    assert j.proj[..|j.proj|] == j.proj;
  }

  /** Output so far and output to come, while the inner relation is scanned. */
  ghost predicate Producing(j: Join, outer: Bytes, c: Cursor, pages: seq<PageImage>, m: Bytes -> bool, done: seq<Bytes>,
                            target: seq<Bytes>) {
    done + Rows(j, outer, Delivered(Ahead(c, pages), m)) == target
  }

  lemma InnerStep(j: Join, outer: Bytes, c: Cursor, c': Cursor, pages: seq<PageImage>, m: Bytes -> bool,
                  done: seq<Bytes>, target: seq<Bytes>, st: Status, rid: RID)
    requires Producing(j, outer, c, pages, m, done, target) && Found(st, rid, Skip(Ahead(c, pages), m), c', pages)
    ensures st == OK ==>
              && c'.pinned && c'.pos < |pages| && pages[c'.pos].Live(c'.slot) &&
                 pages[c'.pos].slots[c'.slot].bytes != []
              && |Ahead(c', pages)| < |Ahead(c, pages)|
              && Producing(j, outer, c', pages, m, done + [Row(j, |j.proj|, outer, pages[c'.pos].slots[c'.slot].bytes)],
                           target)
    ensures st != OK ==> done == target
  {
    hide Ahead, Row;
    var es := Ahead(c, pages);
    SkipShorter(es, m);
    var r := Skip(es, m);
    if st == OK {
      var d := Delivered(r[1..], m);
      assert ([r[0]] + d)[1..] == d;
      assert Rows(j, outer, [r[0]] + d) == [Row(j, |j.proj|, outer, r[0].bytes)] + Rows(j, outer, d);
    }
  }

  // ----- the outer record while the inner relation is scanned

  /** The object that holds `o` has the outer record pinned: `r` points at it and its bytes are `rec`. */
  ghost predicate OuterRecord(o: Hold, l: Logical, r: RecordPtr, rec: Bytes) {
    && o.Mine(r.page) > 0 && o.Pointer(r.page) == r.frame
    && r.page in l && l[r.page].DataPage? && l[r.page].page.Live(r.slot) && RecordAt(l, r) == rec
  }

  /** The filter of the inner scan: it points at the join attribute of the outer record. */
  function InnerScan(j: Join, r: RecordPtr): ScanFilter
    requires GoodInner(j)
  {
    Filtered(j.attr2.attrOffset, j.attr2.attrLen, j.attr2.attrType, Pointer(r, j.attr1.attrOffset), Mirrored(j.op))
  }

  lemma InnerMeaning(j: Join, r: RecordPtr, l: Logical, o: Hold, rec: Bytes)
    requires GoodInner(j) && OuterRecord(o, l, r, rec)
    ensures Meaning(InnerScan(j, r), l) == InnerFilter(j, rec)
  {
    hide Field;
  }

  /** As long as the outer scan keeps its page, the pointer is good for the inner scan. */
  lemma OuterPinned(b: Base, v: View, o: Hold, x: Hold, y: Hold, r: RecordPtr, rec: Bytes)
    requires Over(b, v, [o] + [x, y]) && OuterRecord(o, v.logical, r, rec)
    ensures PointsAt(v, y, r)
  {
    hide Over;
    PinnedByOther(b, v, [o] + [x, y], 2, 0, r.page);
  }

  /** Rows appended to another file leave the outer record as it is. */
  lemma OuterSame(v: View, w: View, f: int, o: Hold, r: RecordPtr, rec: Bytes)
    requires OuterRecord(o, v.logical, r, rec) && OthersSame(v, w, f) && r.page.file != f
    ensures OuterRecord(o, w.logical, r, rec)
  {
  }

  /** Appends the row for the outer record behind `r` and one inner record. */
  method EmitRow(inner: HeapFile, out: HeapFile, j: Join, r: RecordPtr, ghost rec: Bytes, innerRec: Bytes,
                 ghost b: Base, ghost o: Hold,
                 ghost chain2: seq<int>, ghost pages2: seq<PageImage>, ghost chain3: seq<int>,
                   ghost pages3: seq<PageImage>)
    returns (ghost chain3': seq<int>, ghost pages3': seq<PageImage>)
    requires inner != out && inner.store == out.store && inner.filePtr != out.filePtr && r.page.file != out.filePtr
    requires inner.Valid(chain2) && inner.Shows(chain2, pages2)
    requires out.Valid(chain3) && out.Shows(chain3, pages3) && out.inserting && out.curPage && out.pos == |chain3| - 1
    requires Over(b, inner.store.view, [o] + [out.Held(), inner.Held()]) &&
             OuterRecord(o, inner.store.view.logical, r, rec)
    requires |inner.store.view.pins| < inner.store.bm.numBufs && RowLength(j.proj) <= MAX_RECORD
    modifies out, inner.store.Repr(), inner.store.bm.db`files
    ensures inner.Valid(chain2) && inner.Shows(chain2, pages2)
    ensures out.Valid(chain3') && out.Shows(chain3', pages3') && out.curPage && out.pos == |chain3'| - 1
    ensures Over(b, inner.store.view, [o] + [out.Held(), inner.Held()]) &&
            |inner.store.view.pins| == |old(inner.store.view.pins)|
    ensures OuterRecord(o, inner.store.view.logical, r, rec) &&
            OthersSame(old(inner.store.view), inner.store.view, out.filePtr)
    ensures pages3 != [] && pages3' == InsertPages(pages3, Row(j, |j.proj|, rec, innerRec), out.curPageNo)
  {
    hide HeapAt, HeapFile.Core, HeapFile.Fields, HeapFile.Shows, OthersSame, Over, PagesOf, InsertPages, Store.Valid,
         Holding, Row, OuterRecord;
    ghost var v := inner.store.view;
    OuterPinned(b, v, o, out.Held(), inner.Held(), r, rec);
    OuterThere(o, v.logical, r, rec);
    inner.ValidParts(chain2);
    var outerRec := ReadRecord(inner.store, r);
    var row := BuildRow(j, outerRec, innerRec);
    chain3', pages3' := Emit(inner, out, b, [o], chain2, pages2, chain3, pages3, row);
    OuterSame(v, inner.store.view, out.filePtr, o, r, rec);
  }

  /**
   One turn of the inner loop. The outer record is read where it is, in the pool, for the filter and again for the
   row.
   */
  method InnerTurn(inner: HeapFile, out: HeapFile, j: Join, r: RecordPtr, ghost rec: Bytes, ghost b: Base,
                   ghost o: Hold,
                   ghost chain2: seq<int>, ghost pages2: seq<PageImage>, ghost chain3: seq<int>,
                     ghost pages3: seq<PageImage>)
    returns (st: Status, ghost found: Bytes, ghost rid: RID, ghost chain3': seq<int>, ghost pages3': seq<PageImage>)
    requires inner != out && inner.store == out.store && inner.filePtr != out.filePtr && r.page.file != out.filePtr
    requires inner.Valid(chain2) && inner.Shows(chain2, pages2) && inner.curPage
    requires out.Valid(chain3) && out.Shows(chain3, pages3) && out.inserting && out.curPage && out.pos == |chain3| - 1
    requires Over(b, inner.store.view, [o] + [out.Held(), inner.Held()]) &&
             OuterRecord(o, inner.store.view.logical, r, rec)
    requires |inner.store.view.pins| < inner.store.bm.numBufs && RowLength(j.proj) <= MAX_RECORD && pages3 != []
    requires GoodInner(j) && inner.filter == InnerScan(j, r)
    modifies inner, out, inner.store.Repr(), inner.store.bm.db`files
    ensures inner.Valid(chain2) && inner.Shows(chain2, pages2) && (st == OK ==> inner.curPage)
    ensures inner.filter == old(inner.filter) && inner.Others() == old(inner.Others())
    ensures out.Valid(chain3') && out.Shows(chain3', pages3') && out.curPage && out.pos == |chain3'| - 1
    ensures Over(b, inner.store.view, [o] + [out.Held(), inner.Held()]) &&
            OuterRecord(o, inner.store.view.logical, r, rec)
    ensures OthersSame(old(inner.store.view), inner.store.view, out.filePtr)
    ensures Found(st, rid, Skip(Ahead(old(inner.Position()), pages2), Filtering(InnerFilter(j, rec))), inner.Position(),
                  pages2)
    ensures st == OK ==>
              OnRecord(inner.Position(), pages2, found) &&
              pages3' == InsertPages(pages3, Row(j, |j.proj|, rec, found), out.curPageNo)
    ensures st != OK ==> chain3' == chain3 && pages3' == pages3
  {
    hide HeapAt, HeapFile.Valid, HeapFile.Core, HeapFile.Shows, OthersSame, Over, PagesOf, InsertPages, Exchanged,
         Store.Valid, Holding, Ahead, Skip, Found, Row, Meaning, Filtering, OuterRecord, OnRecord;
    ghost var v := inner.store.view;
    OuterPinned(b, v, o, out.Held(), inner.Held(), r, rec);
    InnerMeaning(j, r, v.logical, o, rec);
    chain3', pages3' := chain3, pages3;
    var innerRec;
    st, innerRec, rid := Fetch(inner, out, b, [o], chain2, pages2, chain3, pages3);
    found := innerRec;
    ghost var v1 := inner.store.view;
    OthersSameNow(v, out.filePtr);
    OthersSameTwice(v, v, v1, v1, out.filePtr);
    if st == OK {
      chain3', pages3' := EmitRow(inner, out, j, r, rec, innerRec, b, o, chain2, pages2, chain3, pages3);
      OthersSameTwice(v, v, v1, inner.store.view, out.filePtr);
    }
  }

  lemma OuterThere(o: Hold, l: Logical, r: RecordPtr, rec: Bytes)
    requires OuterRecord(o, l, r, rec)
    ensures RecordAt(l, r) == rec
  {
  }

  /** The inner loop: for one outer record, appends a row for every inner record the scan delivers. */
  method JoinInner(inner: HeapFile, out: HeapFile, j: Join, r: RecordPtr, ghost rec: Bytes, ghost b: Base,
                   ghost o: Hold,
                   ghost chain2: seq<int>, ghost pages2: seq<PageImage>, ghost chain3: seq<int>,
                     ghost pages3: seq<PageImage>)
    returns (ghost chain3': seq<int>, ghost pages3': seq<PageImage>, ghost nos: seq<int>)
    requires inner != out && inner.store == out.store && inner.filePtr != out.filePtr && r.page.file != out.filePtr
    requires inner.Valid(chain2) && inner.Shows(chain2, pages2) && inner.curPage
    requires out.Valid(chain3) && out.Shows(chain3, pages3) && out.inserting && out.curPage && out.pos == |chain3| - 1
    requires Over(b, inner.store.view, [o] + [out.Held(), inner.Held()]) &&
             OuterRecord(o, inner.store.view.logical, r, rec)
    requires |inner.store.view.pins| < inner.store.bm.numBufs && RowLength(j.proj) <= MAX_RECORD && pages3 != []
    requires GoodInner(j) && inner.filter == InnerScan(j, r)
    modifies inner, out, inner.store.Repr(), inner.store.bm.db`files
    ensures inner.Core() && inner.Others() == old(inner.Others())
    ensures out.Valid(chain3') && out.Shows(chain3', pages3') && out.curPage && out.pos == |chain3'| - 1
    ensures Over(b, inner.store.view, [o] + [out.Held(), inner.Held()]) &&
            OuterRecord(o, inner.store.view.logical, r, rec)
    ensures OthersSame(old(inner.store.view), inner.store.view, out.filePtr)
    ensures var rows := Rows(j, rec, Delivered(Ahead(old(inner.Position()), pages2), Filtering(InnerFilter(j, rec))));
            |rows| == |nos| && pages3' == InsertAll(pages3, rows, nos)
  {
    hide HeapAt, HeapFile.Valid, HeapFile.Core, HeapFile.Shows, OthersSame, Over, PagesOf, InsertPages, InsertAll,
         Exchanged, Store.Valid, Holding, Ahead, Skip, Found, Producing, Rows, Delivered, Row, Filtering, OuterRecord;
    ghost var m := Filtering(InnerFilter(j, rec));
    ghost var target := Rows(j, rec, Delivered(Ahead(inner.Position(), pages2), m));
    ghost var done: seq<Bytes> := [];
    chain3', pages3', nos := chain3, pages3, [];
    Starting(j, rec, inner.Position(), pages2, m, pages3);
    OthersSameNow(inner.store.view, out.filePtr);
    while true
      invariant inner.Valid(chain2) && inner.Shows(chain2, pages2) && inner.curPage
      invariant inner.filter == InnerScan(j, r) && inner.Others() == old(inner.Others())
      invariant out.Valid(chain3') && out.Shows(chain3', pages3') && out.curPage && out.pos == |chain3'| - 1
      invariant Over(b, inner.store.view, [o] + [out.Held(), inner.Held()]) &&
                OuterRecord(o, inner.store.view.logical, r, rec)
      invariant OthersSame(old(inner.store.view), inner.store.view, out.filePtr)
      invariant |done| == |nos| && pages3' == InsertAll(pages3, done, nos)
      invariant Producing(j, rec, inner.Position(), pages2, m, done, target)
      decreases |Ahead(inner.Position(), pages2)|
    {
      ghost var c, v := inner.Position(), inner.store.view;
      var st;
      ghost var found, rid;
      st, found, rid, chain3', pages3' := InnerTurn(inner, out, j, r, rec, b, o, chain2, pages2, chain3', pages3');
      InnerStep(j, rec, c, inner.Position(), pages2, m, done, target, st, rid);
      OthersSameTwice(old(inner.store.view), v, v, inner.store.view, out.filePtr);
      if st != OK {
        inner.CoreOf(chain2);
        return;
      }
      ghost var row := Row(j, |j.proj|, rec, found);
      InsertOne(pages3, done, nos, row, out.curPageNo);
      done, nos := done + [row], nos + [out.curPageNo];
    }
  }

  lemma Starting(j: Join, outer: Bytes, c: Cursor, pages: seq<PageImage>, m: Bytes -> bool, pages3: seq<PageImage>)
    requires pages3 != []
    ensures Producing(j, outer, c, pages, m, [], Rows(j, outer, Delivered(Ahead(c, pages), m))) &&
            InsertAll(pages3, [], []) == pages3
  {
    hide Ahead, Rows, Delivered;
  }

  /** The rows for one outer record. */
  function RowsFor(j: Join, outer: Bytes, inner: seq<Entry>): seq<Bytes>
    requires GoodInner(j)
  {
    Rows(j, outer, Delivered(inner, Filtering(InnerFilter(j, outer))))
  }

  /** Sets the filter for one outer record and runs the inner loop; the scan has just been opened. */
  method ScanInner(inner: HeapFile, out: HeapFile, j: Join, r: RecordPtr, ghost rec: Bytes, ghost b: Base,
                   ghost o: Hold,
                   ghost chain2: seq<int>, ghost pages2: seq<PageImage>,
                   ghost chain3: seq<int>, ghost pages3: seq<PageImage>)
    returns (st: Status, ghost chain3': seq<int>, ghost pages3': seq<PageImage>, ghost nos: seq<int>)
    requires inner != out && inner.store == out.store && inner.filePtr != out.filePtr && r.page.file != out.filePtr
    requires inner.Valid(chain2) && inner.Shows(chain2, pages2) && pages2 != []
    requires inner.curPage && inner.pos == 0 && inner.curRec == NULLRID && inner.curPageNo >= 0
    requires out.Valid(chain3) && out.Shows(chain3, pages3) && out.inserting && out.curPage && out.pos == |chain3| - 1
    requires Over(b, inner.store.view, [o] + [out.Held(), inner.Held()]) &&
             OuterRecord(o, inner.store.view.logical, r, rec)
    requires |inner.store.view.pins| < inner.store.bm.numBufs && RowLength(j.proj) <= MAX_RECORD && pages3 != []
    modifies inner, out, inner.store.Repr(), inner.store.bm.db`files
    ensures inner.Core() && inner.Others() == old(inner.Others())
    ensures out.Valid(chain3') && out.Shows(chain3', pages3') && out.curPage && out.pos == |chain3'| - 1
    ensures Over(b, inner.store.view, [o] + [out.Held(), inner.Held()]) &&
            OuterRecord(o, inner.store.view.logical, r, rec)
    ensures OthersSame(old(inner.store.view), inner.store.view, out.filePtr)
    ensures st == if GoodInner(j) then OK else BADSCANPARM
    ensures st == OK ==>
              |nos| == |RowsFor(j, rec, AllEntries(pages2))| &&
              pages3' == InsertAll(pages3, RowsFor(j, rec, AllEntries(pages2)), nos)
    ensures st != OK ==> pages3' == pages3
  {
    hide HeapAt, HeapFile.Valid, HeapFile.Core, HeapFile.Fields, OthersSame, Over, PagesOf, InsertAll, Store.Valid,
         Ahead, Rows, Delivered, Filtering, AllEntries, OuterRecord;
    out.ValidParts(chain3);
    st := inner.StartScan(chain2, j.attr2.attrOffset, j.attr2.attrLen, j.attr2.attrType, Pointer(r, j.attr1.attrOffset),
                          Mirrored(j.op));
    out.ValidParts(chain3);
    chain3', pages3', nos := chain3, pages3, [];
    OthersSameNow(inner.store.view, out.filePtr);
    inner.CoreOf(chain2);
    if st == OK {
      Query.FreshScan(inner.Position(), pages2);
      chain3', pages3', nos := JoinInner(inner, out, j, r, rec, b, o, chain2, pages2, chain3, pages3);
    }
  }

  /** Scans the inner relation for one outer record. */
  method JoinRecord(s: Store, f2: int, out: HeapFile, j: Join, r: RecordPtr, ghost rec: Bytes, ghost b: Base,
                    ghost o: Hold,
                   ghost chain2: seq<int>, ghost pages2: seq<PageImage>,
                    ghost chain3: seq<int>, ghost pages3: seq<PageImage>)
    returns (st: Status, ghost chain3': seq<int>, ghost pages3': seq<PageImage>, ghost nos: seq<int>)
    requires s.Valid() && f2 in s.view.free && f2 in s.bm.db.openCnt && s.bm.db.openCnt[f2] >= 0 && f2 != out.filePtr &&
             r.page.file != out.filePtr
    requires HeapAt(s.view.logical, f2, 1, chain2) && pages2 == PagesOf(s.view.logical, f2, chain2)
    requires out.store == s && out.Valid(chain3) && out.Shows(chain3, pages3) && out.inserting && out.curPage &&
             out.pos == |chain3| - 1
    requires Over(b, s.view, [o] + [out.Held()]) && OuterRecord(o, s.view.logical, r, rec) &&
             |s.view.pins| + 3 <= s.bm.numBufs && RowLength(j.proj) <= MAX_RECORD && pages3 != []
    modifies out, s.Repr(), s.bm.db
    ensures out.Valid(chain3') && out.Shows(chain3', pages3') && out.curPage && out.pos == |chain3'| - 1
    ensures Over(b, s.view, [o] + [out.Held()]) && OuterRecord(o, s.view.logical, r, rec) &&
            |s.view.pins| == |old(s.view.pins)|
    ensures OthersSame(old(s.view), s.view, out.filePtr) && s.bm.db.openCnt == old(s.bm.db.openCnt)
    ensures st == if GoodInner(j) then OK else BADSCANPARM
    ensures st == OK ==>
              |nos| == |RowsFor(j, rec, AllEntries(pages2))| &&
              pages3' == InsertAll(pages3, RowsFor(j, rec, AllEntries(pages2)), nos)
    ensures st != OK ==> pages3' == pages3
  {
    hide HeapAt, HeapFile.Valid, HeapFile.Core, HeapFile.Shows, OthersSame, Over, PagesOf, InsertAll, Store.Valid,
         RowsFor, Filtering, AllEntries, OuterRecord;
    ghost var v := s.view;
    var inner := OpenReader(s, f2, out, b, [o], chain2, chain3, pages3);
    ShowsSame(inner, chain2, pages2, v);
    ghost var v0 := s.view;
    st, chain3', pages3', nos := ScanInner(inner, out, j, r, rec, b, o, chain2, pages2, chain3, pages3);
    ghost var v1 := s.view;
    CloseReader(inner, out, b, [o], chain3', pages3');
    OthersSameNow(v, out.filePtr);
    OthersSameTwice(v, v, v0, v1, out.filePtr);
    OthersSameTwice(v, v1, s.view, s.view, out.filePtr);
    OpenThenClose(old(s.bm.db.openCnt), f2);
  }

  /** The output for these outer records; nothing if the inner scan cannot be started. */
  function Output(j: Join, outers: seq<Entry>, inner: seq<Entry>): seq<Bytes> {
    if GoodInner(j) then JoinRows(j, outers, inner) else []
  }

  /** Output so far and output to come, while the outer relation is scanned. */
  ghost predicate Joining(j: Join, c: Cursor, pages: seq<PageImage>, m: Bytes -> bool, inner: seq<Entry>,
                          done: seq<Bytes>, target: seq<Bytes>) {
    done + Output(j, Delivered(Ahead(c, pages), m), inner) == target
  }

  lemma OuterStep(j: Join, c: Cursor, c': Cursor, pages: seq<PageImage>, m: Bytes -> bool, inner: seq<Entry>,
                  done: seq<Bytes>, target: seq<Bytes>, st: Status, rid: RID)
    requires Joining(j, c, pages, m, inner, done, target) && Found(st, rid, Skip(Ahead(c, pages), m), c', pages)
    ensures st == OK <==> Delivered(Ahead(c, pages), m) != []
    ensures st == OK ==>
              && c'.pinned && c'.pos < |pages| && pages[c'.pos].Live(c'.slot) && |Ahead(c', pages)| < |Ahead(c, pages)|
              && (GoodInner(j) ==>
                  Joining(j, c', pages, m, inner, done + RowsFor(j, pages[c'.pos].slots[c'.slot].bytes, inner), target))
    ensures st != OK || !GoodInner(j) ==> done == target
  {
    hide Ahead, Rows;
    var es := Ahead(c, pages);
    SkipShorter(es, m);
    var r := Skip(es, m);
    if st == OK {
      var d := Delivered(r[1..], m);
      assert ([r[0]] + d)[1..] == d;
    }
  }

  lemma JoiningStarts(j: Join, c: Cursor, pages: seq<PageImage>, m: Bytes -> bool, inner: seq<Entry>,
                      pages3: seq<PageImage>)
    requires pages3 != []
    ensures Joining(j, c, pages, m, inner, [], Output(j, Delivered(Ahead(c, pages), m), inner)) &&
            InsertAll(pages3, [], []) == pages3
  {
    hide Ahead, Delivered, Output;
  }

  lemma Swapped(b: Base, v: View, x: Hold, y: Hold)
    requires Over(b, v, [x, y])
    ensures Over(b, v, [y, x])
  {
    forall k ensures OverAt(b, v, [y, x], k) {
      assert OverAt(b, v, [x, y], k);
      Replaced([x, y], 0, y, k);
      Replaced([y, y], 1, x, k);
      assert [x, y][0 := y] == [y, y] && [y, y][1 := x] == [y, x];
    }
  }

  /** The current record of a scan, as a pointer into the pool. */
  lemma CurrentRecord(hf: HeapFile, chain: seq<int>, pages: seq<PageImage>, rec: Bytes)
    requires hf.Valid(chain) && hf.Shows(chain, pages) && hf.curPage && OnRecord(hf.Position(), pages, rec)
    ensures OuterRecord(hf.Held(), hf.store.view.logical, hf.Under(), rec)
  {
    hide HeapAt, Store.Valid, Holding;
    PageFacts(hf.store.view.logical, hf.filePtr, hf.headerPageNo, chain, hf.pos);
  }

  /** Joins one outer record, whose scan goes on afterwards. */
  method JoinFor(s: Store, f2: int, outer: HeapFile, out: HeapFile, j: Join, ghost rec: Bytes, ghost chain1: seq<int>,
                 ghost pages1: seq<PageImage>,
                 ghost chain2: seq<int>, ghost pages2: seq<PageImage>, ghost chain3: seq<int>,
                   ghost pages3: seq<PageImage>, ghost v0: View, ghost b: Base)
    returns (st: Status, ghost chain3': seq<int>, ghost pages3': seq<PageImage>, ghost nos: seq<int>)
    requires outer != out && outer.store == out.store == s && outer.filePtr != out.filePtr && f2 != out.filePtr
    requires f2 in v0.free && f2 in s.bm.db.openCnt && s.bm.db.openCnt[f2] >= 0 && OthersSame(v0, s.view, out.filePtr)
    requires HeapAt(v0.logical, f2, 1, chain2) && pages2 == PagesOf(v0.logical, f2, chain2)
    requires outer.Valid(chain1) && outer.Shows(chain1, pages1) && outer.curPage
    requires OnRecord(outer.Position(), pages1, rec)
    requires out.Valid(chain3) && out.Shows(chain3, pages3) && out.inserting && out.curPage && out.pos == |chain3| - 1
    requires Over(b, s.view, [out.Held(), outer.Held()]) && |s.view.pins| + 3 <= s.bm.numBufs &&
             RowLength(j.proj) <= MAX_RECORD && pages3 != []
    modifies out, s.Repr(), s.bm.db
    ensures outer.Valid(chain1) && outer.Shows(chain1, pages1)
    ensures out.Valid(chain3') && out.Shows(chain3', pages3') && out.curPage && out.pos == |chain3'| - 1
    ensures Over(b, s.view, [out.Held(), outer.Held()]) && |s.view.pins| == |old(s.view.pins)|
    ensures OthersSame(v0, s.view, out.filePtr) && s.bm.db.openCnt == old(s.bm.db.openCnt)
    ensures st == if GoodInner(j) then OK else BADSCANPARM
    ensures st == OK ==>
              |nos| == |RowsFor(j, rec, AllEntries(pages2))| &&
              pages3' == InsertAll(pages3, RowsFor(j, rec, AllEntries(pages2)), nos)
    ensures st != OK ==> pages3' == pages3
  {
    hide HeapAt, HeapFile.Valid, HeapFile.Fields, OthersSame, Over, PagesOf, InsertAll, Store.Valid, Holding, RowsFor,
         AllEntries, OuterRecord;
    ghost var v := s.view;
    outer.ValidParts(chain1);
    FileSame(v0, v, out.filePtr, f2, chain2, pages2);
    Swapped(b, v, out.Held(), outer.Held());
    assert [outer.Held()] + [out.Held()] == [outer.Held(), out.Held()];
    var r := outer.Under();
    CurrentRecord(outer, chain1, pages1, rec);
    st, chain3', pages3', nos := JoinRecord(s, f2, out, j, r, rec, b, outer.Held(), chain2, pages2, chain3, pages3);
    assert [outer.Held()] + [out.Held()] == [outer.Held(), out.Held()];
    out.ValidParts(chain3');
    Revalidated(outer, chain1, pages1, v, out.filePtr, b, [outer.Held(), out.Held()], 0);
    Swapped(b, s.view, outer.Held(), out.Held());
    OthersSameTwice(v0, v, v, s.view, out.filePtr);
  }

  lemma UnfilteredReady(v: View, o: Hold)
    ensures Ready(v, o, Unfiltered) && Meaning(Unfiltered, v.logical) == NoFilter
  {
  }

  /** One turn of the outer loop; `fetched` is the status of the outer scan. */
  method OuterTurn(s: Store, f2: int, outer: HeapFile, out: HeapFile, j: Join, ghost chain1: seq<int>,
                   ghost pages1: seq<PageImage>,
                   ghost chain2: seq<int>, ghost pages2: seq<PageImage>, ghost chain3: seq<int>,
                     ghost pages3: seq<PageImage>, ghost v0: View, ghost b: Base)
    returns (fetched: Status, st: Status, rec: Bytes, ghost rid: RID, ghost chain3': seq<int>,
             ghost pages3': seq<PageImage>, ghost nos: seq<int>)
    requires outer != out && outer.store == out.store == s && outer.filePtr != out.filePtr && f2 != out.filePtr
    requires f2 in v0.free && f2 in s.bm.db.openCnt && s.bm.db.openCnt[f2] >= 0 && OthersSame(v0, s.view, out.filePtr)
    requires HeapAt(v0.logical, f2, 1, chain2) && pages2 == PagesOf(v0.logical, f2, chain2)
    requires outer.Valid(chain1) && outer.Shows(chain1, pages1) && outer.curPage && outer.filter == Unfiltered
    requires out.Valid(chain3) && out.Shows(chain3, pages3) && out.inserting && out.curPage && out.pos == |chain3| - 1
    requires Over(b, s.view, [out.Held(), outer.Held()]) && |s.view.pins| + 3 <= s.bm.numBufs &&
             RowLength(j.proj) <= MAX_RECORD && pages3 != []
    modifies outer, out, s.Repr(), s.bm.db
    ensures outer.Valid(chain1) && outer.Shows(chain1, pages1) && (fetched == OK ==> outer.curPage)
    ensures outer.filter == Unfiltered && outer.Others() == old(outer.Others())
    ensures out.Valid(chain3') && out.Shows(chain3', pages3') && out.curPage && out.pos == |chain3'| - 1
    ensures Over(b, s.view, [out.Held(), outer.Held()])
    ensures OthersSame(v0, s.view, out.filePtr) && s.bm.db.openCnt == old(s.bm.db.openCnt)
    ensures Found(fetched, rid, Skip(Ahead(old(outer.Position()), pages1), Filtering(NoFilter)), outer.Position(),
                  pages1)
    ensures st == if fetched != OK || GoodInner(j) then OK else BADSCANPARM
    ensures fetched == OK ==> OnRecord(outer.Position(), pages1, rec)
    ensures fetched == OK && st == OK ==>
              |nos| == |RowsFor(j, rec, AllEntries(pages2))| &&
                pages3' == InsertAll(pages3, RowsFor(j, rec, AllEntries(pages2)), nos)
    ensures fetched != OK || st != OK ==> pages3' == pages3
  {
    hide HeapAt, HeapFile.Valid, HeapFile.Core, HeapFile.Shows, HeapFile.Fields, OthersSame, Over, PagesOf, InsertAll,
         Store.Valid, RowsFor, AllEntries, Ahead, Found, Skip, Filtering, Holding, OnRecord, Ready, Meaning;
    ghost var v := s.view;
    UnfilteredReady(v, outer.Held());
    assert [] + [out.Held(), outer.Held()] == [out.Held(), outer.Held()];
    fetched, rec, rid := Fetch(outer, out, b, [], chain1, pages1, chain3, pages3);
    assert [] + [out.Held(), outer.Held()] == [out.Held(), outer.Held()];
    OthersSameTwice(v0, v, s.view, s.view, out.filePtr);
    st, chain3', pages3', nos := OK, chain3, pages3, [];
    if fetched == OK {
      st, chain3', pages3', nos := JoinFor(s, f2, outer, out, j, rec, chain1, pages1, chain2, pages2, chain3, pages3,
                                           v0, b);
    }
  }

  /** The outer loop. It ends with the outer relation, or at once if the inner scan cannot be started. */
  method JoinOuter(s: Store, f2: int, outer: HeapFile, out: HeapFile, j: Join, ghost chain1: seq<int>,
                   ghost pages1: seq<PageImage>,
                   ghost chain2: seq<int>, ghost pages2: seq<PageImage>, ghost chain3: seq<int>,
                     ghost pages3: seq<PageImage>,
                   ghost outers: seq<Entry>, ghost b: Base)
    returns (st: Status, ghost chain3': seq<int>, ghost pages3': seq<PageImage>, ghost nos: seq<int>)
    requires outer != out && outer.store == out.store == s && outer.filePtr != out.filePtr && f2 != out.filePtr
    requires f2 in s.view.free && f2 in s.bm.db.openCnt && s.bm.db.openCnt[f2] >= 0
    requires HeapAt(s.view.logical, f2, 1, chain2) && pages2 == PagesOf(s.view.logical, f2, chain2)
    requires outer.Valid(chain1) && outer.Shows(chain1, pages1) && outer.curPage && outer.filter == Unfiltered
    requires out.Valid(chain3) && out.Shows(chain3, pages3) && out.inserting && out.curPage && out.pos == |chain3| - 1
    requires Over(b, s.view, [out.Held(), outer.Held()]) && |s.view.pins| + 3 <= s.bm.numBufs &&
             RowLength(j.proj) <= MAX_RECORD && pages3 != []
    requires outers == Delivered(Ahead(outer.Position(), pages1), Filtering(NoFilter))
    modifies outer, out, s.Repr(), s.bm.db
    ensures outer.Core() && outer.Others() == old(outer.Others())
    ensures out.Valid(chain3') && out.Shows(chain3', pages3') && Over(b, s.view, [out.Held(), outer.Held()])
    ensures OthersSame(old(s.view), s.view, out.filePtr) && s.bm.db.openCnt == old(s.bm.db.openCnt)
    ensures st == if GoodInner(j) || outers == [] then OK else BADSCANPARM
    ensures |nos| == |Output(j, outers, AllEntries(pages2))| &&
            pages3' == InsertAll(pages3, Output(j, outers, AllEntries(pages2)), nos)
  {
    hide HeapAt, HeapFile.Valid, HeapFile.Core, HeapFile.Shows, HeapFile.Fields, OthersSame, Over, PagesOf, InsertAll,
         Store.Valid, RowsFor, Filtering, AllEntries, Ahead, Delivered, Output, Joining, Found, Skip;
    ghost var m, inner := Filtering(NoFilter), AllEntries(pages2);
    ghost var c0, v0 := outer.Position(), s.view;
    ghost var target := Output(j, outers, inner);
    ghost var done: seq<Bytes> := [];
    st, chain3', pages3', nos := OK, chain3, pages3, [];
    JoiningStarts(j, c0, pages1, m, inner, pages3);
    OthersSameNow(v0, out.filePtr);
    while true
      invariant outer.Valid(chain1) && outer.Shows(chain1, pages1) && outer.curPage
      invariant outer.filter == Unfiltered && outer.Others() == old(outer.Others())
      invariant out.Valid(chain3') && out.Shows(chain3', pages3') && out.curPage && out.pos == |chain3'| - 1
      invariant Over(b, s.view, [out.Held(), outer.Held()])
      invariant OthersSame(v0, s.view, out.filePtr) && s.bm.db.openCnt == old(s.bm.db.openCnt)
      invariant |done| == |nos| && pages3' == InsertAll(pages3, done, nos)
      invariant Joining(j, outer.Position(), pages1, m, inner, done, target)
      invariant !GoodInner(j) ==> outer.Position() == c0
      decreases |Ahead(outer.Position(), pages1)|
    {
      ghost var c := outer.Position();
      var fetched, rec;
      ghost var rid, nos1;
      fetched, st, rec, rid, chain3', pages3',
        nos1 := OuterTurn(s, f2, outer, out, j, chain1, pages1, chain2, pages2, chain3', pages3', v0, b);
      OuterStep(j, c, outer.Position(), pages1, m, inner, done, target, fetched, rid);
      if fetched != OK || st != OK {
        outer.CoreOf(chain1);
        return;
      }
      InsertAllConcat(pages3, done, nos, RowsFor(j, rec, inner), nos1);
      done, nos := done + RowsFor(j, rec, inner), nos + nos1;
    }
  }

  /** What the join does to the result file `f3`, whose records were those of `pages3`. */
  ghost predicate Appended(l: Logical, f3: int, chain3': seq<int>, pages3: seq<PageImage>, pages3': seq<PageImage>,
                           rows: seq<Bytes>, nos: seq<int>)
    requires pages3 != []
  {
    && HeapAt(l, f3, 1, chain3') && pages3' == PagesOf(l, f3, chain3')
    && |rows| == |nos| && pages3' == InsertAll(pages3, rows, nos)
  }

  /** The outer scan from beginning to end, with the result open. */
  method JoinInto(s: Store, f1: int, f2: int, out: HeapFile, j: Join, ghost b: Base, ghost chain1: seq<int>,
                  ghost pages1: seq<PageImage>,
                  ghost chain2: seq<int>, ghost pages2: seq<PageImage>, ghost chain3: seq<int>,
                    ghost pages3: seq<PageImage>)
    returns (st: Status, ghost chain3': seq<int>, ghost pages3': seq<PageImage>, ghost nos: seq<int>)
    requires f1 != out.filePtr && f2 != out.filePtr && s.Valid()
    requires f1 in s.view.free && f1 in s.bm.db.openCnt && s.bm.db.openCnt[f1] >= 0
    requires f2 in s.view.free && f2 in s.bm.db.openCnt && s.bm.db.openCnt[f2] >= 0
    requires HeapAt(s.view.logical, f1, 1, chain1) && pages1 == PagesOf(s.view.logical, f1, chain1)
    requires HeapAt(s.view.logical, f2, 1, chain2) && pages2 == PagesOf(s.view.logical, f2, chain2)
    requires out.store == s && out.Valid(chain3) && out.Shows(chain3, pages3) && out.inserting && out.curPage &&
             out.pos == |chain3| - 1
    requires Over(b, s.view, [out.Held()]) && |s.view.pins| + 5 <= s.bm.numBufs && RowLength(j.proj) <= MAX_RECORD &&
             pages3 != []
    modifies out, s.Repr(), s.bm.db
    ensures out.Valid(chain3') && out.Shows(chain3', pages3') && Over(b, s.view, [out.Held()])
    ensures OthersSame(old(s.view), s.view, out.filePtr) && s.bm.db.openCnt == old(s.bm.db.openCnt)
    ensures var outers := Delivered(AllEntries(pages1), Filtering(NoFilter));
            && st == (if GoodInner(j) || outers == [] then OK else BADSCANPARM)
            && |nos| == |Output(j, outers, AllEntries(pages2))| &&
               pages3' == InsertAll(pages3, Output(j, outers, AllEntries(pages2)), nos)
  {
    hide HeapAt, HeapFile.Valid, HeapFile.Core, HeapFile.Shows, OthersSame, Over, PagesOf, InsertAll, Store.Valid,
         Filtering, AllEntries, Ahead, Delivered, Output;
    ghost var v := s.view;
    assert [] + [out.Held()] == [out.Held()];
    var outer := OpenReader(s, f1, out, b, [], chain1, chain3, pages3);
    ShowsSame(outer, chain1, pages1, v);
    Query.FreshScan(outer.Position(), pages1);
    assert [] + [out.Held(), outer.Held()] == [out.Held(), outer.Held()];
    ghost var v0 := s.view;
    ghost var outers := Delivered(AllEntries(pages1), Filtering(NoFilter));
    st, chain3', pages3', nos := JoinOuter(s, f2, outer, out, j, chain1, pages1, chain2, pages2, chain3, pages3, outers,
                                           b);
    assert [] + [out.Held(), outer.Held()] == [out.Held(), outer.Held()];
    ghost var v1 := s.view;
    CloseReader(outer, out, b, [], chain3', pages3');
    assert [] + [out.Held()] == [out.Held()];
    OthersSameNow(v, out.filePtr);
    OthersSameTwice(v, v, v0, v1, out.filePtr);
    OthersSameTwice(v, v1, s.view, s.view, out.filePtr);
    OpenThenClose(old(s.bm.db.openCnt), f1);
  }

  /**
   The nested loops join of two relations into a third. The rows are appended in the order of the loops;
   every pin is given back, and if nobody else has the result open it ends up on disk.
   */
  method JoinFiles(s: Store, f1: int, f2: int, f3: int, j: Join,
                   ghost chain1: seq<int>, ghost pages1: seq<PageImage>, ghost chain2: seq<int>,
                     ghost pages2: seq<PageImage>,
                   ghost chain3: seq<int>, ghost pages3: seq<PageImage>)
    returns (st: Status, ghost chain3': seq<int>, ghost pages3': seq<PageImage>, ghost nos: seq<int>)
    requires s.Valid() && f1 != f3 && f2 != f3 && {f1, f2, f3} <= s.view.free.Keys
    requires forall f :: f in {f1, f2, f3} ==> f in s.bm.db.openCnt && s.bm.db.openCnt[f] >= 0
    requires HeapAt(s.view.logical, f1, 1, chain1) && pages1 == PagesOf(s.view.logical, f1, chain1)
    requires HeapAt(s.view.logical, f2, 1, chain2) && pages2 == PagesOf(s.view.logical, f2, chain2)
    requires HeapAt(s.view.logical, f3, 1, chain3) && pages3 == PagesOf(s.view.logical, f3, chain3)
    requires |s.view.pins| + 7 <= s.bm.numBufs && RowLength(j.proj) <= MAX_RECORD
    modifies s.Repr(), s.bm.db
    ensures s.Valid() && s.view.pins == old(s.view.pins) && s.view.owed == old(s.view.owed)
    ensures s.bm.db.openCnt == old(s.bm.db.openCnt) && OthersSame(old(s.view), s.view, f3)
    ensures var outers := Delivered(AllEntries(pages1), Filtering(NoFilter));
            && pages3 != [] && st == (if GoodInner(j) || outers == [] then OK else BADSCANPARM)
            && Appended(s.view.logical, f3, chain3', pages3, pages3', Output(j, outers, AllEntries(pages2)), nos)
    ensures old(s.bm.db.openCnt)[f3] == 0 && Query.NoPins(old(s.view), f3) ==> Durable(s.bm.pool, s.view, f3)
  {
    hide HeapAt, HeapFile.Valid, HeapFile.Core, OthersSame, Over, PagesOf, InsertAll, Store.Valid, Filtering,
         AllEntries, Delivered, Output, Durable;
    OthersSameNow(s.view, f3);
    ghost var v, b := s.view, Base(s.view.pins, s.view.owed);
    s.DebtsWithinPins();
    OverItself(v);
    var out := OpenForInsert(s, f3, b, [], chain3, pages3);
    assert [] + [out.Held()] == [out.Held()];
    out.ValidParts(chain3);
    ghost var v0 := s.view;
    st, chain3', pages3', nos := JoinInto(s, f1, f2, out, j, b, chain1, pages1, chain2, pages2, chain3, pages3);
    ghost var v1 := s.view;
    out.CoreOf(chain3');
    assert [] + [out.Held()] == [out.Held()];
    CloseLast(out, b, []);
    NothingOver(b, s.view);
    OthersSameTwice(v, v, v0, v1, f3);
    OthersSameTwice(v, v1, s.view, s.view, f3);
    OpenThenClose(old(s.bm.db.openCnt), f3);
  }

  // ----- the result

  lemma {:induction false} PairLengths(j: Join, outer: Bytes, inner: seq<Entry>, i: nat)
    requires GoodJoin(j) && i < |Pairs(j, outer, inner)|
    ensures |Pairs(j, outer, inner)[i]| == RowLength(j.proj)
  {
    if inner != [] {
      RowHasLength(j, |j.proj|, outer, inner[0].bytes);
      assert j.proj[..|j.proj|] == j.proj;
      if !Joins(j, outer, inner[0].bytes) {
        PairLengths(j, outer, inner[1..], i);
      } else if i > 0 {
        PairLengths(j, outer, inner[1..], i - 1);
      }
    }
  }

  lemma {:induction false} AllPairLengths(j: Join, outers: seq<Entry>, inner: seq<Entry>, i: nat)
    requires GoodJoin(j) && i < |AllPairs(j, outers, inner)|
    ensures |AllPairs(j, outers, inner)[i]| == RowLength(j.proj)
  {
    if outers != [] {
      var n := |Pairs(j, outers[0].bytes, inner)|;
      if i < n {
        PairLengths(j, outers[0].bytes, inner, i);
      } else {
        AllPairLengths(j, outers[1..], inner, i - n);
      }
    }
  }

  /**
   A scan of the result finds the old records and then the join: for every outer record in scan order its
   joining inner records in scan order. The result must have no hole in front of its last record.
   */
  lemma JoinResult(j: Join, pages1: seq<PageImage>, pages2: seq<PageImage>, pages3: seq<PageImage>,
                   pages3': seq<PageImage>, nos: seq<int>, k: nat)
    requires GoodJoin(j) && RowLength(j.proj) <= MAX_RECORD && NoEmptyRecords(AllEntries(pages1)) &&
             NoEmptyRecords(AllEntries(pages2))
    requires forall o, i :: 0 <= o < |AllEntries(pages1)| && 0 <= i < |AllEntries(pages2)| ==>
               Joinable(j, AllEntries(pages1)[o].bytes, AllEntries(pages2)[i].bytes)
    requires pages3 != [] && NothingBehind(pages3, k, Filtering(NoFilter))
    requires var rows := Output(j, Delivered(AllEntries(pages1), Filtering(NoFilter)), AllEntries(pages2));
             |rows| == |nos| && pages3' == InsertAll(pages3, rows, nos)
    ensures BytesOf(AllEntries(pages3')) ==
            BytesOf(AllEntries(pages3)) + AllPairs(j, AllEntries(pages1), AllEntries(pages2))
  {
    hide AllEntries, InsertAll, NothingBehind, Joinable, AllPairs, JoinRows, BytesOf;
    var outers, inner, all := AllEntries(pages1), AllEntries(pages2), Filtering(NoFilter);
    DeliveredIsMatching(outers, all);
    AllMatch(outers);
    NestedLoopsJoin(j, outers, inner);
    var rows := AllPairs(j, outers, inner);
    forall i | 0 <= i < |rows| ensures |rows[i]| <= MAX_RECORD && all(rows[i]) {
      AllPairLengths(j, outers, inner, i);
    }
    InsertedInOrder(pages3, rows, nos, all, k);
    AllMatch(AllEntries(pages3));
    AllMatch(AllEntries(pages3'));
  }

  /** Whatever holes the result has, its records are afterwards the old ones and the join. */
  lemma JoinAdds(j: Join, pages1: seq<PageImage>, pages2: seq<PageImage>, pages3: seq<PageImage>,
                 pages3': seq<PageImage>, nos: seq<int>)
    requires GoodJoin(j) && RowLength(j.proj) <= MAX_RECORD && NoEmptyRecords(AllEntries(pages1)) &&
             NoEmptyRecords(AllEntries(pages2))
    requires forall o, i :: 0 <= o < |AllEntries(pages1)| && 0 <= i < |AllEntries(pages2)| ==>
               Joinable(j, AllEntries(pages1)[o].bytes, AllEntries(pages2)[i].bytes)
    requires pages3 != []
    requires var rows := Output(j, Delivered(AllEntries(pages1), Filtering(NoFilter)), AllEntries(pages2));
             |rows| == |nos| && pages3' == InsertAll(pages3, rows, nos)
    ensures multiset(BytesOf(AllEntries(pages3'))) ==
            multiset(BytesOf(AllEntries(pages3))) + multiset(AllPairs(j, AllEntries(pages1), AllEntries(pages2)))
  {
    hide AllEntries, InsertAll, Joinable, AllPairs, JoinRows, BytesOf;
    var outers, inner, all := AllEntries(pages1), AllEntries(pages2), Filtering(NoFilter);
    DeliveredIsMatching(outers, all);
    AllMatch(outers);
    NestedLoopsJoin(j, outers, inner);
    var rows := AllPairs(j, outers, inner);
    forall i | 0 <= i < |rows| ensures |rows[i]| <= MAX_RECORD {
      AllPairLengths(j, outers, inner, i);
    }
    InsertAllAdds(pages3, rows, nos);
  }

  lemma {:induction false} InsertAllAdds(pages: seq<PageImage>, recs: seq<Bytes>, nos: seq<int>)
    requires pages != [] && |recs| == |nos| && forall i :: 0 <= i < |recs| ==> |recs[i]| <= MAX_RECORD
    ensures multiset(BytesOf(AllEntries(InsertAll(pages, recs, nos)))) ==
            multiset(BytesOf(AllEntries(pages))) + multiset(recs)
    decreases |recs|
  {
    hide AllEntries, InsertPages, BytesOf;
    if recs != [] {
      CatalogSpec.InsertElsewhere(pages, recs[0], nos[0], Filtering(NoFilter));
      InsertAllAdds(InsertPages(pages, recs[0], nos[0]), recs[1..], nos[1..]);
      assert recs == [recs[0]] + recs[1..];
    }
  }
}
