/** Objects at work side by side: one appends to a file while others are being read. */
module Tandem {
  import opened Common
  import opened Compare
  import opened PageSpec
  import opened BufRefine
  import opened BufRuns
  import opened HeapSpec
  import opened Chain
  import opened Storage
  import opened HeapFile
  import opened Session
  import Query

  /** Opens a file for insertion: the last page of the file becomes the current page. */
  method OpenForInsert(s: Store, f: int, ghost b: Base, ghost pre: seq<Hold>, ghost chain: seq<int>,
                       ghost pages: seq<PageImage>) returns (ifs: HeapFile)
    requires s.Valid() && f in s.view.free && f in s.bm.db.openCnt
    requires HeapAt(s.view.logical, f, 1, chain) && pages == PagesOf(s.view.logical, f, chain)
    requires |s.view.pins| + 2 <= s.bm.numBufs && Over(b, s.view, pre)
    modifies s.Repr(), s.bm.db
    ensures fresh(ifs) && ifs.Valid(chain) && ifs.Shows(chain, pages) && ifs.store == s && ifs.filePtr == f &&
            ifs.headerPageNo == 1
    ensures ifs.inserting && ifs.curPage && ifs.pos == |chain| - 1 && ifs.Others() == |old(s.view.pins)| + 1 &&
            pages != []
    ensures Over(b, s.view, pre + [ifs.Held()])
    ensures s.view.logical == old(s.view.logical) && s.view.free == old(s.view.free)
    ensures s.bm.db.openCnt == old(s.bm.db.openCnt)[f := old(s.bm.db.openCnt)[f] + 1]
  {
    hide Store.Valid, HeapFile.Core, HeapFile.Full, HeapFile.OtherPins, HeapAt, PagesOf, Opened, Exchanged, Over,
         Holding;
    ghost var v := s.view;
    HeaderFacts(v.logical, f, 1, chain);
    OpenFits(v.pins, f, chain, s.bm.numBufs);
    ifs := new HeapFile.Open(s, f, true, chain);
    ghost var v1, o1 := s.view, ifs.Held();
    ifs.HoldingOfCore();
    OpenOver(b, v, pre, v1, o1);
    ifs.NotFull();
    var st := ifs.MoveToLast(chain);
    ifs.HoldingOfCore();
    WorkOver(b, v1, pre + [o1], |pre|, s.view, ifs.Held());
    assert (pre + [o1])[|pre| := ifs.Held()] == pre + [ifs.Held()];
  }

  /** Closes the object opened last. */
  method CloseLast(hf: HeapFile, ghost b: Base, ghost pre: seq<Hold>)
    requires hf.Core() && hf.filePtr in hf.store.bm.db.openCnt && Over(b, hf.store.view, pre + [hf.Held()])
    modifies hf, hf.store.Repr(), hf.store.bm.db
    ensures hf.store.Valid() && hf.store.view.logical == old(hf.store.view.logical) &&
            hf.store.view.free == old(hf.store.view.free)
    ensures Over(b, hf.store.view, pre) && |hf.store.view.pins| == old(hf.Others()) - 1
    ensures var n := old(hf.store.bm.db.openCnt)[hf.filePtr];
            hf.store.bm.db.openCnt == old(hf.store.bm.db.openCnt)[hf.filePtr := CountAfterClose(n)]
    ensures old(hf.store.bm.db.openCnt)[hf.filePtr] == 1 && Query.NoPins(hf.store.view, hf.filePtr) ==>
              Durable(hf.store.bm.pool, hf.store.view, hf.filePtr)
  {
    hide Store.Valid, HeapFile.Core, Closed, Over, Durable;
    ghost var v, o := hf.store.view, hf.Held();
    hf.Close();
    CloseOver(b, v, pre + [o], |pre|, hf.store.view);
    assert Without(pre + [o], |pre|) == pre;
  }

  lemma InsertOne(pages: seq<PageImage>, done: seq<Bytes>, nos: seq<int>, row: Bytes, n: int)
    requires pages != [] && |done| == |nos|
    ensures InsertAll(pages, done + [row], nos + [n]) == InsertPages(InsertAll(pages, done, nos), row, n)
  {
    hide InsertPages;
    InsertAllConcat(pages, done, nos, [row], [n]);
    var p := InsertAll(pages, done, nos);
    assert InsertAll(InsertPages(p, row, n), [], []) == InsertPages(p, row, n);
  }

  lemma {:induction false} AllMatch(es: seq<Entry>)
    ensures Matching(es, Filtering(NoFilter)) == es
  {
    if es != [] {
      AllMatch(es[1..]);
      assert es == [es[0]] + es[1..];
    }
  }

  /** An object on an unchanged file is valid again after another object has worked. */
  lemma Revalidated(hf: HeapFile, chain: seq<int>, pages: seq<PageImage>, v: View, f: int, b: Base, hs: seq<Hold>,
                    i: nat)
    requires hf.store.Valid() && hf.filePtr in v.free && hf.filePtr != f && hf.Fields(chain)
    requires HeapAt(v.logical, hf.filePtr, hf.headerPageNo, chain) && pages == PagesOf(v.logical, hf.filePtr, chain)
    requires OthersSame(v, hf.store.view, f)
    requires Over(b, hf.store.view, hs) && i < |hs| && hs[i] == hf.Held()
    ensures hf.Valid(chain) && hf.Shows(chain, pages)
  {
    hide HeapAt, Store.Valid, Over, PagesOf, Holding;
    SamePages(v.logical, hf.filePtr, hf.headerPageNo, chain, hf.store.view.logical);
    EachHolds(b, hf.store.view, hs, i);
    hf.ValidParts(chain);
  }

  lemma Kept(hf: HeapFile, chain: seq<int>, pages: seq<PageImage>, v: View, b: Base, hs: seq<Hold>, i: nat)
    requires hf.store.Valid() && hf.filePtr in v.free && hf.Fields(chain)
    requires HeapAt(v.logical, hf.filePtr, hf.headerPageNo, chain) && pages == PagesOf(v.logical, hf.filePtr, chain)
    requires hf.store.view.logical == v.logical && hf.store.view.free == v.free
    requires Over(b, hf.store.view, hs) && i < |hs| && hs[i] == hf.Held()
    ensures hf.Valid(chain) && hf.Shows(chain, pages)
  {
    hide HeapAt, Store.Valid, Over, PagesOf, Holding;
    EachHolds(b, hf.store.view, hs, i);
    hf.ValidParts(chain);
  }

  /** Appends one row to the result while a scan of another file is going on. */
  method Emit(inner: HeapFile, out: HeapFile, ghost b: Base, ghost pre: seq<Hold>, ghost chain2: seq<int>,
              ghost pages2: seq<PageImage>,
              ghost chain3: seq<int>, ghost pages3: seq<PageImage>, row: Bytes)
    returns (ghost chain3': seq<int>, ghost pages3': seq<PageImage>)
    requires inner != out && inner.store == out.store && inner.filePtr != out.filePtr
    requires inner.Valid(chain2) && inner.Shows(chain2, pages2)
    requires out.Valid(chain3) && out.Shows(chain3, pages3) && out.inserting && out.curPage && out.pos == |chain3| - 1
    requires Over(b, inner.store.view, pre + [out.Held(), inner.Held()])
    requires |inner.store.view.pins| < inner.store.bm.numBufs && |row| <= MAX_RECORD
    modifies out, inner.store.Repr(), inner.store.bm.db`files
    ensures inner.Valid(chain2) && inner.Shows(chain2, pages2)
    ensures out.Valid(chain3') && out.Shows(chain3', pages3') && out.curPage && out.pos == |chain3'| - 1
    ensures Over(b, inner.store.view, pre + [out.Held(), inner.Held()]) &&
            |inner.store.view.pins| == |old(inner.store.view.pins)|
    ensures OthersSame(old(inner.store.view), inner.store.view, out.filePtr)
    ensures pages3 != [] && pages3' == InsertPages(pages3, row, out.curPageNo)
  {
    hide HeapAt, HeapFile.Valid, HeapFile.Fields, Over, PagesOf, InsertPages, Exchanged, Store.Valid, Holding;
    ghost var v, hs := inner.store.view, pre + [out.Held(), inner.Held()];
    inner.ValidParts(chain2);
    var st, rid;
    st, rid, chain3', pages3' := out.InsertRecord(chain3, pages3, row);
    out.ValidParts(chain3');
    WorkOver(b, v, hs, |pre|, inner.store.view, out.Held());
    assert hs[|pre| := out.Held()] == pre + [out.Held(), inner.Held()];
    Revalidated(inner, chain2, pages2, v, out.filePtr, b, pre + [out.Held(), inner.Held()], |pre| + 1);
  }

  /** The next record of a scan while another object is appending to the result. */
  method Fetch(inner: HeapFile, out: HeapFile, ghost b: Base, ghost pre: seq<Hold>, ghost chain2: seq<int>,
               ghost pages2: seq<PageImage>,
               ghost chain3: seq<int>, ghost pages3: seq<PageImage>)
    returns (st: Status, rec: Bytes, ghost rid: RID)
    requires inner != out && inner.store == out.store && inner.Valid(chain2) && inner.Shows(chain2, pages2)
    requires out.Valid(chain3) && out.Shows(chain3, pages3)
    requires Over(b, inner.store.view, pre + [out.Held(), inner.Held()]) && inner.Others() < inner.store.bm.numBufs
    requires Ready(inner.store.view, inner.Held(), inner.filter)
    modifies inner, inner.store.Repr(), inner.store.bm.db`files
    ensures inner.Valid(chain2) && inner.Shows(chain2, pages2) && inner.filter == old(inner.filter) &&
            inner.Others() == old(inner.Others())
    ensures Ready(inner.store.view, inner.Held(), inner.filter)
    ensures inner.store.view.logical == old(inner.store.view.logical) &&
            inner.store.view.free == old(inner.store.view.free)
    ensures out.Valid(chain3) && out.Shows(chain3, pages3)
    ensures Over(b, inner.store.view, pre + [out.Held(), inner.Held()])
    ensures Found(st, rid, Skip(Ahead(old(inner.Position()), pages2), inner.Matches()), inner.Position(), pages2)
    ensures st == OK ==> inner.curPage && OnRecord(inner.Position(), pages2, rec)
  {
    hide HeapAt, HeapFile.Valid, HeapFile.Fields, Over, PagesOf, Exchanged, Store.Valid, Holding, Ahead, Skip, Found,
         Ready, Meaning, Filtering, HeapFile.Full, HeapFile.OtherPins, HeapFile.Core;
    ghost var v, hs := inner.store.view, pre + [out.Held(), inner.Held()];
    out.ValidParts(chain3);
    ghost var c := inner.Position();
    rec := [];
    var r;
    inner.CoreOf(chain2);
    inner.NotFull();
    st, r := inner.ScanNext(chain2, pages2);
    rid := r;
    inner.ValidParts(chain2);
    WorkOver(b, v, hs, |pre| + 1, inner.store.view, inner.Held());
    assert hs[|pre| + 1 := inner.Held()] == pre + [out.Held(), inner.Held()];
    EachHolds(b, inner.store.view, pre + [out.Held(), inner.Held()], |pre|);
    out.ValidParts(chain3);
    Query.FoundCases(st, rid, Skip(Ahead(c, pages2), inner.Matches()), inner.Position(), pages2);
    if st == OK {
      var got;
      got, rec := inner.GetRecord(chain2, pages2);
    }
  }

  /** Opens a file for reading while another object is appending. */
  method OpenReader(s: Store, f2: int, out: HeapFile, ghost b: Base, ghost pre: seq<Hold>, ghost chain2: seq<int>,
                    ghost chain3: seq<int>, ghost pages3: seq<PageImage>)
    returns (inner: HeapFile)
    requires s.Valid() && f2 in s.view.free && f2 in s.bm.db.openCnt && HeapAt(s.view.logical, f2, 1, chain2)
    requires out.store == s && out.Valid(chain3) && out.Shows(chain3, pages3) && Over(b, s.view, pre + [out.Held()])
    requires |s.view.pins| + 2 <= s.bm.numBufs
    modifies s.Repr(), s.bm.db
    ensures fresh(inner) && inner.Valid(chain2) && inner.store == s && inner.filePtr == f2 && inner.headerPageNo == 1
    ensures inner.curPage && inner.pos == 0 && inner.curRec == NULLRID && inner.curPageNo >= 0 &&
            inner.filter == Unfiltered
    ensures s.view.logical == old(s.view.logical) && s.view.free == old(s.view.free)
    ensures inner.Others() == |old(s.view.pins)| + 1
    ensures out.Valid(chain3) && out.Shows(chain3, pages3) && Over(b, s.view, pre + [out.Held(), inner.Held()])
    ensures s.bm.db.openCnt == old(s.bm.db.openCnt)[f2 := old(s.bm.db.openCnt)[f2] + 1]
  {
    hide HeapAt, HeapFile.Valid, HeapFile.Fields, Over, PagesOf, Opened, Store.Valid, Holding, Filtering;
    ghost var v, hs := s.view, pre + [out.Held()];
    out.ValidParts(chain3);
    HeaderFacts(v.logical, f2, 1, chain2);
    PageFacts(v.logical, f2, 1, chain2, 0);
    OpenFits(v.pins, f2, chain2, s.bm.numBufs);
    inner := new HeapFile.Open(s, f2, false, chain2);
    inner.ValidParts(chain2);
    OpenOver(b, v, hs, s.view, inner.Held());
    assert hs + [inner.Held()] == pre + [out.Held(), inner.Held()];
    Kept(out, chain3, pages3, v, b, pre + [out.Held(), inner.Held()], |pre|);
  }

  /** Closes the file that was read. */
  method CloseReader(inner: HeapFile, out: HeapFile, ghost b: Base, ghost pre: seq<Hold>, ghost chain3: seq<int>,
                     ghost pages3: seq<PageImage>)
    requires inner != out && inner.store == out.store && inner.Core() && inner.filePtr in inner.store.bm.db.openCnt
    requires out.Valid(chain3) && out.Shows(chain3, pages3) &&
             Over(b, inner.store.view, pre + [out.Held(), inner.Held()])
    modifies inner, inner.store.Repr(), inner.store.bm.db
    ensures out.store.view.logical == old(out.store.view.logical) && out.store.view.free == old(out.store.view.free)
    ensures out.Valid(chain3) && out.Shows(chain3, pages3) && Over(b, out.store.view, pre + [out.Held()])
    ensures |out.store.view.pins| == old(inner.Others()) - 1
    ensures var n := old(inner.store.bm.db.openCnt)[inner.filePtr];
            out.store.bm.db.openCnt == old(out.store.bm.db.openCnt)[inner.filePtr := CountAfterClose(n)]
  {
    hide HeapAt, HeapFile.Valid, HeapFile.Core, HeapFile.Fields, Over, PagesOf, Closed, Store.Valid, Holding, Durable;
    ghost var v, hs := out.store.view, pre + [out.Held(), inner.Held()];
    out.ValidParts(chain3);
    inner.Close();
    CloseOver(b, v, hs, |pre| + 1, out.store.view);
    assert Without(hs, |pre| + 1) == pre + [out.Held()];
    Kept(out, chain3, pages3, v, b, pre + [out.Held()], |pre|);
  }

  lemma ShowsSame(hf: HeapFile, chain: seq<int>, pages: seq<PageImage>, v: View)
    requires hf.store.view.logical == v.logical && hf.headerPageNo == 1
    requires HeapAt(v.logical, hf.filePtr, 1, chain) && pages == PagesOf(v.logical, hf.filePtr, chain)
    ensures hf.Shows(chain, pages) && pages != []
  {
    hide PagesOf;
  }

  lemma FileSame(v: View, w: View, f: int, f2: int, chain: seq<int>, pages: seq<PageImage>)
    requires OthersSame(v, w, f) && f2 != f && f2 in v.free && HeapAt(v.logical, f2, 1, chain) &&
             pages == PagesOf(v.logical, f2, chain)
    ensures f2 in w.free && HeapAt(w.logical, f2, 1, chain) && pages == PagesOf(w.logical, f2, chain)
  {
    hide HeapAt, PagesOf;
    SamePages(v.logical, f2, 1, chain, w.logical);
  }

  /** A record by its RID, while another object is appending. */
  method FetchByRid(inner: HeapFile, out: HeapFile, ghost b: Base, ghost pre: seq<Hold>, ghost chain2: seq<int>,
                    ghost pages2: seq<PageImage>,
                    ghost chain3: seq<int>, ghost pages3: seq<PageImage>, ghost i: nat, rid: RID)
    returns (st: Status, rec: Bytes)
    requires inner != out && inner.store == out.store && inner.Valid(chain2) && inner.Shows(chain2, pages2)
    requires out.Valid(chain3) && out.Shows(chain3, pages3)
    requires Over(b, inner.store.view, pre + [out.Held(), inner.Held()]) && inner.Others() < inner.store.bm.numBufs
    requires i < |chain2| == |pages2| && rid.pageNo == chain2[i] && rid.slotNo >= 0
    modifies inner, inner.store.Repr(), inner.store.bm.db`files
    ensures inner.Valid(chain2) && inner.Shows(chain2, pages2) && inner.Others() == old(inner.Others())
    ensures inner.store.view.logical == old(inner.store.view.logical) &&
            inner.store.view.free == old(inner.store.view.free)
    ensures out.Valid(chain3) && out.Shows(chain3, pages3)
    ensures Over(b, inner.store.view, pre + [out.Held(), inner.Held()])
    ensures st == if pages2[i].Live(rid.slotNo) && pages2[i].slots[rid.slotNo].bytes != [] then OK else INVALIDSLOTNO
    ensures st == OK ==> rec == pages2[i].slots[rid.slotNo].bytes && inner.curPage
  {
    hide HeapAt, HeapFile.Valid, HeapFile.Fields, Over, PagesOf, Exchanged, Store.Valid, Holding, HeapFile.Full,
         HeapFile.OtherPins, HeapFile.Core;
    ghost var v, hs := inner.store.view, pre + [out.Held(), inner.Held()];
    out.ValidParts(chain3);
    inner.CoreOf(chain2);
    inner.NotFull();
    st, rec := inner.FetchRecord(chain2, pages2, i, rid);
    inner.ValidParts(chain2);
    WorkOver(b, v, hs, |pre| + 1, inner.store.view, inner.Held());
    assert hs[|pre| + 1 := inner.Held()] == pre + [out.Held(), inner.Held()];
    Kept(out, chain3, pages3, v, b, pre + [out.Held(), inner.Held()], |pre|);
  }

  /** The outcome of inserting `rec` into file `f`. */
  ghost predicate InsertDone(st: Status, l: Logical, f: int, chain': seq<int>, pages: seq<PageImage>,
                             pages': seq<PageImage>, rec: Bytes, n: int) {
    && HeapAt(l, f, 1, chain') && pages' == PagesOf(l, f, chain') && pages != []
    && st == (if |rec| > DATA_SIZE then INVALIDRECLEN else if |rec| > MAX_RECORD then NOSPACE else OK)
    && pages' == if st == INVALIDRECLEN then pages else InsertPages(pages, rec, n)
  }

  /** Opens a relation, inserts one record and closes it again. */
  method InsertRecordInto(s: Store, f: int, rec: Bytes, ghost chain: seq<int>, ghost pages: seq<PageImage>)
    returns (st: Status, ghost chain': seq<int>, ghost pages': seq<PageImage>, ghost n: int)
    requires s.Valid() && f in s.view.free && f in s.bm.db.openCnt && s.bm.db.openCnt[f] >= 0
    requires HeapAt(s.view.logical, f, 1, chain) && pages == PagesOf(s.view.logical, f, chain)
    requires |s.view.pins| + 3 <= s.bm.numBufs
    modifies s.Repr(), s.bm.db
    ensures s.Valid() && s.view.pins == old(s.view.pins) && s.view.owed == old(s.view.owed) &&
            s.bm.db.openCnt == old(s.bm.db.openCnt)
    ensures OthersSame(old(s.view), s.view, f)
    ensures InsertDone(st, s.view.logical, f, chain', pages, pages', rec, n)
    ensures old(s.bm.db.openCnt)[f] == 0 && Query.NoPins(old(s.view), f) ==> Durable(s.bm.pool, s.view, f)
  {
    hide Store.Valid, HeapFile.Core, HeapAt, PagesOf, Exchanged, Over, Durable, InsertPages, OthersSame, Holding;
    OthersSameNow(s.view, f);
    ghost var v0, b := s.view, Base(s.view.pins, s.view.owed);
    s.DebtsWithinPins();
    OverItself(v0);
    var ifs := OpenForInsert(s, f, b, [], chain, pages);
    assert [] + [ifs.Held()] == [ifs.Held()];
    ghost var v, o := s.view, ifs.Held();
    var rid;
    st, rid, chain', pages' := ifs.InsertRecord(chain, pages, rec);
    n := ifs.curPageNo;
    ghost var v1 := s.view;
    OthersSameTwice(v0, v0, v, v1, f);
    ifs.HoldingOfCore();
    WorkOver(b, v, [o], 0, s.view, ifs.Held());
    assert [o][0 := ifs.Held()] == [ifs.Held()];
    assert [] + [ifs.Held()] == [ifs.Held()];
    CloseLast(ifs, b, []);
    NothingOver(b, s.view);
    OthersSameTwice(v0, v1, s.view, s.view, f);
    OpenThenClose(old(s.bm.db.openCnt), f);
  }
}
