/** Scans of a catalog file for the tuples of a relation, through the buffer pool. */
module CatalogScan {
  import opened Common
  import opened Compare
  import opened PageSpec
  import opened BufRuns
  import opened HeapSpec
  import opened Chain
  import opened Storage
  import opened HeapFile
  import opened Session
  import opened Tandem
  import opened CatalogSpec
  import Query

  /** The filter of a scan for relation `n`, as it is kept. */
  function NameScan(n: Bytes): ScanFilter {
    Filtered(0, |n| + 1, STRING, Value(n), EQ)
  }

  /** A scan of file `x` for the tuples of relation `n` has been opened on top of `b` and the objects `pre`. */
  ghost predicate Scanning(hfs: HeapFile, x: HeapImage, b: Base, pre: seq<Hold>, n: Bytes)
    reads hfs, hfs.store, hfs.store.bm, hfs.store.bm.db, hfs.store.bm.hashTable, hfs.store.bm.hashTable.ht,
          hfs.store.bm.bufTable, hfs.store.bm.bufPool
  {
    && hfs.Valid(x.chain) && hfs.Shows(x.chain, x.pages) && hfs.filePtr == x.file && hfs.headerPageNo == 1
    && hfs.curPage && hfs.filter == NameScan(n) && Over(b, hfs.store.view, pre + [hfs.Held()])
  }

  method OpenScan(s: Store, f: int, relation: Bytes, ghost x: HeapImage, ghost b: Base, ghost pre: seq<Hold>)
    returns (hfs: HeapFile)
    requires s.Valid() && Stored(s.view, x) && x.file == f && f in s.bm.db.openCnt &&
             |s.view.pins| + 2 <= s.bm.numBufs && Over(b, s.view, pre)
    modifies s.Repr(), s.bm.db
    ensures fresh(hfs) && hfs.store == s && Scanning(hfs, x, b, pre, relation) && hfs.Others() == |old(s.view.pins)| + 1
    ensures Ahead(hfs.Position(), x.pages) == AllEntries(x.pages)
    ensures s.view.logical == old(s.view.logical) && s.view.free == old(s.view.free)
    ensures s.bm.db.openCnt == old(s.bm.db.openCnt)[f := old(s.bm.db.openCnt)[f] + 1]
  {
    hide HeapAt, PagesOf, HeapFile.Valid, HeapFile.Fields, Store.Valid, Holding, Opened, Over, FramesFor, Ahead,
         AllEntries;
    ghost var v := s.view;
    HeaderFacts(v.logical, f, 1, x.chain);
    PageFacts(v.logical, f, 1, x.chain, 0);
    OpenFits(v.pins, f, x.chain, s.bm.numBufs);
    hfs := new HeapFile.Open(s, f, false, x.chain);
    var st := hfs.StartScan(x.chain, 0, |relation| + 1, STRING, Value(relation), EQ);
    hfs.ValidParts(x.chain);
    OpenOver(b, v, pre, s.view, hfs.Held());
    Query.FreshScan(hfs.Position(), x.pages);
  }

  lemma ScansForName(l: Logical, n: Bytes)
    ensures Filtering(Meaning(NameScan(n), l)) == Named(n)
  {
  }

  /** The records the scan passes over do not match, and then comes the one it stops at. */
  lemma {:induction false} SkipSplits(es: seq<Entry>, m: Bytes -> bool) returns (front: seq<Entry>)
    requires NoEmptyRecords(es)
    ensures es == front + Skip(es, m) && Matching(front, m) == [] && NoEmptyRecords(Skip(es, m))
    ensures Skip(es, m) != [] ==> m(Skip(es, m)[0].bytes)
  {
    front := [];
    if es != [] && !Stops(es[0], m) {
      var rest := SkipSplits(es[1..], m);
      front := [es[0]] + rest;
      assert es == [es[0]] + es[1..];
    }
  }

  /** What the scan has done since it was ahead of `es`: `front` was passed over and `e` found. */
  ghost predicate Advanced(st: Status, rec: Bytes, es: seq<Entry>, front: seq<Entry>, c: Cursor, pages: seq<PageImage>,
                           m: Bytes -> bool) {
    && Matching(front, m) == []
    && if st == OK then
         && c.pinned && c.pos < |pages| && pages[c.pos].Live(c.slot) && pages[c.pos].slots[c.slot].bytes == rec &&
            rec != [] && m(rec)
         && Ahead(c, pages) == Remaining(pages, c.pos, c.slot + 1) && NoEmptyRecords(Ahead(c, pages))
         && es == front + ([SlotEntry(pages[c.pos], c.slot)] + Ahead(c, pages))
       else
         st == FILEEOF && es == front && Ahead(c, pages) == []
  }

  lemma FoundAdvances(st: Status, rid: RID, es: seq<Entry>, c: Cursor, pages: seq<PageImage>, m: Bytes -> bool,
                      rec: Bytes) returns (front: seq<Entry>)
    requires NoEmptyRecords(es) && Found(st, rid, Skip(es, m), c, pages) && (st == OK ==> c.pageNo >= 0)
    requires st == OK ==> c.pos < |pages| && pages[c.pos].Live(c.slot) && pages[c.pos].slots[c.slot].bytes == rec
    ensures Advanced(st, rec, es, front, c, pages, m)
  {
    hide Remaining, AllEntries, Matching, Skip, NoEmptyRecords, Found;
    front := SkipSplits(es, m);
    var r := Skip(es, m);
    if r == [] {
      assert front + r == front;
      FoundNothing(st, rid, c, pages);
    } else {
      assert r == [r[0]] + r[1..];
      NoEmptyConcat([r[0]], r[1..]);
      OneEntry(r[0], m);
      FoundFirst(st, rid, r, c, pages);
    }
  }

  lemma FoundNothing(st: Status, rid: RID, c: Cursor, pages: seq<PageImage>)
    requires Found(st, rid, [], c, pages)
    ensures st == FILEEOF && Ahead(c, pages) == []
  {
  }

  lemma FoundFirst(st: Status, rid: RID, r: seq<Entry>, c: Cursor, pages: seq<PageImage>)
    requires r != [] && Found(st, rid, r, c, pages)
    ensures st == (if r[0].bytes == [] then INVALIDSLOTNO else OK) && Ahead(c, pages) == r[1..]
    ensures c.pinned && c.pos < |pages| && pages[c.pos].Live(c.slot) && r[0] == SlotEntry(pages[c.pos], c.slot)
  {
    hide Ahead;
  }

  /** The next tuple of the relation. */
  method NextTuple(hfs: HeapFile, ghost x: HeapImage, ghost b: Base, ghost pre: seq<Hold>, ghost n: Bytes)
    returns (st: Status, rec: Bytes, ghost front: seq<Entry>)
    requires Scanning(hfs, x, b, pre, n) && hfs.Others() < hfs.store.bm.numBufs &&
             NoEmptyRecords(Ahead(hfs.Position(), x.pages))
    modifies hfs, hfs.store.Repr(), hfs.store.bm.db`files
    ensures Scanning(hfs, x, b, pre, n) && hfs.Others() == old(hfs.Others())
    ensures hfs.store.view.logical == old(hfs.store.view.logical) && hfs.store.view.free == old(hfs.store.view.free)
    ensures Advanced(st, rec, Ahead(old(hfs.Position()), x.pages), front, hfs.Position(), x.pages, Named(n))
  {
    hide HeapAt, PagesOf, HeapFile.Valid, HeapFile.Core, HeapFile.Full, HeapFile.OtherPins, Store.Valid, Holding, Over,
         Exchanged, Ahead, Skip, Found, Filtering, Meaning, Advanced, NoEmptyRecords, NameFilter;
    ghost var v, o, es := hfs.store.view, hfs.Held(), Ahead(hfs.Position(), x.pages);
    ScansForName(v.logical, n);
    PlainFilter(v, o, hfs.filter, v.logical);
    hfs.CoreOf(x.chain);
    hfs.NotFull();
    var rid;
    rec := [];
    st, rid := hfs.ScanNext(x.chain, x.pages);
    hfs.ValidParts(x.chain);
    WorkOver(b, v, pre + [o], |pre|, hfs.store.view, hfs.Held());
    assert (pre + [o])[|pre| := hfs.Held()] == pre + [hfs.Held()];
    Query.FoundCases(st, rid, Skip(es, Named(n)), hfs.Position(), x.pages);
    hfs.PageIsReal(x.chain);
    NoEmptySkip(es, Named(n));
    if st == OK {
      st, rec := hfs.GetRecord(x.chain, x.pages);
    }
    front := FoundAdvances(st, rid, es, hfs.Position(), x.pages, Named(n), rec);
  }

  lemma NoEmptySkip(es: seq<Entry>, m: Bytes -> bool)
    requires NoEmptyRecords(es)
    ensures Skip(es, m) != [] ==> Skip(es, m)[0].bytes != []
  {
    var front := SkipSplits(es, m);
  }

  /** Ends a scan and destroys its object; its pins are back. */
  method CloseScan(hfs: HeapFile, ghost x: HeapImage, ghost b: Base, ghost pre: seq<Hold>)
    requires hfs.Valid(x.chain) && hfs.filePtr == x.file && Over(b, hfs.store.view, pre + [hfs.Held()]) &&
             x.file in hfs.store.bm.db.openCnt
    modifies hfs, hfs.store.Repr(), hfs.store.bm.db
    ensures hfs.store.Valid() && Over(b, hfs.store.view, pre) && |hfs.store.view.pins| == old(hfs.Others()) - 1
    ensures hfs.store.view.logical == old(hfs.store.view.logical) && hfs.store.view.free == old(hfs.store.view.free)
    ensures hfs.store.bm.db.openCnt ==
            old(hfs.store.bm.db.openCnt)[x.file := CountAfterClose(old(hfs.store.bm.db.openCnt)[x.file])]
  {
    hide HeapFile.Valid, HeapFile.Core, HeapFile.OtherPins, Over, Exchanged, Durable, Query.NoPins, Store.Valid;
    ghost var v, o := hfs.store.view, hfs.Held();
    hfs.EndScan(x.chain);
    hfs.CoreOf(x.chain);
    hfs.HoldingOfCore();
    WorkOver(b, v, pre + [o], |pre|, hfs.store.view, hfs.Held());
    assert (pre + [o])[|pre| := hfs.Held()] == pre + [hfs.Held()];
    CloseLast(hfs, b, pre);
  }

  /** What a lookup leaves alone: everything a client can see. */
  twostate predicate Untouched(s: Store)
    reads s, s.bm, s.bm.db
  {
    && s.view.logical == old(s.view.logical) && s.view.free == old(s.view.free) && s.view.pins == old(s.view.pins) &&
       s.view.owed == old(s.view.owed)
    && s.bm.db.openCnt == old(s.bm.db.openCnt)
  }

  /** What a lookup asks of the store: the file is there, and two frames can be had. */
  ghost predicate Reachable(s: Store, x: HeapImage)
    reads s, s.bm, s.bm.db, s.bm.hashTable, s.bm.hashTable.ht, s.bm.bufTable, s.bm.bufPool
  {
    && s.Valid() && Stored(s.view, x) && x.file in s.bm.db.openCnt && s.bm.db.openCnt[x.file] >= 0 &&
       |s.view.pins| + 2 <= s.bm.numBufs
    && NoEmptyRecords(AllEntries(x.pages))
  }

  /** The first tuple of a relation. */
  method FirstTuple(s: Store, f: int, relation: Bytes, ghost x: HeapImage) returns (st: Status, rec: Bytes)
    requires Reachable(s, x) && x.file == f
    modifies s.Repr(), s.bm.db
    ensures s.Valid() && Untouched(s)
    ensures st == if Tuples(x.pages, relation) == [] then RELNOTFOUND else OK
    ensures st == OK ==> rec == Tuples(x.pages, relation)[0]
  {
    hide HeapFile.Valid, HeapFile.Shows, Over, Store.Valid, Stored, Ahead, AllEntries, Advanced, NoEmptyRecords, Tuples;
    ghost var b := Base(s.view.pins, s.view.owed);
    s.DebtsWithinPins();
    OverItself(s.view);
    var hfs := OpenScan(s, f, relation, x, b, []);
    ghost var front;
    st, rec, front := NextTuple(hfs, x, b, [], relation);
    OneFound(st, rec, front, hfs.Position(), x.pages, relation);
    if st == FILEEOF {
      st := RELNOTFOUND;
    }
    CloseScan(hfs, x, b, []);
    NothingOver(b, s.view);
    OpenThenClose(old(s.bm.db.openCnt), f);
  }

  lemma OneFound(st: Status, rec: Bytes, front: seq<Entry>, c: Cursor, pages: seq<PageImage>, n: Bytes)
    requires Advanced(st, rec, AllEntries(pages), front, c, pages, Named(n))
    ensures st == if Tuples(pages, n) == [] then FILEEOF else OK
    ensures st == OK ==> rec == Tuples(pages, n)[0]
  {
    hide AllEntries, Ahead, Remaining, Named;
    MatchesOn(st, rec, AllEntries(pages), front, c, pages, Named(n));
  }

  /** The matches among the records ahead: the one found and those still ahead. */
  lemma MatchesOn(st: Status, rec: Bytes, es: seq<Entry>, front: seq<Entry>, c: Cursor, pages: seq<PageImage>,
                  m: Bytes -> bool)
    requires Advanced(st, rec, es, front, c, pages, m)
    ensures BytesOf(Matching(es, m)) == if st == OK then [rec] + BytesOf(Matching(Ahead(c, pages), m)) else []
    ensures st == OK ==> |Ahead(c, pages)| < |es|
  {
    hide Ahead, Remaining, Matching, BytesOf, NoEmptyRecords;
    NoneFromNone();
    if st == OK {
      var e, rest := SlotEntry(pages[c.pos], c.slot), Ahead(c, pages);
      MatchingConcat(front, [e] + rest, m);
      MatchingConcat([e], rest, m);
      OneEntry(e, m);
      BytesOfConcat([e], Matching(rest, m));
      assert [] + ([e] + Matching(rest, m)) == [e] + Matching(rest, m);
    }
  }

  lemma NoneFromNone()
    ensures BytesOf([]) == []
  {
  }

  /** Goes through the tuples of a relation from beginning to end. */
  method CollectTuples(hfs: HeapFile, ghost x: HeapImage, ghost b: Base, ghost n: Bytes) returns (rows: seq<Bytes>)
    requires Scanning(hfs, x, b, [], n) && hfs.Others() < hfs.store.bm.numBufs && NoEmptyRecords(AllEntries(x.pages))
    requires Ahead(hfs.Position(), x.pages) == AllEntries(x.pages)
    modifies hfs, hfs.store.Repr(), hfs.store.bm.db`files
    ensures Scanning(hfs, x, b, [], n) && hfs.Others() == old(hfs.Others())
    ensures hfs.store.view.logical == old(hfs.store.view.logical) && hfs.store.view.free == old(hfs.store.view.free)
    ensures rows == Tuples(x.pages, n)
  {
    hide HeapFile.Valid, HeapFile.Shows, Scanning, Over, Store.Valid, Ahead, AllEntries, Advanced, NoEmptyRecords,
         BytesOf, Matching, Named;
    rows := [];
    ghost var m := Named(n);
    while true
      invariant Scanning(hfs, x, b, [], n) && hfs.Others() == old(hfs.Others()) &&
                NoEmptyRecords(Ahead(hfs.Position(), x.pages))
      invariant hfs.store.view.logical == old(hfs.store.view.logical) && hfs.store.view.free == old(hfs.store.view.free)
      invariant rows + BytesOf(Matching(Ahead(hfs.Position(), x.pages), m)) == Tuples(x.pages, n)
      decreases |Ahead(hfs.Position(), x.pages)|
    {
      ghost var es, front := Ahead(hfs.Position(), x.pages), [];
      var st, rec;
      st, rec, front := NextTuple(hfs, x, b, [], n);
      MatchesOn(st, rec, es, front, hfs.Position(), x.pages, m);
      StillFull(st, rec, es, front, hfs.Position(), x.pages, m);
      if st != OK {
        return;
      }
      ghost var rest := BytesOf(Matching(Ahead(hfs.Position(), x.pages), m));
      assert rows + ([rec] + rest) == rows + [rec] + rest;
      rows := rows + [rec];
    }
  }

  /** All tuples of a relation, in the order of the file. */
  method AllTuples(s: Store, f: int, relation: Bytes, ghost x: HeapImage) returns (st: Status, rows: seq<Bytes>)
    requires Reachable(s, x) && x.file == f
    modifies s.Repr(), s.bm.db
    ensures s.Valid() && Untouched(s)
    ensures rows == Tuples(x.pages, relation) && st == if rows == [] then RELNOTFOUND else OK
  {
    hide HeapFile.Valid, HeapFile.Shows, Scanning, Over, Store.Valid, Stored, Ahead, AllEntries, NoEmptyRecords, Tuples;
    ghost var b := Base(s.view.pins, s.view.owed);
    s.DebtsWithinPins();
    OverItself(s.view);
    var hfs := OpenScan(s, f, relation, x, b, []);
    rows := CollectTuples(hfs, x, b, relation);
    st := if rows == [] then RELNOTFOUND else OK;
    ScanParts(hfs, x, b, [], relation);
    CloseScan(hfs, x, b, []);
    NothingOver(b, s.view);
    OpenThenClose(old(s.bm.db.openCnt), f);
  }

  lemma ScanParts(hfs: HeapFile, x: HeapImage, b: Base, pre: seq<Hold>, n: Bytes)
    requires Scanning(hfs, x, b, pre, n)
    ensures hfs.Valid(x.chain) && hfs.Shows(x.chain, x.pages) && hfs.filePtr == x.file && hfs.headerPageNo == 1 &&
            hfs.curPage && Over(b, hfs.store.view, pre + [hfs.Held()])
  {
    hide HeapFile.Valid, HeapFile.Shows, Over;
  }

  lemma StillFull(st: Status, rec: Bytes, es: seq<Entry>, front: seq<Entry>, c: Cursor, pages: seq<PageImage>,
                  m: Bytes -> bool)
    requires Advanced(st, rec, es, front, c, pages, m)
    ensures NoEmptyRecords(Ahead(c, pages)) && (st == OK || st == FILEEOF)
  {
    hide Remaining, Matching;
  }

  // ----- removing tuples

  lemma {:induction false} FewerMatch(es: seq<Entry>, m: Bytes -> bool, t: Bytes -> bool)
    requires Matching(es, m) == []
    ensures Matching(es, Both(m, t)) == []
  {
    if es != [] {
      FewerMatch(es[1..], m, t);
    }
  }

  /** The records in front of the one found, seen from the beginning of the file. */
  lemma PassedOver(rec: Bytes, passed: seq<Entry>, es: seq<Entry>, front: seq<Entry>, c: Cursor, pages: seq<PageImage>,
                   m: Bytes -> bool, t: Bytes -> bool)
    requires AllEntries(pages) == passed + es && Matching(passed, Both(m, t)) == [] &&
             Advanced(OK, rec, es, front, c, pages, m)
    ensures c.pos < |pages| && pages[c.pos].Live(c.slot) && Matching(Passed(pages, c.pos, c.slot), Both(m, t)) == []
    ensures var passed' := passed + front + [SlotEntry(pages[c.pos], c.slot)];
            AllEntries(pages) == passed' + Ahead(c, pages) && (!t(rec) ==> Matching(passed', Both(m, t)) == [])
  {
    hide AllEntries, Ahead, Remaining, Matching, Entries, Range, NoEmptyRecords, Delete, Both;
    var e, rest := SlotEntry(pages[c.pos], c.slot), Ahead(c, pages);
    FewerMatch(front, m, t);
    MatchingConcat(passed, front, Both(m, t));
    assert passed + (front + ([e] + rest)) == (passed + front) + ([e] + rest) == passed + front + [e] + rest;
    DeleteFromPages(pages, c.pos, c.slot);
    Query.SameFront(AllEntries(pages), Passed(pages, c.pos, c.slot), passed + front, rest, e, e);
    MatchingConcat(passed + front, [e], Both(m, t));
    OneEntry(e, Both(m, t));
    OnlyBoth(rec, m, t);
  }

  lemma OnlyBoth(rec: Bytes, m: Bytes -> bool, t: Bytes -> bool)
    ensures Both(m, t)(rec) <==> m(rec) && t(rec)
  {
  }

  /** The file with the tuple at slot `k` of page `i` removed. */
  function Removed(x: HeapImage, i: nat, k: nat): HeapImage
    requires i < |x.pages| && x.pages[i].Live(k)
  {
    x.(pages := x.pages[i := Delete(x.pages[i], k)])
  }

  /** What a change of file `f` leaves alone. */
  twostate predicate OnlyFile(s: Store, f: int)
    reads s, s.bm, s.bm.db
  {
    OthersSame(old(s.view), s.view, f) && s.view.pins == old(s.view.pins) && s.view.owed == old(s.view.owed) &&
      s.bm.db.openCnt == old(s.bm.db.openCnt)
  }

  /** Deletes the tuple the scan is on, and destroys the scan. */
  method RemoveHere(hfs: HeapFile, ghost x: HeapImage, ghost b: Base, ghost n: Bytes)
    returns (st: Status, ghost x': HeapImage)
    requires Scanning(hfs, x, b, [], n) && x.file in hfs.store.bm.db.openCnt && hfs.pos < |x.pages| &&
             x.pages[hfs.pos].Live(hfs.curRec.slotNo)
    requires x.pages[hfs.pos].slots[hfs.curRec.slotNo].bytes != []
    modifies hfs, hfs.store.Repr(), hfs.store.bm.db
    ensures hfs.store.Valid() && hfs.store.view.pins == b.pins && hfs.store.view.owed == b.owed &&
            OthersSame(old(hfs.store.view), hfs.store.view, x.file)
    ensures hfs.store.bm.db.openCnt ==
            old(hfs.store.bm.db.openCnt)[x.file := CountAfterClose(old(hfs.store.bm.db.openCnt)[x.file])]
    ensures st == OK && x' == Removed(x, old(hfs.pos), old(hfs.curRec.slotNo)) && Stored(hfs.store.view, x')
  {
    hide HeapAt, PagesOf, HeapFile.Valid, HeapFile.Core, Over, Exchanged, Store.Valid, Miscounted, Delete, OthersSame;
    ghost var v, o := hfs.store.view, hfs.Held();
    x' := Removed(x, hfs.pos, hfs.curRec.slotNo);
    st := hfs.DeleteRecord(x.chain, x.pages);
    ghost var v1 := hfs.store.view;
    hfs.HoldingOfCore();
    assert [] + [o] == [o];
    WorkOver(b, v, [o], 0, v1, hfs.Held());
    assert [o][0 := hfs.Held()] == [] + [hfs.Held()];
    hfs.ValidParts(x.chain);
    CloseScan(hfs, x', b, []);
    NothingOver(b, hfs.store.view);
    OthersSameTwice(v, v1, hfs.store.view, hfs.store.view, x.file);
  }

  /** The outcome of removing the first tuple of relation `n` that satisfies `t`. */
  ghost predicate TupleGone(st: Status, pages: seq<PageImage>, pages': seq<PageImage>, n: Bytes, t: Bytes -> bool,
                            rec: Bytes) {
    && st == (if Matching(AllEntries(pages), Both(Named(n), t)) == [] then RELNOTFOUND else OK)
    && (st != OK ==> pages' == pages)
    && (st == OK ==>
          && FirstOf(Tuples(pages, n), t) == Some(rec) && RowsRemoved(pages, pages', n, [rec])
          && Tuples(pages', n) == RemoveFirst(Tuples(pages, n), t))
  }

  lemma GoneHere(x: HeapImage, i: nat, k: nat, n: Bytes, t: Bytes -> bool)
    requires i < |x.pages| && x.pages[i].Live(k) && Named(n)(x.pages[i].slots[k].bytes) &&
             t(x.pages[i].slots[k].bytes) && OwnRows(x.pages, n)
    requires Matching(Passed(x.pages, i, k), Both(Named(n), t)) == []
    ensures TupleGone(OK, x.pages, Removed(x, i, k).pages, n, t, x.pages[i].slots[k].bytes)
  {
    hide AllEntries, Delete, Matching, RowsRemoved, Passed, RowFor, Tuples, RemoveFirst, FirstOf, Named, Both,
         NoEmptyRecords;
    FoundHas(x.pages, i, k, n);
    RemoveRow(x.pages, i, k, n, t);
    MatchThere(x.pages, i, k, Both(Named(n), t));
    OnlyBoth(x.pages[i].slots[k].bytes, Named(n), t);
  }

  lemma MatchThere(pages: seq<PageImage>, i: nat, k: nat, m: Bytes -> bool)
    requires i < |pages| && pages[i].Live(k)
    ensures m(pages[i].slots[k].bytes) ==> Matching(AllEntries(pages), m) != []
  {
    hide AllEntries, Delete, Matching, Entries, Range, Remaining;
    DeleteFromPages(pages, i, k);
    var e, post := SlotEntry(pages[i], k), Remaining(pages, i, k + 1);
    MatchingConcat(Passed(pages, i, k), [e] + post, m);
    MatchingConcat([e], post, m);
    OneEntry(e, m);
  }

  /** Removes the one tuple of a relation from the relation catalog: the first the scan finds. */
  method RemoveFirstTuple(s: Store, f: int, relation: Bytes, ghost x: HeapImage)
    returns (st: Status, ghost x': HeapImage, ghost rec: Bytes)
    requires Reachable(s, x) && x.file == f && OwnRows(x.pages, relation)
    modifies s.Repr(), s.bm.db
    ensures s.Valid() && OnlyFile(s, f) && Stored(s.view, x') && x'.file == f &&
            TupleGone(st, x.pages, x'.pages, relation, AnyRow(), rec)
  {
    hide HeapFile.Valid, HeapFile.Shows, Over, Store.Valid, Stored, Ahead, AllEntries, Advanced, NoEmptyRecords, Tuples,
         TupleGone, OwnRows, OthersSame, Named, Both, Matching, Delete, Passed;
    ghost var v, b := s.view, Base(s.view.pins, s.view.owed);
    s.DebtsWithinPins();
    OverItself(v);
    OthersSameNow(v, f);
    x' := x;
    var hfs := OpenScan(s, f, relation, x, b, []);
    var found;
    ghost var front;
    st, found, front := NextTuple(hfs, x, b, [], relation);
    rec := found;
    ghost var v1 := s.view;
    OthersSameTwice(v, v, v1, v1, f);
    StillFull(st, rec, AllEntries(x.pages), front, hfs.Position(), x.pages, Named(relation));
    NothingPassed(AllEntries(x.pages), Both(Named(relation), AnyRow()));
    if st == FILEEOF {
      AtEndGone([], AllEntries(x.pages), front, rec, hfs.Position(), x.pages, relation, AnyRow());
      st := RELNOTFOUND;
      CloseScan(hfs, x, b, []);
      NothingOver(b, s.view);
      OthersSameTwice(v, v1, s.view, s.view, f);
      SameStored(v, s.view, x);
    } else {
      ThereToRemove(rec, [], AllEntries(x.pages), front, hfs.Position(), x, relation, AnyRow());
      st, x' := RemoveHere(hfs, x, b, relation);
      OthersSameTwice(v, v1, v1, s.view, f);
    }
    OpenThenClose(old(s.bm.db.openCnt), f);
  }

  lemma AtEndGone(passed: seq<Entry>, es: seq<Entry>, front: seq<Entry>, rec: Bytes, c: Cursor, pages: seq<PageImage>,
                  n: Bytes, t: Bytes -> bool)
    requires AllEntries(pages) == passed + es && Matching(passed, Both(Named(n), t)) == [] &&
             Advanced(FILEEOF, rec, es, front, c, pages, Named(n))
    ensures TupleGone(RELNOTFOUND, pages, pages, n, t, rec)
  {
    hide AllEntries, Ahead, Remaining, Matching, NoEmptyRecords, Named, Both, RowsRemoved, Tuples;
    FewerMatch(es, Named(n), t);
    MatchingConcat(passed, es, Both(Named(n), t));
  }

  lemma ThereToRemove(rec: Bytes, passed: seq<Entry>, es: seq<Entry>, front: seq<Entry>, c: Cursor, x: HeapImage,
                      n: Bytes, t: Bytes -> bool)
    requires AllEntries(x.pages) == passed + es && Matching(passed, Both(Named(n), t)) == [] &&
             Advanced(OK, rec, es, front, c, x.pages, Named(n))
    requires OwnRows(x.pages, n) && t(rec)
    ensures c.pos < |x.pages| && x.pages[c.pos].Live(c.slot) && x.pages[c.pos].slots[c.slot].bytes == rec != []
    ensures TupleGone(OK, x.pages, Removed(x, c.pos, c.slot).pages, n, t, rec)
  {
    hide AllEntries, Ahead, Remaining, Matching, NoEmptyRecords, Named, Both, RowsRemoved, Tuples, OwnRows, TupleGone,
         Delete, Passed;
    PassedOver(rec, passed, es, front, c, x.pages, Named(n), t);
    GoneHere(x, c.pos, c.slot, n, t);
  }

  lemma NothingPassed(es: seq<Entry>, m: Bytes -> bool)
    ensures [] + es == es && Matching([], m) == []
  {
  }

  /** Goes on to the first tuple of the relation with this attribute name; the scan has passed over `passed`. */
  method FindNamed(hfs: HeapFile, name: Bytes, ghost x: HeapImage, ghost b: Base, ghost pre: seq<Hold>, ghost n: Bytes)
    returns (st: Status, rec: Bytes, ghost passed: seq<Entry>, ghost es: seq<Entry>, ghost front: seq<Entry>)
    requires Scanning(hfs, x, b, pre, n) && hfs.Others() < hfs.store.bm.numBufs && NoEmptyRecords(AllEntries(x.pages))
    requires Ahead(hfs.Position(), x.pages) == AllEntries(x.pages)
    modifies hfs, hfs.store.Repr(), hfs.store.bm.db`files
    ensures Scanning(hfs, x, b, pre, n) && hfs.Others() == old(hfs.Others())
    ensures hfs.store.view.logical == old(hfs.store.view.logical) && hfs.store.view.free == old(hfs.store.view.free)
    ensures st == OK || st == FILEEOF
    ensures AllEntries(x.pages) == passed + es && Matching(passed, Both(Named(n), AttrNameIs(name))) == []
    ensures Advanced(st, rec, es, front, hfs.Position(), x.pages, Named(n)) && (st == OK ==> AttrNameIs(name)(rec))
  {
    hide HeapFile.Valid, HeapFile.Shows, Scanning, Over, Store.Valid, Ahead, AllEntries, Advanced, NoEmptyRecords,
         Named, Both, Matching, CString;
    ghost var o, t := hfs.Others(), AttrNameIs(name);
    passed, es := [], AllEntries(x.pages);
    NothingPassed(es, Both(Named(n), t));
    while true
      invariant Scanning(hfs, x, b, pre, n) && hfs.Others() == o && es == Ahead(hfs.Position(), x.pages) &&
                NoEmptyRecords(es)
      invariant hfs.store.view.logical == old(hfs.store.view.logical) && hfs.store.view.free == old(hfs.store.view.free)
      invariant AllEntries(x.pages) == passed + es && Matching(passed, Both(Named(n), t)) == []
      decreases |es|
    {
      st, rec, front := NextTuple(hfs, x, b, pre, n);
      StillFull(st, rec, es, front, hfs.Position(), x.pages, Named(n));
      MatchesOn(st, rec, es, front, hfs.Position(), x.pages, Named(n));
      if st != OK {
        return;
      }
      if CString(rec, MAXNAME, MAXNAME) == name {
        return;
      }
      PassedOver(rec, passed, es, front, hfs.Position(), x.pages, Named(n), t);
      passed := passed + front + [SlotEntry(x.pages[hfs.pos], hfs.curRec.slotNo)];
      es := Ahead(hfs.Position(), x.pages);
    }
  }

  /** Removes the tuple of one attribute of a relation from the attribute catalog. */
  method RemoveNamed(s: Store, f: int, relation: Bytes, name: Bytes, ghost x: HeapImage)
    returns (st: Status, ghost x': HeapImage, ghost rec: Bytes)
    requires Reachable(s, x) && x.file == f && OwnRows(x.pages, relation)
    modifies s.Repr(), s.bm.db
    ensures s.Valid() && OnlyFile(s, f) && Stored(s.view, x') && x'.file == f &&
            TupleGone(st, x.pages, x'.pages, relation, AttrNameIs(name), rec)
  {
    hide HeapFile.Valid, HeapFile.Shows, Over, Store.Valid, Stored, Ahead, AllEntries, Advanced, NoEmptyRecords, Tuples,
         TupleGone, OwnRows, OthersSame, Named, Both, Matching, Delete, Passed, AttrNameIs;
    ghost var v, b := s.view, Base(s.view.pins, s.view.owed);
    s.DebtsWithinPins();
    OverItself(v);
    OthersSameNow(v, f);
    x' := x;
    var hfs := OpenScan(s, f, relation, x, b, []);
    ghost var passed, es, front;
    var found;
    st, found, passed, es, front := FindNamed(hfs, name, x, b, [], relation);
    rec := found;
    ghost var v1 := s.view;
    OthersSameTwice(v, v, v1, v1, f);
    if st == FILEEOF {
      AtEndGone(passed, es, front, rec, hfs.Position(), x.pages, relation, AttrNameIs(name));
      st := RELNOTFOUND;
      CloseScan(hfs, x, b, []);
      NothingOver(b, s.view);
      OthersSameTwice(v, v1, s.view, s.view, f);
      SameStored(v, s.view, x);
    } else {
      ThereToRemove(rec, passed, es, front, hfs.Position(), x, relation, AttrNameIs(name));
      st, x' := RemoveHere(hfs, x, b, relation);
      OthersSameTwice(v, v1, v1, s.view, f);
    }
    OpenThenClose(old(s.bm.db.openCnt), f);
  }

  lemma {:induction false} NoneOfThem(es: seq<Entry>, m: Bytes -> bool, t: Bytes -> bool)
    requires Matching(es, Both(m, t)) == []
    ensures FirstOf(BytesOf(Matching(es, m)), t) == None
  {
    if es != [] {
      NoneOfThem(es[1..], m, t);
      var rest := Matching(es[1..], m);
      assert ([es[0]] + rest)[1..] == rest && [] + rest == rest;
    }
  }

  /** What a search for a tuple comes to. */
  lemma SearchEnds(st: Status, rec: Bytes, passed: seq<Entry>, es: seq<Entry>, front: seq<Entry>, c: Cursor,
                   pages: seq<PageImage>, n: Bytes, t: Bytes -> bool)
    requires AllEntries(pages) == passed + es && Matching(passed, Both(Named(n), t)) == [] &&
             Advanced(st, rec, es, front, c, pages, Named(n))
    requires st == OK ==> t(rec)
    ensures FirstOf(Tuples(pages, n), t) == if st == OK then Some(rec) else None
  {
    hide AllEntries, Ahead, Remaining, Matching, NoEmptyRecords, Named, Both, FirstOf, BytesOf;
    var m := Named(n);
    if st == OK {
      var e, rest := SlotEntry(pages[c.pos], c.slot), Ahead(c, pages);
      FewerMatch(front, m, t);
      MatchingConcat(passed, front, Both(m, t));
      assert passed + (front + ([e] + rest)) == (passed + front) + ([e] + rest);
      RemovedBehind(passed + front, e, rest, m, t);
    } else {
      FewerMatch(es, m, t);
      MatchingConcat(passed, es, Both(m, t));
      NoneOfThem(AllEntries(pages), m, t);
    }
  }

  /** The tuple of one attribute of a relation. */
  method NamedTuple(s: Store, f: int, relation: Bytes, name: Bytes, ghost x: HeapImage, ghost b: Base,
                    ghost pre: seq<Hold>) returns (st: Status, rec: Bytes)
    requires Reachable(s, x) && x.file == f && Over(b, s.view, pre)
    modifies s.Repr(), s.bm.db
    ensures s.Valid() && Over(b, s.view, pre) && |s.view.pins| == |old(s.view.pins)|
    ensures s.view.logical == old(s.view.logical) && s.view.free == old(s.view.free) &&
            s.bm.db.openCnt == old(s.bm.db.openCnt)
    ensures var found := FirstOf(Tuples(x.pages, relation), AttrNameIs(name));
            st == (if found.None? then ATTRNOTFOUND else OK) && (st == OK ==> rec == found.value)
  {
    hide HeapFile.Valid, HeapFile.Shows, Over, Store.Valid, Stored, Ahead, AllEntries, Advanced, NoEmptyRecords, Tuples,
         AttrNameIs, Named, Both, Matching;
    var hfs := OpenScan(s, f, relation, x, b, pre);
    ghost var passed, es, front;
    st, rec, passed, es, front := FindNamed(hfs, name, x, b, pre, relation);
    SearchEnds(st, rec, passed, es, front, hfs.Position(), x.pages, relation, AttrNameIs(name));
    if st == FILEEOF {
      st := ATTRNOTFOUND;
    }
    CloseScan(hfs, x, b, pre);
    OpenThenClose(old(s.bm.db.openCnt), f);
  }
}
