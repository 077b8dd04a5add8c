/** Heap files, scans over them and insertion, as objects that pin pages of the buffer pool. */
module HeapFile {
  import opened Common
  import opened Compare
  import opened PageSpec
  import opened DiskSpec
  import opened BufHash
  import opened BufRefine
  import opened BufRuns
  import opened HeapSpec
  import opened Chain
  import opened Storage

  /** Where a scan stands: page `pos` of the chain, behind slot `slot`. */
  datatype Cursor = Cursor(pinned: bool, pageNo: int, pos: nat, slot: int)

  /** The cursor points at a page of the chain if it has one pinned. */
  ghost predicate OnChain(c: Cursor, chain: seq<int>) {
    c.slot >= -1 && (c.pinned ==> c.pos < |chain| && chain[c.pos] == c.pageNo)
  }

  /**
   The records in front of the cursor. A negative page number means the end was reached. Without a
   pinned page the scan starts over, but gives up at once if the first page is empty.
   */
  ghost function Ahead(c: Cursor, pages: seq<PageImage>): seq<Entry> {
    if pages == [] || c.pageNo < 0 then []
    else if c.pinned then if c.pos < |pages| && c.slot >= -1 then Remaining(pages, c.pos, c.slot + 1) else []
    else if PageEntries(pages[0], 0) == [] then []
    else AllEntries(pages)
  }

  /** The two pages an object on the file has pinned when it has been opened. */
  function FirstPages(f: int, chain: seq<int>): set<Key>
    requires chain != []
  {
    {Key(f, 1), Key(f, chain[0])}
  }

  lemma OpenFits(pins: multiset<Key>, f: int, chain: seq<int>, frames: int)
    requires chain != [] && |pins| + 2 <= frames
    ensures FramesFor(pins, FirstPages(f, chain), frames)
  {
    FramesFew(pins, FirstPages(f, chain), frames);
  }

  lemma PlusMinus(pins: multiset<Key>, k: Key)
    ensures pins + multiset{k} - multiset{k} == pins && pins - multiset{} == pins
  {
  }

  /** Opens a file and pins its header page and its first data page, if the pool has frames for both. */
  method PinFirstPages(s: Store, f: int, ghost chain: seq<int>)
    returns (st: Status, headerPageNo: int, hdrFrame: int, firstPageNo: int, firstFrame: int)
    requires s.Valid() && f in s.view.free && f in s.bm.db.openCnt && HeapAt(s.view.logical, f, 1, chain)
    modifies s.Repr(), s.bm.db
    ensures s.Valid() && chain != [] && headerPageNo == 1
    ensures st == OK <==> FramesFor(old(s.view.pins), FirstPages(f, chain), s.bm.numBufs)
    ensures s.view.logical == old(s.view.logical) && s.view.free == old(s.view.free) && s.view.owed == old(s.view.owed)
    ensures st == OK ==> s.view.pins == old(s.view.pins) + multiset{Key(f, 1)} + multiset{Key(f, chain[0])}
    ensures KeepsFrames(old(s.view), s.view)
    ensures st == OK ==>
              firstPageNo == chain[0] && FrameOf(s.view, Key(f, 1)) == hdrFrame &&
              FrameOf(s.view, Key(f, chain[0])) == firstFrame
    ensures KeepsSaved(old(s.bm.db.files), s.bm.db.files, s.view.logical)
    ensures st != OK ==>
              st == BUFFEREXCEEDED && (s.view.pins == old(s.view.pins) ||
                                       s.view.pins == old(s.view.pins) + multiset{Key(f, 1)})
    ensures s.bm.db.openCnt == old(s.bm.db.openCnt)[f := old(s.bm.db.openCnt)[f] + 1]
  {
    hide HeapAt, Store.Valid, FramesFor, KeepsSaved;
    ghost var d, l := s.bm.db.files, s.view.logical;
    SavedNow(d, l);
    HeaderFacts(l, f, 1, chain);
    TwoFrames(s.view.pins, Key(f, 1), Key(f, chain[0]), s.bm.numBufs);
    s.OpenFile(f);
    headerPageNo := s.FirstPage(f);
    firstPageNo, firstFrame := -1, -1;
    st, hdrFrame := s.ReadPage(Key(f, headerPageNo));
    if st != OK {
      return;
    }
    ghost var d1 := s.bm.db.files;
    var hdr := s.Get(hdrFrame, Key(f, headerPageNo));
    firstPageNo := hdr.hdr.firstPage;
    st, firstFrame := s.ReadPage(Key(f, firstPageNo));
    SavedTwice(d, d1, s.bm.db.files, l);
  }

  class HeapFile {
    const store: Store
    const filePtr: int
    const headerPageNo: int
    /** True for an InsertFileScan, whose destructor always unpins the data page dirty. */
    const inserting: bool
    /** What pinning the first two pages came to. */
    const outcome: Status
    var hdrDirtyFlag: bool
    /** The pointer to the pinned header page. */
    const hdrFrame: int
    /** True if a data page is pinned, and the pointer to it. */
    var curPage: bool
    var curFrame: int
    var curPageNo: int
    var curDirtyFlag: bool
    var curRec: RID
    var filter: ScanFilter
    var markedPageNo: int
    var markedRec: RID
    /** Positions of the current and of the marked page in the chain. */
    ghost var pos: nat
    ghost var markedPos: nat
    /** The current page has been written since it was pinned. */
    ghost var curOwes: bool

    ghost function Held(): Hold
      reads this`hdrDirtyFlag, this`curPage, this`curPageNo, this`curFrame, this`curOwes
    {
      var h := Key(filePtr, headerPageNo);
      Hold(h, hdrFrame, hdrDirtyFlag, curPage, if curPage then Key(filePtr, curPageNo) else h,
           if curPage then curFrame else hdrFrame, curPage && curOwes)
    }

    /** How many pins there are besides the one on the current page. */
    ghost function Others(): int
      reads this`curPage, store`view
    {
      |store.view.pins| - if curPage then 1 else 0
    }

    ghost function OtherPins(): multiset<Key>
      reads this`curPage, this`curPageNo, store`view
    {
      store.view.pins - if curPage then multiset{Key(filePtr, curPageNo)} else multiset{}
    }

    /** The pages pinned besides the current page take all frames. */
    ghost predicate Full()
      reads this`curPage, this`curPageNo, store`view
    {
      |PinnedPages(OtherPins())| >= store.bm.numBufs
    }

    /** It takes that many pins at least. */
    lemma NotFull()
      requires Core() && Others() < store.bm.numBufs
      ensures !Full()
    {
      hide Store.Valid, Holding;
      PinnedByHolder(store.view, Held());
      PagesFew(OtherPins());
    }

    ghost function Position(): Cursor
      reads this`curPage, this`curPageNo, this`pos, this`curRec
    {
      Cursor(curPage, curPageNo, pos, curRec.slotNo)
    }

    /** The current record, as a pointer into the pool. */
    function Under(): RecordPtr
      reads this`curFrame, this`curPageNo, this`curRec
    {
      RecordPtr(curFrame, Key(filePtr, curPageNo), curRec.slotNo)
    }

    /** The records the filter accepts, as storage is now. */
    ghost function Matches(): Bytes -> bool
      reads this`filter, store`view
    {
      Filtering(Meaning(filter, store.view.logical))
    }

    /** The position recorded by the last markScan; a scan that is reset to it has its page pinned. */
    ghost function MarkedPosition(): Cursor
      reads this`markedPageNo, this`markedPos, this`markedRec
    {
      Cursor(true, markedPageNo, markedPos, markedRec.slotNo)
    }

    /** The object holds the pins it should, whatever the pages look like. */
    ghost predicate Core()
      reads this, store, store.bm, store.bm.db, store.bm.hashTable, store.bm.hashTable.ht, store.bm.bufTable,
            store.bm.bufPool
    {
      && store.Valid() && filePtr in store.view.free
      && Holding(store.view, Held())
      && (curPage ==> curPageNo != headerPageNo)
      && (curPage && curOwes ==> curDirtyFlag)
    }

    ghost predicate Valid(chain: seq<int>)
      reads this, store, store.bm, store.bm.db, store.bm.hashTable, store.bm.hashTable.ht, store.bm.bufTable,
            store.bm.bufPool
    {
      && Core()
      && HeapAt(store.view.logical, filePtr, headerPageNo, chain)
      && OnChain(Position(), chain)
    }

    /** The part of `Valid` that depends on this object alone. */
    ghost predicate Fields(chain: seq<int>)
      reads this
    {
      && (curPage ==> curPageNo != headerPageNo)
      && (curPage && curOwes ==> curDirtyFlag)
      && OnChain(Position(), chain)
    }

    lemma CoreOf(chain: seq<int>)
      requires Valid(chain)
      ensures Core()
    {
    }

    /** Other objects can only invalidate this one through the store. */
    lemma ValidParts(chain: seq<int>)
      ensures Valid(chain) <==>
                && store.Valid() && filePtr in store.view.free && Holding(store.view, Held())
                && HeapAt(store.view.logical, filePtr, headerPageNo, chain) && Fields(chain)
    {
      hide Store.Valid, Holding, HeapAt;
    }

    /** The file's chain, and its pages as clients see them. */
    ghost predicate Shows(chain: seq<int>, pages: seq<PageImage>)
      reads store
    {
      HeapAt(store.view.logical, filePtr, headerPageNo, chain) && pages == PagesOf(store.view.logical, filePtr, chain)
    }

    /**
     Opens the file, pins its header page and its first data page. That works exactly if the pool has frames
     for them; the source reports OK in any case and goes on with a pointer that was never set.
     */
    constructor Open(s: Store, f: int, insertScan: bool, ghost chain: seq<int>)
      requires s.Valid() && f in s.view.free && f in s.bm.db.openCnt && HeapAt(s.view.logical, f, 1, chain)
      modifies s.Repr(), s.bm.db
      ensures chain != [] && store == s && filePtr == f && headerPageNo == 1 && inserting == insertScan && s.Valid()
      ensures outcome == OK <==> FramesFor(old(s.view.pins), FirstPages(f, chain), s.bm.numBufs)
      ensures outcome == OK ==>
                Valid(chain) && curPage && curPageNo == chain[0] && pos == 0 && curRec == NULLRID && !curDirtyFlag &&
                !curOwes && !hdrDirtyFlag
      ensures outcome == OK ==> Others() == |old(s.view.pins)| + 1 && Opened(old(s.view), store.view, Held())
      ensures outcome == OK ==> s.view.pins == old(s.view.pins) + multiset{Key(f, 1)} + multiset{Key(f, chain[0])}
      ensures KeepsSaved(old(s.bm.db.files), s.bm.db.files, s.view.logical) && KeepsFrames(old(s.view), s.view)
      ensures outcome != OK ==>
                outcome == BUFFEREXCEEDED && (s.view.pins == old(s.view.pins) ||
                                              s.view.pins == old(s.view.pins) + multiset{Key(f, 1)})
      ensures store.view.logical == old(s.view.logical) && store.view.free == old(s.view.free) &&
              store.view.owed == old(s.view.owed)
      ensures s.bm.db.openCnt == old(s.bm.db.openCnt)[f := old(s.bm.db.openCnt)[f] + 1]
      ensures filter == Unfiltered
    {
      hide HeapAt, Store.Valid, Holding, Opened, FramesFor, KeepsSaved;
      store, filePtr, inserting := s, f, insertScan;
      hdrDirtyFlag, curPage, curDirtyFlag, curRec := false, true, false, NULLRID;
      filter := Unfiltered;
      markedPageNo, markedRec := 0, NULLRID;
      pos, markedPos, curOwes := 0, 0, false;
      ghost var v := s.view;
      s.DebtsWithinPins();
      HeaderFacts(v.logical, f, 1, chain);
      ChainFacts(v.logical, f, 1, chain, 0);
      var st, h, i, c, j := PinFirstPages(s, f, chain);
      outcome, headerPageNo, hdrFrame, curPageNo, curFrame := st, h, i, c, j;
      if st == OK {
        OpenHolding(v, Key(f, 1), i, Key(f, chain[0]), j, s.view);
      }
    }

    /** Releases the current data page. */
    method UnpinCurrent(ghost chain: seq<int>)
      requires Valid(chain) && curPage
      modifies this`curPage, store.Repr()
      ensures Valid(chain) && !curPage && Others() == old(Others()) && OtherPins() == old(OtherPins())
      ensures store.view.logical == old(store.view.logical) && store.view.free == old(store.view.free)
      ensures Exchanged(old(store.view), old(Held()), store.view, Held())
    {
      hide HeapAt, Store.Valid, Holding, Exchanged;
      Chain.UnpinCurrent(store.view, Held());
      store.PinnedInUse(Key(filePtr, curPageNo));
      var st := store.UnPinPage(Key(filePtr, curPageNo), curDirtyFlag, curOwes);
      curPage := false;
    }

    /** What a step of a scan leaves alone. */
    twostate predicate ScanFrame()
      reads this, store
    {
      && hdrDirtyFlag == old(hdrDirtyFlag) && filter == old(filter)
      && MarkedPosition() == old(MarkedPosition())
      && Others() == old(Others()) && OtherPins() == old(OtherPins())
      && store.view.logical == old(store.view.logical) && store.view.free == old(store.view.free)
      && Exchanged(old(store.view), old(Held()), store.view, Held())
    }

    /** Moves the cursor within the current page. */
    method SetRec(ghost chain: seq<int>, slotNo: int)
      requires Valid(chain) && slotNo >= -1
      modifies this`curRec
      ensures Valid(chain) && curRec == RID(curPageNo, slotNo)
    {
      curRec := RID(curPageNo, slotNo);
    }

    /** Changes the page number of an object without a data page. */
    method SetPageNo(ghost chain: seq<int>, pageNo: int)
      requires Valid(chain) && !curPage
      modifies this`curPageNo
      ensures Valid(chain) && curPageNo == pageNo && Held() == old(Held()) && OtherPins() == old(OtherPins())
    {
      curPageNo := pageNo;
    }

    /** Pins page `i` of the chain as the current page. */
    method PinPage(ghost chain: seq<int>, ghost i: nat, pageNo: int) returns (st: Status)
      requires Valid(chain) && !curPage && i < |chain| && pageNo == chain[i]
      modifies this, store.Repr(), store.bm.db`files
      ensures Valid(chain) && curPage == (st == OK) && curPageNo == pageNo && !curOwes && !curDirtyFlag
      ensures curRec == old(curRec) && ScanFrame()
      ensures st == OK ==> pos == i
      ensures st != OK ==> st == BUFFEREXCEEDED && old(Full())
    {
      hide HeapAt, Valid, OtherPins, PinnedPages, Exchanged;
      AimAt(chain, pageNo);
      st := ReadAimed(chain, i);
    }

    /** Notes the page to read next. */
    method AimAt(ghost chain: seq<int>, pageNo: int)
      requires Valid(chain) && !curPage
      modifies this`curPageNo, this`curDirtyFlag, this`curOwes
      ensures Valid(chain) && curPageNo == pageNo && !curDirtyFlag && !curOwes && Held() == old(Held()) &&
              OtherPins() == old(OtherPins())
    {
      hide HeapAt, Store.Valid, Holding;
      curPageNo := pageNo;
      curDirtyFlag := false;
      curOwes := false;
    }

    /** Reads the page noted. */
    method ReadAimed(ghost chain: seq<int>, ghost i: nat) returns (st: Status)
      requires Valid(chain) && !curPage && !curOwes && i < |chain| && curPageNo == chain[i]
      modifies this`curPage, this`curFrame, this`pos, store.Repr(), store.bm.db`files
      ensures Valid(chain) && curPage == (st == OK)
      ensures Others() == old(Others()) && OtherPins() == old(OtherPins()) &&
              store.view.logical == old(store.view.logical) && store.view.free == old(store.view.free)
      ensures Exchanged(old(store.view), old(Held()), store.view, Held())
      ensures st == OK ==> pos == i
      ensures st != OK ==> st == BUFFEREXCEEDED && old(Full())
    {
      hide HeapAt, Valid, Core, Store.Valid, Holding, Exchanged, PinnedPages, FramesFor, KeepsSaved, FrameOf;
      ValidParts(chain);
      ghost var v, o := store.view, Held();
      ChainFacts(v.logical, filePtr, headerPageNo, chain, i);
      SameHold(v, o);
      PlusMinus(v.pins, Key(filePtr, curPageNo));
      var frame;
      st, frame := store.ReadPage(Key(filePtr, curPageNo));
      if st == OK {
        PinCurrent(v, o, Key(filePtr, curPageNo), frame);
        curPage, curFrame, pos := true, frame, i;
        assert Held() == o.(pinned := true, c := Key(filePtr, curPageNo), curFrame := frame, curOwes := false);
      }
      ValidParts(chain);
    }

    /** Leaves the current page for another one of the chain. */
    method TurnPage(ghost chain: seq<int>, ghost i: nat, pageNo: int) returns (st: Status)
      requires Valid(chain) && curPage && i < |chain| && pageNo == chain[i]
      modifies this, store.Repr(), store.bm.db`files
      ensures Valid(chain) && curPage == (st == OK) && curPageNo == pageNo && !curOwes && !curDirtyFlag
      ensures curRec == old(curRec) && ScanFrame()
      ensures st == OK ==> pos == i
      ensures st != OK ==> st == BUFFEREXCEEDED && old(Full())
    {
      hide HeapAt, Valid, OtherPins, PinnedPages, Exchanged;
      ghost var v, o := store.view, Held();
      UnpinCurrent(chain);
      ghost var v1, o1 := store.view, Held();
      st := PinPage(chain, i, pageNo);
      ExchangedTwice(v, o, v1, o1, store.view, Held());
    }

    /** The page the cursor is on. */
    method CurrentPage(ghost chain: seq<int>, ghost pages: seq<PageImage>) returns (p: PageImage)
      requires Valid(chain) && curPage && Shows(chain, pages)
      ensures pos < |chain| == |pages| && p == pages[pos] && curPageNo >= 1 && OnPage(Position(), pages)
      ensures p.curPage == curPageNo &&
              (if pos + 1 < |chain| then p.nextPage == chain[pos + 1] && p.nextPage != -1 else p.nextPage == -1)
    {
      hide HeapAt, Store.Valid, Holding;
      PageFacts(store.view.logical, filePtr, headerPageNo, chain, pos);
      PinnedByHolder(store.view, Held());
      var b := store.Get(curFrame, Key(filePtr, curPageNo));
      p := b.page;
    }

    /** Moves to the first record of the current page, if it has one. */
    method FirstRecord(ghost chain: seq<int>, ghost pages: seq<PageImage>) returns (st: Status)
      requires Valid(chain) && curPage && Shows(chain, pages)
      modifies this`curRec
      ensures Valid(chain) && OnPage(Position(), pages) && OnPage(old(Position()), pages)
      ensures var n := NextLive(pages[pos].slots, 0);
              if n < |pages[pos].slots| then st == OK && curRec == RID(curPageNo, n)
                else st == NORECORDS && curRec == old(curRec)
    {
      hide HeapAt, Valid, NextLive, PagesOf;
      var p := CurrentPage(chain, pages);
      var nr := NextLive(p.slots, 0);
      if nr < |p.slots| {
        SetRec(chain, nr);
        return OK;
      }
      return NORECORDS;
    }

    /** Goes on to the next page of the chain and to its first record, if it has one. */
    method TryNextPage(ghost chain: seq<int>, ghost pages: seq<PageImage>, ghost c0: Cursor, nextPageNo: int)
      returns (st: Status)
      requires Valid(chain) && curPage && Shows(chain, pages) && Exhausted(c0, Position(), pages)
      requires pos + 1 < |chain| && nextPageNo == chain[pos + 1]
      modifies this, store.Repr(), store.bm.db`files
      ensures Valid(chain) && ScanFrame()
      ensures st == OK || st == NORECORDS || (st == BUFFEREXCEEDED && old(Full()))
      ensures st == BUFFEREXCEEDED <==> !curPage
      ensures st == OK ==> Stepped(c0, Position(), pages) && curRec.pageNo == curPageNo
      ensures st == NORECORDS ==> Exhausted(c0, Position(), pages) && pos == old(pos) + 1
    {
      hide HeapAt, Valid, OtherPins, PinnedPages, Exchanged, NextLive, Exhausted, Stepped, PagesOf;
      ghost var c := Position();
      st := TurnPage(chain, pos + 1, nextPageNo);
      if st == OK {
        ghost var c1 := Position();
        st := FirstRecord(chain, pages);
        TurnStep(c0, c, c1, pages);
      }
    }

    /** The loop over pages that hold no further record. */
    method NextPageWithRecord(ghost chain: seq<int>, ghost pages: seq<PageImage>, ghost c0: Cursor) returns (st: Status)
      requires Valid(chain) && curPage && Shows(chain, pages) && Exhausted(c0, Position(), pages)
      modifies this, store.Repr(), store.bm.db`files
      ensures Valid(chain) && ScanFrame()
      ensures st == OK || st == FILEEOF || (st == BUFFEREXCEEDED && old(Full()))
      ensures st == BUFFEREXCEEDED <==> !curPage
      ensures st == FILEEOF ==> AtEnd(c0, Position(), pages)
      ensures st == OK ==> Stepped(c0, Position(), pages) && curRec.pageNo == curPageNo
    {
      hide HeapAt, Valid, OtherPins, PinnedPages, Exchanged, Exhausted, Stepped, AtEnd, PagesOf;
      SameHold(store.view, Held());
      st := ENDOFPAGE;
      while st == ENDOFPAGE || st == NORECORDS
        invariant Valid(chain) && ScanFrame()
        invariant st == OK || st == NORECORDS || st == ENDOFPAGE || (st == BUFFEREXCEEDED && old(Full()))
        invariant st == BUFFEREXCEEDED <==> !curPage
        invariant st == OK ==> Stepped(c0, Position(), pages) && curRec.pageNo == curPageNo
        invariant st == NORECORDS || st == ENDOFPAGE ==> Exhausted(c0, Position(), pages)
        decreases st == NORECORDS || st == ENDOFPAGE, |chain| - pos
      {
        ghost var v, o := store.view, Held();
        var p := CurrentPage(chain, pages);
        if p.nextPage == -1 {
          EndStep(c0, Position(), pages);
          return FILEEOF;
        }
        st := TryNextPage(chain, pages, c0, p.nextPage);
        ExchangedTwice(old(store.view), old(Held()), v, o, store.view, Held());
      }
    }

    /** Moves to the next record of the file, whatever it holds. */
    method Advance(ghost chain: seq<int>, ghost pages: seq<PageImage>) returns (st: Status)
      requires Valid(chain) && curPage && Shows(chain, pages)
      modifies this, store.Repr(), store.bm.db`files
      ensures Valid(chain) && ScanFrame()
      ensures st == OK || st == FILEEOF || (st == BUFFEREXCEEDED && old(Full()))
      ensures st == BUFFEREXCEEDED <==> !curPage
      ensures st == FILEEOF ==> AtEnd(old(Position()), Position(), pages)
      ensures st == OK ==> Stepped(old(Position()), Position(), pages) && curRec.pageNo == curPageNo
    {
      hide HeapAt, Valid, OtherPins, PinnedPages, Exchanged, NextLive, Exhausted, Stepped, AtEnd, PagesOf;
      var p := CurrentPage(chain, pages);
      var nr := NextLive(p.slots, curRec.slotNo + 1);
      InPageStep(Position(), pages);
      SameHold(store.view, Held());
      if nr < |p.slots| {
        SetRec(chain, nr);
        return OK;
      }
      st := NextPageWithRecord(chain, pages, Position());
    }

    /** The special case of a scan without a pinned page: back to the first record of the file. */
    method Restart(ghost chain: seq<int>, ghost pages: seq<PageImage>) returns (st: Status)
      requires Valid(chain) && !curPage && Shows(chain, pages) && curPageNo >= 0
      modifies this, store.Repr(), store.bm.db`files
      ensures Valid(chain) && ScanFrame()
      ensures st == OK || st == FILEEOF || (st == BUFFEREXCEEDED && old(Full()))
      ensures curPage == (st == OK)
      ensures st == FILEEOF ==> AtEnd(old(Position()), Position(), pages)
      ensures st == OK ==> Stepped(old(Position()), Position(), pages) && curRec.pageNo == curPageNo
    {
      hide HeapAt, Valid, OtherPins, PinnedPages, Exchanged, Stepped, AtEnd, PagesOf;
      ghost var c0, v, o := Position(), store.view, Held();
      var first := FirstPageNo(chain);
      st := PinPage(chain, 0, first);
      if st != OK {
        return;
      }
      ghost var v1, o1 := store.view, Held();
      st := FirstOrEnd(chain, pages, c0);
      ExchangedTwice(v, o, v1, o1, store.view, Held());
    }

    /** The first record of the first page. If there is none the scan is over, whatever the other pages hold. */
    method FirstOrEnd(ghost chain: seq<int>, ghost pages: seq<PageImage>, ghost c0: Cursor) returns (st: Status)
      requires Valid(chain) && curPage && Shows(chain, pages) && pos == 0 && !c0.pinned && c0.pageNo >= 0
      modifies this, store.Repr()
      ensures Valid(chain) && ScanFrame()
      ensures st == OK || st == FILEEOF
      ensures curPage == (st == OK)
      ensures st == FILEEOF ==> AtEnd(c0, Position(), pages)
      ensures st == OK ==> Stepped(c0, Position(), pages) && curRec.pageNo == curPageNo
    {
      hide HeapAt, Valid, OtherPins, PinnedPages, Exchanged, NextLive, Stepped, AtEnd, PagesOf;
      SameHold(store.view, Held());
      ghost var c1 := Position();
      st := FirstRecord(chain, pages);
      RestartStep(c0, c1, pages);
      if st == OK {
        return;
      }
      UnpinCurrent(chain);
      SetPageNo(chain, -1);
      return FILEEOF;
    }

    method FirstPageNo(ghost chain: seq<int>) returns (pageNo: int)
      requires Valid(chain)
      ensures chain != [] && pageNo == chain[0]
    {
      hide HeapAt, Store.Valid, Holding;
      HeaderFacts(store.view.logical, filePtr, headerPageNo, chain);
      PinnedByHolder(store.view, Held());
      var b := store.Get(hdrFrame, Key(filePtr, headerPageNo));
      pageNo := b.hdr.firstPage;
    }

    /** The record under the cursor. An empty record cannot be read. */
    method GetRecord(ghost chain: seq<int>, ghost pages: seq<PageImage>) returns (st: Status, rec: Bytes)
      requires Valid(chain) && curPage && Shows(chain, pages) && curRec.slotNo >= 0
      ensures pos < |pages|
      ensures st == if pages[pos].Live(curRec.slotNo) && pages[pos].slots[curRec.slotNo].bytes != [] then OK
                    else INVALIDSLOTNO
      ensures st == OK ==> rec == pages[pos].slots[curRec.slotNo].bytes
    {
      hide HeapAt, Valid, PagesOf;
      var p := CurrentPage(chain, pages);
      if p.Live(curRec.slotNo) && |p.slots[curRec.slotNo].bytes| > 0 {
        return OK, p.slots[curRec.slotNo].bytes;
      }
      return INVALIDSLOTNO, [];
    }

    /** The next record of the file, whether or not it matches. */
    method NextAny(ghost chain: seq<int>, ghost pages: seq<PageImage>) returns (st: Status)
      requires Valid(chain) && Shows(chain, pages) && curPageNo >= 0
      modifies this, store.Repr(), store.bm.db`files
      ensures Valid(chain) && ScanFrame()
      ensures st == OK || st == FILEEOF || (st == BUFFEREXCEEDED && old(Full()))
      ensures st == FILEEOF ==> AtEnd(old(Position()), Position(), pages)
      ensures old(curPage) && st != BUFFEREXCEEDED ==> curPage
      ensures st == OK ==> curPage && pos < |pages| && curRec.pageNo == curPageNo == pages[pos].curPage
      ensures st == OK ==> Stepped(old(Position()), Position(), pages)
    {
      hide HeapAt, Valid, OtherPins, PinnedPages, Exchanged, Stepped, AtEnd, PagesOf;
      if curPage {
        st := Advance(chain, pages);
      } else {
        st := Restart(chain, pages);
      }
      if st == OK {
        var p := CurrentPage(chain, pages);
      }
    }

    /** Does the record pass the filter? The value to compare with is read where the filter says. */
    method Match(record: Bytes) returns (b: bool)
      requires store.Valid() && Ready(store.view, Held(), filter)
      ensures b == Matches()(record)
    {
      hide Store.Valid, Field;
      if filter.Unfiltered? || filter.source.Null? {
        return true;
      }
      var value;
      if filter.source.Value? {
        value := filter.source.bytes;
      } else {
        var rec := ReadRecord(store, filter.source.rec);
        value := Field(rec, filter.source.at, filter.length);
      }
      return MatchRec(Filter(filter.offset, filter.length, filter.kind, value, filter.op), record);
    }

    /** One turn of scanNext: goes to the next record, and goes on if it does not match. */
    method ScanTurn(ghost chain: seq<int>, ghost pages: seq<PageImage>, ghost m: Bytes -> bool)
      returns (st: Status, goesOn: bool)
      requires Valid(chain) && Shows(chain, pages) && Ready(store.view, Held(), filter) && curPageNo >= 0 &&
               m == Matches()
      modifies this, store.Repr(), store.bm.db`files
      ensures Valid(chain) && ScanFrame() && Ready(store.view, Held(), filter)
      ensures st == BUFFEREXCEEDED ==> old(Full())
      ensures old(curPage) && st != BUFFEREXCEEDED ==> curPage
      ensures goesOn ==> st == OK && |Ahead(Position(), pages)| < |Ahead(old(Position()), pages)|
      ensures goesOn ==> Skip(Ahead(old(Position()), pages), m) == Skip(Ahead(Position(), pages), m)
      ensures !goesOn && st != BUFFEREXCEEDED ==>
                Found(st, curRec, Skip(Ahead(old(Position()), pages), m), Position(), pages)
    {
      hide HeapAt, Valid, Core, Fields, OtherPins, PinnedPages, Exchanged, Stepped, AtEnd, PagesOf, Ahead, Skip, Found,
           Ready, Meaning, Filtering;
      ghost var c, v, o := Position(), store.view, Held();
      goesOn := false;
      st := NextAny(chain, pages);
      ReadyKept(v, o, store.view, Held(), filter);
      if st == FILEEOF {
        EndFound(c, Position(), pages, m, curRec);
      }
      if st != OK {
        return;
      }
      var rec;
      StepFound(c, Position(), pages, m);
      st, rec := GetRecord(chain, pages);
      if st == OK {
        ValidParts(chain);
        var passes := Match(rec);
        goesOn := !passes;
      }
    }

    /**
     The next record that satisfies the filter. The scan stops short at an empty record; FILEEOF is
     repeatable, because then nothing is ahead of the cursor. A page that was pinned leaves one pinned.
     */
    method ScanNext(ghost chain: seq<int>, ghost pages: seq<PageImage>) returns (st: Status, outRid: RID)
      requires Valid(chain) && Shows(chain, pages) && Ready(store.view, Held(), filter)
      modifies this, store.Repr(), store.bm.db`files
      ensures Valid(chain) && ScanFrame() && Ready(store.view, Held(), filter)
      ensures st == BUFFEREXCEEDED ==> old(Full())
      ensures old(curPage) && st != BUFFEREXCEEDED ==> curPage
      ensures st == BUFFEREXCEEDED ||
              Found(st, outRid, Skip(Ahead(old(Position()), pages), Matches()), Position(), pages)
    {
      hide HeapAt, Valid, OtherPins, PinnedPages, Exchanged, PagesOf, Ahead, Skip, Found, Ready, Meaning, Filtering;
      outRid := NULLRID;
      ghost var c0, m, v0, o0 := Position(), Matches(), store.view, Held();
      SameHold(v0, o0);
      while true
        invariant Valid(chain) && ScanFrame() && Ready(store.view, Held(), filter) && (old(curPage) ==> curPage)
        invariant Skip(Ahead(c0, pages), m) == Skip(Ahead(Position(), pages), m)
        decreases |Ahead(Position(), pages)|
      {
        if curPageNo < 0 {
          NothingAhead(Position(), pages, m, outRid);
          return FILEEOF, outRid;
        }
        ghost var v, o := store.view, Held();
        var goesOn;
        st, goesOn := ScanTurn(chain, pages, m);
        ExchangedTwice(v0, o0, v, o, store.view, Held());
        if !goesOn {
          return st, curRec;
        }
      }
    }

    /** Sets the filter; parameters that are refused leave the filter as it was. */
    method StartScan(ghost chain: seq<int>, offset: int, length: int, kind: Datatype, source: Source, op: Operator)
      returns (st: Status)
      requires Valid(chain)
      modifies this`filter
      ensures Valid(chain)
      ensures st == if source.Null? || GoodScan(offset, length, kind) then OK else BADSCANPARM
      ensures filter == if source.Null? then Unfiltered
                        else if GoodScan(offset, length, kind) then Filtered(offset, length, kind, source, op)
                        else old(filter)
    {
      hide HeapAt, Store.Valid, Holding;
      if source.Null? {
        filter := Unfiltered;
        return OK;
      }
      if offset < 0 || length < 1 || (kind == INTEGER && length != 4) || (kind == FLOAT && length != 4) {
        return BADSCANPARM;
      }
      filter := Filtered(offset, length, kind, source, op);
      return OK;
    }

    /** Ends the scan: the data page is released and a later scanNext starts over. */
    method EndScan(ghost chain: seq<int>)
      requires Valid(chain)
      modifies this, store.Repr()
      ensures Valid(chain) && ScanFrame() && !curPage && curRec == old(curRec)
      ensures old(curPage) ==> curPageNo == 0 && !curDirtyFlag
    {
      hide HeapAt, Valid, OtherPins, PinnedPages, Exchanged;
      SameHold(store.view, Held());
      if curPage {
        UnpinCurrent(chain);
        AimAt(chain, 0);
      }
    }

    method MarkScan(ghost chain: seq<int>)
      requires Valid(chain)
      modifies this`markedPageNo, this`markedRec, this`markedPos
      ensures Valid(chain) && markedPageNo == curPageNo && markedRec == curRec
      ensures curPage ==> MarkedPosition() == Position()
    {
      hide HeapAt, Store.Valid, Holding;
      markedPageNo := curPageNo;
      markedRec := curRec;
      markedPos := pos;
    }

    /** Puts the scan back where it was marked, whatever page it has come to in the meantime. */
    method ResetScan(ghost chain: seq<int>) returns (st: Status)
      requires Valid(chain) && OnChain(MarkedPosition(), chain) && (curPage || markedPageNo != curPageNo)
      modifies this, store.Repr(), store.bm.db`files
      ensures Valid(chain) && ScanFrame()
      ensures st == OK || (st == BUFFEREXCEEDED && old(Full()))
      ensures st == OK ==> Position() == MarkedPosition() && curRec == markedRec
    {
      hide HeapAt, Valid, OtherPins, PinnedPages, Exchanged;
      st := OK;
      SameHold(store.view, Held());
      if markedPageNo != curPageNo {
        if curPage {
          st := TurnPage(chain, markedPos, markedPageNo);
        } else {
          st := PinPage(chain, markedPos, markedPageNo);
        }
      } else {
        SamePosition(chain, markedPos);
      }
      RestoreRec(chain);
    }

    method RestoreRec(ghost chain: seq<int>)
      requires Valid(chain) && markedRec.slotNo >= -1
      modifies this`curRec
      ensures Valid(chain) && curRec == markedRec
    {
      curRec := markedRec;
    }

    lemma PageIsReal(chain: seq<int>)
      requires Valid(chain) && curPage
      ensures curPageNo >= 1
    {
      hide Store.Valid, Holding;
      PageFacts(store.view.logical, filePtr, headerPageNo, chain, pos);
    }

    lemma AtPosition(chain: seq<int>)
      requires Valid(chain) && curPage
      ensures pos < |chain| && chain[pos] == curPageNo
    {
    }

    lemma SamePosition(chain: seq<int>, i: nat)
      requires Valid(chain) && curPage && i < |chain| && chain[i] == curPageNo
      ensures i == pos
    {
    }

    /** Makes page `i` of the chain the current page, whichever was pinned before. */
    method GoToPage(ghost chain: seq<int>, ghost i: nat, pageNo: int) returns (st: Status)
      requires Valid(chain) && i < |chain| && pageNo == chain[i]
      modifies this, store.Repr(), store.bm.db`files
      ensures Valid(chain) && ScanFrame() && curRec == old(curRec)
      ensures st == OK ==> curPage && pos == i && curPageNo == pageNo
      ensures st != OK ==> st == BUFFEREXCEEDED && old(Full())
    {
      hide HeapAt, Valid, OtherPins, PinnedPages, Exchanged, Others, Full, MarkedPosition;
      SameHold(store.view, Held());
      st := OK;
      if curPage && pageNo != curPageNo {
        st := TurnPage(chain, i, pageNo);
      } else if !curPage {
        st := PinPage(chain, i, pageNo);
      } else {
        SamePosition(chain, i);
      }
    }

    /** Retrieves any record of the file by its RID; the page it is on becomes the current page. */
    method FetchRecord(ghost chain: seq<int>, ghost pages: seq<PageImage>, ghost i: nat, rid: RID)
      returns (st: Status, rec: Bytes)
      requires Valid(chain) && Shows(chain, pages) && i < |chain| && rid.pageNo == chain[i] && rid.slotNo >= 0
      modifies this, store.Repr(), store.bm.db`files
      ensures Valid(chain) && ScanFrame() && i < |pages|
      ensures st == BUFFEREXCEEDED ==> old(Full())
      ensures st != BUFFEREXCEEDED ==>
                st == (if pages[i].Live(rid.slotNo) && pages[i].slots[rid.slotNo].bytes != [] then OK
                       else INVALIDSLOTNO)
      ensures st == OK ==> rec == pages[i].slots[rid.slotNo].bytes
      ensures st != BUFFEREXCEEDED ==> curPage
    {
      hide HeapAt, Valid, OtherPins, PinnedPages, Exchanged, PagesOf, Held, Others, Full, MarkedPosition;
      LengthOf(chain, pages);
      rec := [];
      st := GoToPage(chain, i, rid.pageNo);
      if st != OK {
        return;
      }
      SetRec(chain, rid.slotNo);
      st, rec := GetRecord(chain, pages);
    }

    /** An insert scan starts on the last page of the file. */
    method MoveToLast(ghost chain: seq<int>) returns (st: Status)
      requires Valid(chain) && curPage
      modifies this, store.Repr(), store.bm.db`files
      ensures Valid(chain) && ScanFrame() && (curPage ==> pos == |chain| - 1)
      ensures st == OK ==> curPage
      ensures st != OK ==> st == BUFFEREXCEEDED && old(Full())
      ensures old(pos) == |chain| - 1 ==> store.bm.db.files == old(store.bm.db.files) && st == OK
    {
      hide HeapAt, Valid, OtherPins, PinnedPages, Exchanged;
      SameHold(store.view, Held());
      AtPosition(chain);
      var last := LastPageNo(chain);
      st := OK;
      if curPageNo != last {
        st := TurnPage(chain, |chain| - 1, last);
      } else {
        SamePosition(chain, |chain| - 1);
      }
    }

    /**
     The destructors: the data page and the header page are unpinned and the file is closed. If this was
     the last object on the file, the disk then holds all of it.
     */
    method Close()
      requires Core() && filePtr in store.bm.db.openCnt
      modifies this, store.Repr(), store.bm.db
      ensures store.Valid() && store.view.logical == old(store.view.logical) && store.view.free == old(store.view.free)
      ensures Closed(old(store.view), old(Held()), store.view) && |store.view.pins| == old(Others()) - 1
      ensures var n := old(store.bm.db.openCnt)[filePtr];
              store.bm.db.openCnt == old(store.bm.db.openCnt)[filePtr := if n <= 0 then n else n - 1]
      ensures old(store.bm.db.openCnt)[filePtr] == 1 &&
              (forall k: Key :: k.file == filePtr ==> store.view.pins[k] == 0) ==>
                Durable(store.bm.pool, store.view, filePtr)
      ensures old(store.bm.db.openCnt)[filePtr] != 1 ==> store.bm.db.files == old(store.bm.db.files)
    {
      hide Store.Valid, Holding, Exchanged, Closed, Durable;
      ghost var v, o := store.view, Held();
      ReleasePages();
      store.CloseFile(filePtr);
    }

    method ReleasePages()
      requires Core()
      modifies this, store.Repr()
      ensures store.Valid() && store.view.logical == old(store.view.logical) && store.view.free == old(store.view.free)
      ensures Closed(old(store.view), old(Held()), store.view) && |store.view.pins| == old(Others()) - 1
    {
      hide Core, Exchanged, Closed;
      ghost var v, o := store.view, Held();
      SameHold(v, o);
      if curPage {
        DropPage();
      }
      ghost var v1, o1 := store.view, Held();
      ReleaseHeader();
      ClosedAfter(v, o, v1, o1, store.view);
    }

    method DropPage()
      requires Core() && curPage
      modifies this`curPage, store.Repr()
      ensures Core() && !curPage && Others() == old(Others())
      ensures store.view.logical == old(store.view.logical) && store.view.free == old(store.view.free)
      ensures Exchanged(old(store.view), old(Held()), store.view, Held())
    {
      hide Store.Valid, Holding, Exchanged;
      Chain.UnpinCurrent(store.view, Held());
      store.PinnedInUse(Key(filePtr, curPageNo));
      var st := store.UnPinPage(Key(filePtr, curPageNo), if inserting then true else curDirtyFlag, curOwes);
      curPage := false;
    }

    method ReleaseHeader()
      requires Core() && !curPage
      modifies store.Repr()
      ensures store.Valid() && store.view.logical == old(store.view.logical) && store.view.free == old(store.view.free)
      ensures Closed(old(store.view), old(Held()), store.view) && |store.view.pins| == old(Others()) - 1
    {
      hide Store.Valid, Holding, Closed;
      UnpinHeader(store.view, Held());
      store.PinnedInUse(Key(filePtr, headerPageNo));
      var st := store.UnPinPage(Key(filePtr, headerPageNo), hdrDirtyFlag, hdrDirtyFlag);
    }

    // ----- changing the file

    /** What changing the current page and the header leaves alone. */
    twostate predicate ChangeFrame()
      reads this, store
    {
      && filter == old(filter) && curRec == old(curRec) && MarkedPosition() == old(MarkedPosition())
      && OthersSame(old(store.view), store.view, filePtr)
      && Exchanged(old(store.view), old(Held()), store.view, Held())
    }

    /** Writes the current page through the pinned pointer. */
    method PutCurrent(b: Block)
      requires Core() && curPage
      modifies this`curDirtyFlag, this`curOwes, store.Repr()
      ensures Core() && curDirtyFlag && curOwes
      ensures store.view.logical == old(store.view.logical)[Key(filePtr, curPageNo) := b]
      ensures store.view.pins == old(store.view.pins) && store.view.free == old(store.view.free)
      ensures Exchanged(old(store.view), old(Held()), store.view, Held())
    {
      hide Store.Valid, Holding, Exchanged;
      WriteCurrent(store.view, Held(), b);
      PinnedByHolder(store.view, Held());
      store.Put(curFrame, Key(filePtr, curPageNo), b, !curOwes);
      curDirtyFlag := true;
      curOwes := true;
    }

    /** Writes the header page through the pinned pointer. */
    method PutHeader(b: Block)
      requires Core()
      modifies this`hdrDirtyFlag, store.Repr()
      ensures Core() && hdrDirtyFlag
      ensures store.view.logical == old(store.view.logical)[Key(filePtr, headerPageNo) := b]
      ensures store.view.pins == old(store.view.pins) && store.view.free == old(store.view.free)
      ensures Exchanged(old(store.view), old(Held()), store.view, Held())
    {
      hide Store.Valid, Holding, Exchanged;
      WriteHeader(store.view, Held(), b);
      PinnedByHolder(store.view, Held());
      store.Put(hdrFrame, Key(filePtr, headerPageNo), b, !hdrDirtyFlag);
      hdrDirtyFlag := true;
    }

    method GetHeader() returns (b: Block)
      requires Core()
      ensures Key(filePtr, headerPageNo) in store.view.logical && b == store.view.logical[Key(filePtr, headerPageNo)]
    {
      hide Store.Valid, Holding;
      PinnedByHolder(store.view, Held());
      b := store.Get(hdrFrame, Key(filePtr, headerPageNo));
    }

    /** Writes the current page and the record count. */
    method ReplacePage(ghost chain: seq<int>, ghost pages: seq<PageImage>, q: PageImage, delta: int)
      requires Valid(chain) && curPage && Shows(chain, pages) && pos < |pages|
      requires q.WellFormed() && q.curPage == pages[pos].curPage && q.nextPage == pages[pos].nextPage
      requires |AllEntries(pages[pos := q])| == |AllEntries(pages)| + delta
      modifies this`curDirtyFlag, this`curOwes, this`hdrDirtyFlag, store.Repr()
      ensures Valid(chain) && Shows(chain, pages[old(pos) := q]) && ChangeFrame() && curDirtyFlag && hdrDirtyFlag
      ensures |store.view.pins| == |old(store.view.pins)|
    {
      hide HeapAt, Core, Exchanged, PagesOf, AllEntries, PageImage.WellFormed;
      ghost var v, o := store.view, Held();
      PageFacts(v.logical, filePtr, headerPageNo, chain, pos);
      HeaderCount(v.logical, filePtr, headerPageNo, chain);
      PutCurrent(DataPage(q));
      ghost var v1, o1 := store.view, Held();
      var b := GetHeader();
      PutHeader(HeapHeader(b.hdr.(recCnt := b.hdr.recCnt + delta)));
      ExchangedTwice(v, o, v1, o1, store.view, Held());
      ChangePage(v.logical, filePtr, headerPageNo, chain, pos, q, store.view.logical);
    }

    /**
     Deletes the record under the cursor. The record count goes down even when the page refuses, which
     it does for an empty record; the header then no longer counts the records.
     */
    method DeleteRecord(ghost chain: seq<int>, ghost pages: seq<PageImage>) returns (st: Status)
      requires Valid(chain) && curPage && Shows(chain, pages) && curRec.slotNo >= 0
      modifies this`curDirtyFlag, this`curOwes, this`hdrDirtyFlag, store.Repr()
      ensures pos < |pages| && Core() && ChangeFrame() && |store.view.pins| == |old(store.view.pins)|
      ensures st == if pages[pos].Live(curRec.slotNo) && pages[pos].slots[curRec.slotNo].bytes != [] then OK
                    else INVALIDSLOTNO
      ensures st == OK ==> Valid(chain) && Shows(chain, pages[pos := Delete(pages[pos], curRec.slotNo)])
      ensures st != OK ==> Miscounted(store.view.logical, filePtr, headerPageNo, chain, pages)
    {
      hide HeapAt, Core, Exchanged, PagesOf, AllEntries, PageImage.WellFormed, Trim, Miscounted;
      ghost var v := store.view;
      var p := CurrentPage(chain, pages);
      PageFacts(v.logical, filePtr, headerPageNo, chain, pos);
      if p.Live(curRec.slotNo) && |p.slots[curRec.slotNo].bytes| > 0 {
        DeleteRemovesOne(p, curRec.slotNo);
        DeleteCount(pages, pos, curRec.slotNo);
        ReplacePage(chain, pages, Delete(p, curRec.slotNo), -1);
        return OK;
      }
      CountDown(chain, p);
      return INVALIDSLOTNO;
    }

    /** The page is left alone, but the record count goes down. */
    method CountDown(ghost chain: seq<int>, p: PageImage)
      requires Valid(chain) && curPage && Key(filePtr, curPageNo) in store.view.logical &&
               store.view.logical[Key(filePtr, curPageNo)] == DataPage(p)
      modifies this`curDirtyFlag, this`curOwes, this`hdrDirtyFlag, store.Repr()
      ensures Core() && ChangeFrame() && |store.view.pins| == |old(store.view.pins)|
      ensures Miscounted(store.view.logical, filePtr, headerPageNo, chain,
                         PagesOf(old(store.view.logical), filePtr, chain))
    {
      hide HeapAt, Core, Exchanged, PagesOf, AllEntries, PageImage.WellFormed, Miscounted;
      ghost var v, o := store.view, Held();
      HeaderCount(v.logical, filePtr, headerPageNo, chain);
      PutCurrent(DataPage(p));
      ghost var v1, o1 := store.view, Held();
      var b := GetHeader();
      PutHeader(HeapHeader(b.hdr.(recCnt := b.hdr.recCnt - 1)));
      ExchangedTwice(v, o, v1, o1, store.view, Held());
      WrongCount(v.logical, filePtr, headerPageNo, chain, store.view.logical);
    }

    /** Leaves the old last page, which now points to page `n`, and makes that the current one. */
    method MoveToNewPage(n: int, frame: int, ghost i: nat, ghost v: View, ghost o: Hold, ghost v1: View)
      requires Core() && curPage && curOwes && inserting && n != headerPageNo && n != curPageNo
      requires o.h == Key(filePtr, headerPageNo) && o.c == Key(filePtr, curPageNo) && Holding(v, o)
      requires v1.pins == v.pins + multiset{Key(filePtr, n)} && v1.owed == v.owed + multiset{Key(filePtr, n)}
      requires KeepsFrames(v, v1) && FrameOf(v1, Key(filePtr, n)) == frame
      requires Exchanged(v1, o, store.view, Held()) && Key(filePtr, curPageNo) in store.view.logical
      modifies this`curPage, this`curPageNo, this`curFrame, this`pos, store.Repr()
      ensures Core() && curPage && curPageNo == n && pos == i
      ensures store.view.logical == old(store.view.logical) && store.view.free == old(store.view.free)
      ensures Exchanged(v, o, store.view, Held()) && |store.view.pins| == |old(store.view.pins)| - 1
    {
      hide Store.Valid, Holding, Exchanged, KeepsFrames;
      ghost var v2, o2 := store.view, Held();
      Chain.UnpinCurrent(v2, o2);
      var st := store.UnPinPage(Key(filePtr, curPageNo), true, true);
      ExchangedTwice(v1, o, v2, o2, store.view, NoPage(o2));
      NewPageStays(v, o, v1, store.view, NoPage(o2), Key(filePtr, n));
      ClaimPage(v, o, v1, store.view, NoPage(o2), Key(filePtr, n), frame);
      curPageNo := n;
      curFrame := frame;
      pos := i;
    }

    /** Allocates a page and initializes it; it is pinned beside those the object holds. */
    method AllocBlank() returns (st: Status, n: int, frame: int)
      requires Core()
      modifies store.Repr(), store.bm.db`files
      ensures Core() && store.view.free.Keys == old(store.view.free.Keys)
      ensures st == OK ==>
                && n >= 1 && Key(filePtr, n) !in old(store.view.logical)
                && store.view.logical == old(store.view.logical)[Key(filePtr, n) := DataPage(EmptyPage(n))]
                && store.view.pins == old(store.view.pins) + multiset{Key(filePtr, n)}
                && store.view.owed == old(store.view.owed) + multiset{Key(filePtr, n)}
                && KeepsFrames(old(store.view), store.view) && FrameOf(store.view, Key(filePtr, n)) == frame
      ensures st != OK ==>
                st == BUFFEREXCEEDED && |old(store.view.pins)| >= store.bm.numBufs &&
                PageLeaked(old(store.view), store.view)
    {
      hide Store.Valid, Holding;
      ghost var v, o := store.view, Held();
      st, n, frame := store.AllocPage(filePtr);
      if st == OK {
        NewPageFrames(v, store.view, Key(filePtr, n));
        NewPageHolding(v, o, store.view, Key(filePtr, n));
        ghost var v1 := store.view;
        store.Put(frame, Key(filePtr, n), DataPage(EmptyPage(n)), false);
        SamePins(v1, store.view, o);
        SameFrames(v, v1, store.view);
      } else {
        SamePins(v, store.view, o);
      }
    }

    /** Links a blank page behind the last one and moves to it. */
    method AppendPage(ghost chain: seq<int>, ghost pages: seq<PageImage>) returns (st: Status, ghost chain': seq<int>)
      requires Valid(chain) && inserting && curPage && pos == |chain| - 1 && Shows(chain, pages)
      modifies this, store.Repr(), store.bm.db`files
      ensures Valid(chain') && ChangeFrame() && curPage && pos == |chain'| - 1
      ensures st == OK ==>
                chain' == chain + [curPageNo] && curPageNo !in chain && Shows(chain', AppendBlank(pages, curPageNo))
      ensures st == OK ==> |store.view.pins| == |old(store.view.pins)|
      ensures st != OK ==>
                st == BUFFEREXCEEDED && chain' == chain && Shows(chain, pages) &&
                |old(store.view.pins)| >= store.bm.numBufs
    {
      hide HeapAt, Core, Exchanged, OthersSame, PagesOf, AllEntries, PageImage.WellFormed, Holding, KeepsFrames;
      chain' := chain;
      ghost var v, o, l := store.view, Held(), store.view.logical;
      HoldingOfCore();
      var p := CurrentPage(chain, pages);
      PageFacts(l, filePtr, headerPageNo, chain, pos);
      var n, frame;
      st, n, frame := AllocBlank();
      if st != OK {
        SamePages(l, filePtr, headerPageNo, chain, store.view.logical);
        SamePins(v, store.view, o);
        OnlyMore(v, store.view, filePtr);
        return;
      }
      LinkAndMove(chain, n, frame, p, v);
      chain' := chain + [n];
    }

    /** Links page `n`, which has just been allocated at `v`, behind the chain and makes it the current page. */
    method LinkAndMove(ghost chain: seq<int>, n: int, frame: int, p: PageImage, ghost v: View)
      requires Core() && curPage && inserting && pos == |chain| - 1 && Holding(v, Held()) &&
               chain[pos] == curPageNo != headerPageNo
      requires HeapAt(v.logical, filePtr, headerPageNo, chain) && p == PagesOf(v.logical, filePtr, chain)[pos]
      requires n >= 1 && Key(filePtr, n) !in v.logical && store.view.free.Keys == v.free.Keys
      requires store.view.logical == v.logical[Key(filePtr, n) := DataPage(EmptyPage(n))]
      requires store.view.pins == v.pins + multiset{Key(filePtr, n)} &&
               store.view.owed == v.owed + multiset{Key(filePtr, n)}
      requires KeepsFrames(v, store.view) && FrameOf(store.view, Key(filePtr, n)) == frame
      modifies this, store.Repr()
      ensures Core() && curPage && curPageNo == n && pos == |chain| && n !in chain
      ensures curRec == old(curRec) && filter == old(filter) && MarkedPosition() == old(MarkedPosition())
      ensures HeapAt(store.view.logical, filePtr, headerPageNo, chain + [n])
      ensures PagesOf(store.view.logical, filePtr, chain + [n]) == AppendBlank(PagesOf(v.logical, filePtr, chain), n)
      ensures OthersSame(v, store.view, filePtr) && Exchanged(v, old(Held()), store.view, Held()) &&
              |store.view.pins| == |v.pins|
    {
      hide HeapAt, Core, Exchanged, OthersSame, PagesOf, AllEntries, PageImage.WellFormed, Holding, KeepsFrames;
      ghost var o, l, v1 := Held(), v.logical, store.view;
      ghost var h, c := Key(filePtr, headerPageNo), Key(filePtr, curPageNo);
      HeaderCount(l, filePtr, headerPageNo, chain);
      PageFacts(l, filePtr, headerPageNo, chain, pos);
      LinkNewPage(n, p);
      MoveToNewPage(n, frame, |chain|, v, o, v1);
      OwnWrites(v, store.view, Key(filePtr, n), DataPage(EmptyPage(n)), h, store.view.logical[h], c,
                store.view.logical[c]);
      AppendChain(l, filePtr, headerPageNo, chain, n, store.view.logical);
    }

    /** Makes the header and the old last page point to page `n`. */
    method LinkNewPage(n: int, p: PageImage)
      requires Core() && curPage
      requires Key(filePtr, headerPageNo) in store.view.logical &&
               store.view.logical[Key(filePtr, headerPageNo)].HeapHeader?
      modifies this`curDirtyFlag, this`curOwes, this`hdrDirtyFlag, store.Repr()
      ensures Core() && curOwes && curDirtyFlag && hdrDirtyFlag
      ensures var l := old(store.view.logical);
              var hdr := l[Key(filePtr, headerPageNo)].hdr;
              store.view.logical == l[Key(filePtr, headerPageNo) :=
                                      HeapHeader(hdr.(lastPage := n, pageCnt := hdr.pageCnt + 1))]
                                     [Key(filePtr, curPageNo) := DataPage(p.(nextPage := n))]
      ensures store.view.pins == old(store.view.pins) && store.view.free == old(store.view.free)
      ensures Exchanged(old(store.view), old(Held()), store.view, Held())
    {
      hide Core, Exchanged;
      var b := GetHeader();
      PutHeader(HeapHeader(b.hdr.(lastPage := n, pageCnt := b.hdr.pageCnt + 1)));
      ghost var v1, o1 := store.view, Held();
      PutCurrent(DataPage(p.(nextPage := n)));
      ExchangedTwice(old(store.view), old(Held()), v1, o1, store.view, Held());
    }

    lemma HoldingOfCore()
      requires Core()
      ensures Holding(store.view, Held())
    {
    }

    /** Inserts on the current page if the record fits there. */
    method TryInsert(ghost chain: seq<int>, ghost pages: seq<PageImage>, rec: Bytes)
      returns (st: Status, rid: RID, ghost pages': seq<PageImage>)
      requires Valid(chain) && curPage && Shows(chain, pages)
      modifies this`curDirtyFlag, this`curOwes, this`hdrDirtyFlag, store.Repr()
      ensures Valid(chain) && ChangeFrame() && |store.view.pins| == |old(store.view.pins)|
      ensures Shows(chain, pages') && InsertTried(st, rid, pages, pages', pos, rec)
    {
      hide HeapAt, Core, Exchanged, PagesOf, AllEntries, PageImage.WellFormed, LowestHoleFrom, PageImage.FreeSpace;
      pages' := pages;
      var p := CurrentPage(chain, pages);
      PageFacts(store.view.logical, filePtr, headerPageNo, chain, pos);
      SameHold(store.view, Held());
      if p.Fits(|rec|) {
        InsertKeepsLayout(p, rec);
        InsertCount(pages, pos, rec);
        pages' := pages[pos := Insert(p, rec)];
        ReplacePage(chain, pages, Insert(p, rec), 1);
        return OK, RID(p.curPage, LowestHole(p.slots)), pages';
      }
      return NOSPACE, NULLRID, pages;
    }

    method LastPageNo(ghost chain: seq<int>) returns (pageNo: int)
      requires Valid(chain)
      ensures chain != [] && pageNo == chain[|chain| - 1]
    {
      hide HeapAt, Core;
      HeaderFacts(store.view.logical, filePtr, headerPageNo, chain);
      var b := GetHeader();
      pageNo := b.hdr.lastPage;
    }

    /** The part of insertRecord that follows once the last page is pinned. */
    method InsertAtEnd(ghost chain: seq<int>, ghost pages: seq<PageImage>, rec: Bytes)
      returns (st: Status, outRid: RID, ghost chain': seq<int>, ghost pages': seq<PageImage>)
      requires Valid(chain) && inserting && curPage && pos == |chain| - 1 && Shows(chain, pages)
      modifies this, store.Repr(), store.bm.db`files
      ensures Valid(chain') && ChangeFrame() && Shows(chain', pages') && curPage && pos == |chain'| - 1
      ensures st == BUFFEREXCEEDED ==> chain' == chain && pages' == pages && |old(store.view.pins)| >= store.bm.numBufs
      ensures st != BUFFEREXCEEDED ==> pages != [] && Inserted(st, outRid, pages, pages', rec, curPageNo)
      ensures st != BUFFEREXCEEDED ==>
                |store.view.pins| == |old(store.view.pins)| &&
                (chain' == chain || (chain' == chain + [curPageNo] && curPageNo !in chain))
      ensures pages != [] && pages[|pages| - 1].Fits(|rec|) ==>
                chain' == chain && st == OK && store.bm.db.files == old(store.bm.db.files)
    {
      hide HeapAt, Valid, Core, Exchanged, OthersSame, PagesOf, InsertTried, AppendBlank, Inserted, PageImage.Fits;
      chain' := chain;
      LengthOf(chain, pages);
      st, outRid, pages' := TryInsert(chain, pages, rec);
      InsertHere(pages, pages', rec, curPageNo, st, outRid);
      if st == OK {
        return;
      }
      ghost var v1, o1 := store.view, Held();
      st, outRid, chain', pages' := InsertOnNewPage(chain, pages, rec);
      ExchangedTwice(old(store.view), old(Held()), v1, o1, store.view, Held());
      OthersSameTwice(old(store.view), v1, v1, store.view, filePtr);
    }

    /** Appends a page and inserts there; the record did not fit on the last page. */
    method InsertOnNewPage(ghost chain: seq<int>, ghost pages: seq<PageImage>, rec: Bytes)
      returns (st: Status, outRid: RID, ghost chain': seq<int>, ghost pages': seq<PageImage>)
      requires Valid(chain) && inserting && curPage && pos == |chain| - 1 && Shows(chain, pages) && pages != [] &&
               !pages[|pages| - 1].Fits(|rec|)
      modifies this, store.Repr(), store.bm.db`files
      ensures Valid(chain') && ChangeFrame() && Shows(chain', pages') && curPage && pos == |chain'| - 1
      ensures st == BUFFEREXCEEDED ==> chain' == chain && pages' == pages && |old(store.view.pins)| >= store.bm.numBufs
      ensures st != BUFFEREXCEEDED ==> Inserted(st, outRid, pages, pages', rec, curPageNo)
      ensures st != BUFFEREXCEEDED ==>
                |store.view.pins| == |old(store.view.pins)| && chain' == chain + [curPageNo] && curPageNo !in chain
    {
      hide HeapAt, Valid, Core, Exchanged, OthersSame, PagesOf, InsertTried, AppendBlank, Inserted;
      pages', outRid := pages, NULLRID;
      st, chain' := AppendPage(chain, pages);
      if st != OK {
        return;
      }
      ghost var v2, o2 := store.view, Held();
      st, outRid, pages' := TryInsert(chain', AppendBlank(pages, curPageNo), rec);
      ExchangedTwice(old(store.view), old(Held()), v2, o2, store.view, Held());
      OthersSameTwice(old(store.view), v2, v2, store.view, filePtr);
      InsertBehind(pages, pages', rec, curPageNo, st, outRid);
    }

    /**
     Inserts a record. It goes on the last page or, if it does not fit there, on a new page behind it.
     Records of 1001 to 1004 bytes pass the length check but fit on no page: they are refused with
     NOSPACE after an empty page has been appended.
     */
    method InsertRecord(ghost chain: seq<int>, ghost pages: seq<PageImage>, rec: Bytes)
      returns (st: Status, outRid: RID, ghost chain': seq<int>, ghost pages': seq<PageImage>)
      requires Valid(chain) && inserting && Shows(chain, pages) && (curPage ==> pos == |chain| - 1)
      modifies this, store.Repr(), store.bm.db`files
      ensures Valid(chain') && ChangeFrame() && Shows(chain', pages') && (curPage ==> pos == |chain'| - 1)
      ensures st == INVALIDRECLEN <==> |rec| > DATA_SIZE
      ensures st == INVALIDRECLEN || st == BUFFEREXCEEDED ==> chain' == chain && pages' == pages
      ensures st == BUFFEREXCEEDED ==> old(Others()) + 1 >= store.bm.numBufs
      ensures st != INVALIDRECLEN && st != BUFFEREXCEEDED ==>
                pages != [] && Inserted(st, outRid, pages, pages', rec, curPageNo) && curPage
      ensures st != BUFFEREXCEEDED && old(curPage) ==> |store.view.pins| == |old(store.view.pins)|
      ensures chain' == chain || (chain' == chain + [curPageNo] && curPageNo !in chain)
      ensures old(curPage) && pages != [] && pages[|pages| - 1].Fits(|rec|) ==>
                chain' == chain && st == OK && store.bm.db.files == old(store.bm.db.files)
    {
      hide HeapAt, PageImage.Fits, Valid, Core, OtherPins, PinnedPages, Exchanged, PagesOf, Inserted;
      chain', pages' := chain, pages;
      SameHold(store.view, Held());
      if pages != [] && pages[|pages| - 1].Fits(|rec|) {
        FitsIsShort(pages[|pages| - 1], rec);
      }
      if |rec| > DATA_SIZE {
        return INVALIDRECLEN, NULLRID, chain, pages;
      }
      if !curPage {
        CoreOf(chain);
        if Others() < store.bm.numBufs {
          NotFull();
        }
        var last := LastPageNo(chain);
        st := PinPage(chain, |chain| - 1, last);
        if st != OK {
          return st, NULLRID, chain, pages;
        }
      }
      ghost var v1, o1 := store.view, Held();
      st, outRid, chain', pages' := InsertAtEnd(chain, pages, rec);
      ExchangedTwice(old(store.view), old(Held()), v1, o1, store.view, Held());
      NotReserved(st, outRid, pages, pages', rec, curPageNo);
    }

    lemma LengthOf(chain: seq<int>, pages: seq<PageImage>)
      requires Valid(chain) && Shows(chain, pages)
      ensures |pages| == |chain| >= 1
    {
    }
  }

  /** Reads a record in place, in the frame where its page is pinned. */
  method ReadRecord(s: Store, r: RecordPtr) returns (rec: Bytes)
    requires s.Valid() && Pointed(s.view, r)
    ensures rec == RecordAt(s.view.logical, r)
  {
    hide Store.Valid;
    var block := s.Get(r.frame, r.page);
    rec := block.page.slots[r.slot].bytes;
  }

  /** The outcome of insertRecord: OK and the RID of the new record, or NOSPACE and an empty page at the end. */
  ghost predicate Inserted(st: Status, rid: RID, pages: seq<PageImage>, pages': seq<PageImage>, rec: Bytes, n: int)
    requires pages != []
  {
    && pages' == InsertPages(pages, rec, n)
    && st == (if |rec| <= MAX_RECORD then OK else NOSPACE)
    && (st == OK ==> rid == InsertedRid(pages, rec, n))
  }

  lemma NotReserved(st: Status, rid: RID, pages: seq<PageImage>, pages': seq<PageImage>, rec: Bytes, n: int)
    ensures pages != [] && Inserted(st, rid, pages, pages', rec, n) ==> st != INVALIDRECLEN
  {
  }

  /** The outcome of an insertion into page `i` alone. */
  ghost predicate InsertTried(st: Status, rid: RID, pages: seq<PageImage>, pages': seq<PageImage>, i: nat, rec: Bytes) {
    && i < |pages|
    && if pages[i].Fits(|rec|) then
         st == OK && rid == RID(pages[i].curPage, LowestHole(pages[i].slots)) &&
           pages' == pages[i := Insert(pages[i], rec)]
       else
         st == NOSPACE && pages' == pages
  }

  lemma InsertHere(pages: seq<PageImage>, pages': seq<PageImage>, rec: Bytes, n: int, st: Status, rid: RID)
    requires pages != [] && InsertTried(st, rid, pages, pages', |pages| - 1, rec)
    ensures st == OK || st == NOSPACE
    ensures st == OK ==> Inserted(st, rid, pages, pages', rec, n)
    ensures st == NOSPACE ==> !pages[|pages| - 1].Fits(|rec|) && pages' == pages
  {
    hide LowestHoleFrom, TotalSize;
    if st == OK {
      FitsIsShort(pages[|pages| - 1], rec);
    }
  }

  lemma FitsIsShort(p: PageImage, rec: Bytes)
    requires p.Fits(|rec|)
    ensures |rec| <= MAX_RECORD
  {
  }

  lemma InsertBehind(pages: seq<PageImage>, pages': seq<PageImage>, rec: Bytes, n: int, st: Status, rid: RID)
    requires pages != [] && !pages[|pages| - 1].Fits(|rec|)
    requires InsertTried(st, rid, AppendBlank(pages, n), pages', |pages|, rec)
    ensures (st == OK || st == NOSPACE) && Inserted(st, rid, pages, pages', rec, n)
  {
    hide LowestHoleFrom, TotalSize, PageImage.FreeSpace;
    BlankFits(n, rec);
    assert pages' == InsertPages(pages, rec, n);
  }

  lemma NewPageFrames(v: View, w: View, k: Key)
    requires PageAdded(v, w, k)
    ensures KeepsFrames(v, w)
  {
  }

  lemma SameFrames(v: View, w: View, w': View)
    requires KeepsFrames(v, w) && w'.frames == w.frames
    ensures KeepsFrames(v, w')
  {
  }

  /** A page pinned beside those an object holds stays where it is while the object works. */
  lemma NewPageStays(v: View, o: Hold, v1: View, v': View, o1: Hold, n: Key)
    requires Holding(v, o) && v1.pins == v.pins + multiset{n} && Exchanged(v1, o, v', o1)
    ensures FrameOf(v', n) == FrameOf(v1, n)
  {
    assert HoldingAt(v, o, n) && ExchangedAt(v1, o, v', o1, n);
  }

  lemma SameHold(v: View, o: Hold)
    ensures Exchanged(v, o, v, o)
  {
    assert forall k :: ExchangedAt(v, o, v, o, k);
  }

  // ----- steps of a cursor

  /** The cursor is on a record with these bytes. */
  ghost predicate OnRecord(c: Cursor, pages: seq<PageImage>, rec: Bytes) {
    c.pos < |pages| && pages[c.pos].Live(c.slot) && pages[c.pos].slots[c.slot].bytes == rec
  }

  /** The outcome of scanNext, where `r` are the records ahead from the first that stops the scan. */
  ghost predicate Found(st: Status, outRid: RID, r: seq<Entry>, c: Cursor, pages: seq<PageImage>) {
    if r == [] then st == FILEEOF && Ahead(c, pages) == []
    else
      && Ahead(c, pages) == r[1..]
      && c.pinned && c.pos < |pages| && pages[c.pos].Live(c.slot)
      && r[0] == Entry(RID(pages[c.pos].curPage, c.slot), pages[c.pos].slots[c.slot].bytes)
      && st == (if r[0].bytes == [] then INVALIDSLOTNO else OK)
      && (st == OK ==> outRid == r[0].rid)
  }

  lemma NothingAhead(c: Cursor, pages: seq<PageImage>, m: Bytes -> bool, rid: RID)
    requires c.pageNo < 0
    ensures Found(FILEEOF, rid, Skip(Ahead(c, pages), m), c, pages)
  {
  }

  lemma EndFound(c: Cursor, c': Cursor, pages: seq<PageImage>, m: Bytes -> bool, rid: RID)
    requires AtEnd(c, c', pages)
    ensures Found(FILEEOF, rid, Skip(Ahead(c, pages), m), c', pages)
  {
  }

  lemma StepFound(c: Cursor, c': Cursor, pages: seq<PageImage>, m: Bytes -> bool)
    requires Stepped(c, c', pages)
    ensures c'.pos < |pages| && pages[c'.pos].Live(c'.slot)
    ensures |Ahead(c', pages)| < |Ahead(c, pages)|
    ensures var p := pages[c'.pos];
            var b := p.slots[c'.slot].bytes;
            && (b == [] ==> forall rid :: Found(INVALIDSLOTNO, rid, Skip(Ahead(c, pages), m), c', pages))
            && (b != [] && m(b) ==> Found(OK, RID(p.curPage, c'.slot), Skip(Ahead(c, pages), m), c', pages))
            && (b != [] && !m(b) ==> Skip(Ahead(c, pages), m) == Skip(Ahead(c', pages), m))
  {
    hide Ahead;
  }

  lemma RestartStep(c0: Cursor, c: Cursor, pages: seq<PageImage>)
    requires !c0.pinned && c0.pageNo >= 0 && OnPage(c, pages) && c.pos == 0
    ensures var n := NextLive(pages[0].slots, 0);
            if n < |pages[0].slots| then Stepped(c0, c.(slot := n), pages)
            else forall c': Cursor :: c'.pageNo < 0 ==> AtEnd(c0, c', pages)
  {
    hide PageEntries, Entries, NextLive;
    FirstInPage(pages, 0, 0);
    NextInPage(pages, 0, 0);
  }

  /** The cursor took the next record. */
  ghost predicate Stepped(c: Cursor, c': Cursor, pages: seq<PageImage>) {
    && Ahead(c, pages) != []
    && Ahead(c', pages) == Ahead(c, pages)[1..]
    && c'.pinned && c'.pos < |pages| && pages[c'.pos].Live(c'.slot)
    && Ahead(c, pages)[0] == Entry(RID(pages[c'.pos].curPage, c'.slot), pages[c'.pos].slots[c'.slot].bytes)
  }

  ghost predicate AtEnd(c: Cursor, c': Cursor, pages: seq<PageImage>) {
    Ahead(c, pages) == [] && Ahead(c', pages) == []
  }

  ghost predicate OnPage(c: Cursor, pages: seq<PageImage>) {
    c.pinned && c.pageNo >= 0 && c.pos < |pages| && c.slot >= -1
  }

  /** Page `c.pos` holds nothing more for a scan that stood at `c0`. */
  ghost predicate Exhausted(c0: Cursor, c: Cursor, pages: seq<PageImage>) {
    OnPage(c, pages) && Ahead(c0, pages) == Entries(pages, c.pos + 1) && PageEntries(pages[c.pos], c.slot + 1) == []
  }

  lemma InPageStep(c: Cursor, pages: seq<PageImage>)
    requires OnPage(c, pages)
    ensures var n := NextLive(pages[c.pos].slots, c.slot + 1);
            if n < |pages[c.pos].slots| then Stepped(c, c.(slot := n), pages) else Exhausted(c, c, pages)
  {
    hide PageEntries, Entries, NextLive;
    NextInPage(pages, c.pos, c.slot + 1);
  }

  lemma EndStep(c0: Cursor, c: Cursor, pages: seq<PageImage>)
    requires Exhausted(c0, c, pages) && c.pos == |pages| - 1
    ensures AtEnd(c0, c, pages)
  {
    hide PageEntries;
  }

  lemma TurnStep(c0: Cursor, c: Cursor, c': Cursor, pages: seq<PageImage>)
    requires Exhausted(c0, c, pages) && OnPage(c', pages) && c'.pos == c.pos + 1
    ensures var n := NextLive(pages[c'.pos].slots, 0);
            if n < |pages[c'.pos].slots| then Stepped(c0, c'.(slot := n), pages) else Exhausted(c0, c', pages)
  {
    hide PageEntries, Entries, NextLive;
    FirstInPage(pages, c'.pos, c'.slot + 1);
  }

  lemma PinnedByHolder(v: View, o: Hold)
    requires Holding(v, o)
    ensures v.pins[o.h] > 0 && FrameOf(v, o.h) == o.hdrFrame
    ensures o.pinned ==> v.pins[o.c] > 0 && (o.c != o.h ==> FrameOf(v, o.c) == o.curFrame)
  {
    assert HoldingAt(v, o, o.h) && HoldingAt(v, o, o.c);
  }

  lemma PageFacts(l: Logical, f: int, h: int, chain: seq<int>, i: nat)
    requires HeapAt(l, f, h, chain) && i < |chain|
    ensures Key(f, chain[i]) in l && chain[i] != h && chain[i] >= 1
    ensures var p := PagesOf(l, f, chain)[i];
            && l[Key(f, chain[i])] == DataPage(p) && p.curPage == chain[i] && p.WellFormed()
            && (if i + 1 < |chain| then p.nextPage == chain[i + 1] && p.nextPage != -1 else p.nextPage == -1)
  {
    PageOnChain(l, f, h, chain, i);
  }

  lemma ChainFacts(l: Logical, f: int, h: int, chain: seq<int>, i: nat)
    requires HeapAt(l, f, h, chain) && i < |chain|
    ensures Key(f, chain[i]) in l && chain[i] != h && chain[i] >= 1 && Key(f, h) in l
  {
    PageOnChain(l, f, h, chain, i);
  }

  lemma HeaderFacts(l: Logical, f: int, h: int, chain: seq<int>)
    requires HeapAt(l, f, h, chain)
    ensures Key(f, h) in l && l[Key(f, h)].HeapHeader? && chain != [] && Key(f, chain[0]) in l
    ensures l[Key(f, h)].hdr.firstPage == chain[0] && l[Key(f, h)].hdr.lastPage == chain[|chain| - 1] &&
            l[Key(f, h)].hdr.pageCnt == |chain|
  {
    PageOnChain(l, f, h, chain, 0);
  }

  lemma HeaderCount(l: Logical, f: int, h: int, chain: seq<int>)
    requires HeapAt(l, f, h, chain)
    ensures Key(f, h) in l && chain != [] && l[Key(f, h)] == HeaderFor(chain, |AllEntries(PagesOf(l, f, chain))|)
  {
  }

  /** The file is in order except that its header counts one record too few. */
  ghost predicate Miscounted(l: Logical, f: int, h: int, chain: seq<int>, pages: seq<PageImage>) {
    && ChainAt(l, f, chain) && pages == PagesOf(l, f, chain)
    && Key(f, h) in l && l[Key(f, h)] == HeaderFor(chain, |AllEntries(pages)| - 1)
  }

  lemma MiscountedIsBroken(l: Logical, f: int, h: int, chain: seq<int>, pages: seq<PageImage>)
    requires Miscounted(l, f, h, chain, pages)
    ensures !HeapAt(l, f, h, chain)
  {
  }

  lemma WrongCount(l: Logical, f: int, h: int, chain: seq<int>, l': Logical)
    requires HeapAt(l, f, h, chain)
    requires forall k :: k in l && k != Key(f, h) ==> k in l' && l'[k] == l[k]
    requires Key(f, h) in l' && l'[Key(f, h)] == HeaderFor(chain, |AllEntries(PagesOf(l, f, chain))| - 1)
    ensures Miscounted(l', f, h, chain, PagesOf(l, f, chain))
  {
    hide AllEntries, PageImage.WellFormed, PagesBefore;
    forall j | 0 <= j < |chain| ensures PageAt(l', f, chain, j) {
      assert PageAt(l, f, chain, j);
    }
    var pages, pages' := PagesOf(l, f, chain), PagesOf(l', f, chain);
    forall j | 0 <= j < |chain| ensures pages'[j] == pages[j] {
      PageBefore(l, f, chain, |chain|, j);
      PageBefore(l', f, chain, |chain|, j);
    }
    assert pages' == pages;
  }

}
