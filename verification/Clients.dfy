/**
 Every operation on heap-file objects is a step of a session, and what the last one to close a file leaves on disk.
 */
module Clients {
  import opened Common
  import opened PageSpec
  import opened DiskSpec
  import opened BufHash
  import opened BufRefine
  import opened BufRuns
  import opened HeapSpec
  import opened Chain
  import opened Storage
  import opened HeapFile
  import opened Session
  import Create
  import Buf
  import BufSpec

  /** The session on store `s` with these books. */
  ghost function StateOf(s: Store, books: Books): State
    reads s, s.bm, s.bm.db
  {
    State(s.view, s.bm.db.openCnt, books)
  }

  /** A store that has just been started, over closed files, has its accounts in order. */
  method StartSession(bufs: int, database: Buf.DB, ghost free: map<int, seq<int>>) returns (s: Store)
    requires bufs >= 1 && free.Keys == database.files.Keys == database.openCnt.Keys
    requires forall f :: f in database.openCnt ==> database.openCnt[f] == 0
    requires forall f :: f in database.files ==>
               f >= 1 && HeaderShape(database.files[f]) && FreeList(database.files[f], free[f])
    ensures fresh(s) && s.Valid() && s.bm.numBufs == bufs && s.bm.db == database && s.view.free == free
    ensures Accounts(StateOf(s, NOTHING))
  {
    hide Accounts, Store.Valid, HeaderShape, FreeList;
    s := new Store.Start(bufs, database, free);
    StartAccounts(StateOf(s, NOTHING));
  }

  // ----- one step for every operation

  /** Opening a file is a step; it fails if the pool has no frames for two pages, and the object is lost. */
  method OpenStep(s: Store, f: int, insertScan: bool, ghost chain: seq<int>, ghost books: Books)
    returns (hf: HeapFile, ghost books': Books)
    requires s.Valid() && Accounts(StateOf(s, books)) && f in s.view.free && HeapAt(s.view.logical, f, 1, chain)
    modifies s.Repr(), s.bm.db
    ensures fresh(hf) && hf.store == s && hf.filePtr == f && hf.headerPageNo == 1 && hf.inserting == insertScan &&
            s.Valid()
    ensures chain != [] && (hf.outcome == OK <==> FramesFor(old(s.view.pins), FirstPages(f, chain), s.bm.numBufs))
    ensures s.view.logical == old(s.view.logical) && KeepsSaved(old(s.bm.db.files), s.bm.db.files, s.view.logical)
    ensures Accounts(StateOf(s, books'))
    ensures hf.outcome == OK ==>
              && hf.Valid(chain) && hf.curPage && hf.pos == 0 && hf.curRec == NULLRID && hf.filter == Unfiltered
              && books' == books.(live := books.live + [hf.Held()])
              && Session.Step(old(StateOf(s, books)), Opens(hf.Held()), StateOf(s, books'))
    ensures hf.outcome != OK ==>
              exists pinned ::
                && books' == Failed(books, f, pinned, false)
                && Session.Step(old(StateOf(s, books)), OpenFails(f, pinned), StateOf(s, books'))
  {
    hide HeapAt, Store.Valid, Opened, Holding, Over, FramesFor, KeepsSaved, Accounts, HeapFile.Valid, KeepsFrames,
         Session.Step, Failed;
    ghost var before := StateOf(s, books);
    AccountsParts(before);
    hf := new HeapFile.Open(s, f, insertScan, chain);
    if hf.outcome == OK {
      hf.ValidParts(chain);
      books' := books.(live := books.live + [hf.Held()]);
      OpenedStep(before, hf.Held(), StateOf(s, books'));
    } else {
      ghost var pinned := s.view.pins == before.view.pins + Leftover(f, true);
      assert s.view.pins == before.view.pins + Leftover(f, pinned);
      books' := Failed(books, f, pinned, false);
      OpenFailedStep(before, f, pinned, StateOf(s, books'));
    }
  }

  lemma OpenedStep(s: State, o: Hold, t: State)
    requires Accounts(s) && OneFile(o) && o.h.file in s.openCnt && t.view.free.Keys == s.view.free.Keys
    requires Opened(s.view, t.view, o) && Holding(t.view, o)
    requires t.openCnt == s.openCnt[o.h.file := s.openCnt[o.h.file] + 1] &&
             t.books == s.books.(live := s.books.live + [o])
    ensures Session.Step(s, Opens(o), t) && Accounts(t)
  {
    hide Accounts, Opened, Holding, OneFile;
    StepKeepsAccounts(s, Opens(o), t);
  }

  lemma OpenFailedStep(s: State, f: int, pinned: bool, t: State)
    requires Accounts(s) && f in s.openCnt && t.view.free.Keys == s.view.free.Keys
    requires t.openCnt == s.openCnt[f := s.openCnt[f] + 1] && t.books == Failed(s.books, f, pinned, false)
    requires t.view.pins == s.view.pins + Leftover(f, pinned) && t.view.owed == s.view.owed &&
             KeepsFrames(s.view, t.view)
    ensures Session.Step(s, OpenFails(f, pinned), t) && Accounts(t)
  {
    hide Accounts, KeepsFrames, Failed, Leftover;
    StepKeepsAccounts(s, OpenFails(f, pinned), t);
  }

  /** The object holds pins as entry `i` of the books says. */
  ghost predicate Entered(hf: HeapFile, books: Books, i: nat)
    reads hf
  {
    i < |books.live| && books.live[i] == hf.Held()
  }

  function Updated(books: Books, i: nat, o: Hold): Books
    requires i < |books.live|
  {
    books.(live := books.live[i := o])
  }

  /** Whatever an object does to its own pins is a step. */
  lemma Worked(before: State, hf: HeapFile, i: nat)
    requires Accounts(before) && i < |before.books.live| && hf.store.bm.db.openCnt == before.openCnt
    requires hf.store.view.free.Keys == before.view.free.Keys && before.books.live[i].h == hf.Held().h
    requires Exchanged(before.view, before.books.live[i], hf.store.view, hf.Held()) && Holding(hf.store.view, hf.Held())
    ensures var after := StateOf(hf.store, Updated(before.books, i, hf.Held()));
            Session.Step(before, Works(i, hf.Held()), after) && Accounts(after)
  {
    hide Exchanged, Holding, Accounts;
    StepKeepsAccounts(before, Works(i, hf.Held()), StateOf(hf.store, Updated(before.books, i, hf.Held())));
  }

  /** The object has done a step: its entry in the books is up to date again. */
  twostate predicate Stepped(hf: HeapFile, books: Books, i: nat)
    requires i < |books.live|
    reads hf, hf.store, hf.store.bm, hf.store.bm.db
  {
    var after := StateOf(hf.store, Updated(books, i, hf.Held()));
    Session.Step(old(StateOf(hf.store, books)), Works(i, hf.Held()), after) && Accounts(after)
  }

  /** A call that changes neither pins nor counts, such as startScan, markScan and getRecord, is a step. */
  lemma IdleStep(s: State, i: nat)
    requires Accounts(s) && i < |s.books.live|
    ensures Session.Step(s, Works(i, s.books.live[i]), s)
  {
    hide Exchanged, Holding, Over;
    AccountsParts(s);
    EachHolds(s.books.lost, s.view, s.books.live, i);
    SameHold(s.view, s.books.live[i]);
    assert s.books.live[i := s.books.live[i]] == s.books.live;
  }

  /** Going to the next record is a step. */
  method ScanStep(hf: HeapFile, ghost chain: seq<int>, ghost pages: seq<PageImage>, ghost i: nat, ghost books: Books)
    returns (st: Status, rid: RID)
    requires hf.Valid(chain) && hf.Shows(chain, pages) && Ready(hf.store.view, hf.Held(), hf.filter)
    requires Accounts(StateOf(hf.store, books)) && Entered(hf, books, i)
    modifies hf, hf.store.Repr(), hf.store.bm.db`files
    ensures hf.Valid(chain) && hf.ScanFrame() && Stepped(hf, books, i)
    ensures st == BUFFEREXCEEDED ||
            Found(st, rid, Skip(Ahead(old(hf.Position()), pages), hf.Matches()), hf.Position(), pages)
  {
    hide HeapAt, Store.Valid, Exchanged, Holding, Accounts, HeapFile.Valid, HeapFile.Shows, Found, Skip, Ahead, Ready,
         HeapFile.Full;
    ghost var before := StateOf(hf.store, books);
    st, rid := hf.ScanNext(chain, pages);
    hf.ValidParts(chain);
    Worked(before, hf, i);
  }

  /** Ending a scan is a step. */
  method EndScanStep(hf: HeapFile, ghost chain: seq<int>, ghost i: nat, ghost books: Books)
    requires hf.Valid(chain) && Accounts(StateOf(hf.store, books)) && Entered(hf, books, i)
    modifies hf, hf.store.Repr()
    ensures hf.Valid(chain) && hf.ScanFrame() && !hf.curPage && Stepped(hf, books, i)
  {
    hide HeapAt, Store.Valid, Exchanged, Holding, Accounts, HeapFile.Valid;
    ghost var before := StateOf(hf.store, books);
    hf.EndScan(chain);
    hf.ValidParts(chain);
    Worked(before, hf, i);
  }

  /** Going back to the mark is a step. */
  method ResetStep(hf: HeapFile, ghost chain: seq<int>, ghost i: nat, ghost books: Books) returns (st: Status)
    requires hf.Valid(chain) && OnChain(hf.MarkedPosition(), chain) && (hf.curPage || hf.markedPageNo != hf.curPageNo)
    requires Accounts(StateOf(hf.store, books)) && Entered(hf, books, i)
    modifies hf, hf.store.Repr(), hf.store.bm.db`files
    ensures hf.Valid(chain) && hf.ScanFrame() && Stepped(hf, books, i)
    ensures st == OK ==> hf.Position() == hf.MarkedPosition()
  {
    hide HeapAt, Store.Valid, Exchanged, Holding, Accounts, HeapFile.Valid, HeapFile.Full;
    ghost var before := StateOf(hf.store, books);
    st := hf.ResetScan(chain);
    hf.ValidParts(chain);
    Worked(before, hf, i);
  }

  /** Retrieving a record by its RID is a step. */
  method FetchStep(hf: HeapFile, rid: RID, ghost chain: seq<int>, ghost pages: seq<PageImage>, ghost j: nat,
                   ghost i: nat, ghost books: Books)
    returns (st: Status, rec: Bytes)
    requires hf.Valid(chain) && hf.Shows(chain, pages) && j < |chain| && rid.pageNo == chain[j] && rid.slotNo >= 0
    requires Accounts(StateOf(hf.store, books)) && Entered(hf, books, i)
    modifies hf, hf.store.Repr(), hf.store.bm.db`files
    ensures hf.Valid(chain) && hf.ScanFrame() && Stepped(hf, books, i)
    ensures st == OK ==> j < |pages| && pages[j].Live(rid.slotNo) && rec == pages[j].slots[rid.slotNo].bytes
  {
    hide HeapAt, Store.Valid, Exchanged, Holding, Accounts, HeapFile.Valid, HeapFile.Shows, HeapFile.Full;
    ghost var before := StateOf(hf.store, books);
    st, rec := hf.FetchRecord(chain, pages, j, rid);
    hf.ValidParts(chain);
    Worked(before, hf, i);
  }

  /** The move of an insert scan to the last page is a step. */
  method MoveStep(hf: HeapFile, ghost chain: seq<int>, ghost i: nat, ghost books: Books) returns (st: Status)
    requires hf.Valid(chain) && hf.curPage && Accounts(StateOf(hf.store, books)) && Entered(hf, books, i)
    modifies hf, hf.store.Repr(), hf.store.bm.db`files
    ensures hf.Valid(chain) && hf.ScanFrame() && Stepped(hf, books, i)
    ensures st == OK ==> hf.curPage && hf.pos == |chain| - 1
  {
    hide HeapAt, Store.Valid, Exchanged, Holding, Accounts, HeapFile.Valid, HeapFile.Full;
    ghost var before := StateOf(hf.store, books);
    st := hf.MoveToLast(chain);
    hf.ValidParts(chain);
    Worked(before, hf, i);
  }

  /** An insertion is a step. */
  method InsertStep(hf: HeapFile, rec: Bytes, ghost chain: seq<int>, ghost pages: seq<PageImage>, ghost i: nat,
                    ghost books: Books)
    returns (st: Status, rid: RID, ghost chain': seq<int>, ghost pages': seq<PageImage>)
    requires hf.Valid(chain) && hf.Shows(chain, pages) && hf.inserting && (hf.curPage ==> hf.pos == |chain| - 1)
    requires Accounts(StateOf(hf.store, books)) && Entered(hf, books, i)
    modifies hf, hf.store.Repr(), hf.store.bm.db`files
    ensures hf.Valid(chain') && hf.Shows(chain', pages') && Stepped(hf, books, i)
    ensures st == INVALIDRECLEN <==> |rec| > DATA_SIZE
    ensures st == BUFFEREXCEEDED ==> old(hf.Others()) + 1 >= hf.store.bm.numBufs
    ensures st != INVALIDRECLEN && st != BUFFEREXCEEDED ==>
              pages != [] && Inserted(st, rid, pages, pages', rec, hf.curPageNo)
    ensures old(hf.curPage) && pages != [] && pages[|pages| - 1].Fits(|rec|) ==>
              chain' == chain && st == OK && hf.store.bm.db.files == old(hf.store.bm.db.files)
  {
    hide HeapAt, Store.Valid, Exchanged, Holding, Accounts, HeapFile.Valid, HeapFile.Shows, Inserted, PageImage.Fits;
    ghost var before := StateOf(hf.store, books);
    st, rid, chain', pages' := hf.InsertRecord(chain, pages, rec);
    hf.ValidParts(chain');
    Worked(before, hf, i);
  }

  /** A deletion is a step. */
  method DeleteStep(hf: HeapFile, ghost chain: seq<int>, ghost pages: seq<PageImage>, ghost i: nat, ghost books: Books)
    returns (st: Status)
    requires hf.Valid(chain) && hf.Shows(chain, pages) && hf.curPage && hf.curRec.slotNo >= 0
    requires Accounts(StateOf(hf.store, books)) && Entered(hf, books, i)
    modifies hf`curDirtyFlag, hf`curOwes, hf`hdrDirtyFlag, hf.store.Repr()
    ensures hf.Core() && hf.pos < |pages| && Stepped(hf, books, i)
    ensures st == OK ==>
              && pages[hf.pos].Live(hf.curRec.slotNo)
              && hf.Shows(chain, pages[hf.pos := Delete(pages[hf.pos], hf.curRec.slotNo)])
  {
    hide HeapAt, Store.Valid, Exchanged, Holding, Accounts, HeapFile.Valid, HeapFile.Core, HeapFile.Shows, Miscounted;
    ghost var before := StateOf(hf.store, books);
    st := hf.DeleteRecord(chain, pages);
    hf.HoldingOfCore();
    Worked(before, hf, i);
  }

  /**
   Destroying an object is a step. If it was the last on its file, only pages lost before are pinned there, and the disk
   holds the file if the count is right; otherwise nothing is written.
   */
  method CloseStep(hf: HeapFile, ghost i: nat, ghost books: Books) returns (ghost books': Books)
    requires hf.Core() && Accounts(StateOf(hf.store, books)) && Entered(hf, books, i)
    modifies hf, hf.store.Repr(), hf.store.bm.db
    ensures hf.store.Valid() && hf.store.view.logical == old(hf.store.view.logical)
    ensures books' == books.(live := Without(books.live, i)) && Accounts(StateOf(hf.store, books'))
    ensures Session.Step(old(StateOf(hf.store, books)), Closes(i), StateOf(hf.store, books'))
    ensures OpenOn(books'.live, hf.filePtr) == 0 ==>
              && (forall k: Key :: k.file == hf.filePtr ==> hf.store.view.pins[k] == books.lost.pins[k])
              && if hf.filePtr in books.leaked then hf.store.bm.db.files == old(hf.store.bm.db.files)
                 else Durable(hf.store.bm.pool, hf.store.view, hf.filePtr)
  {
    hide HeapFile.Core, Closed, Accounts, Durable, Store.Valid;
    ghost var before := StateOf(hf.store, books);
    AccountsParts(before);
    hf.Close();
    books' := books.(live := Without(books.live, i));
    ghost var after := StateOf(hf.store, books');
    assert Session.Step(before, Closes(i), after);
    StepKeepsAccounts(before, Closes(i), after);
    if OpenOn(books'.live, hf.filePtr) == 0 {
      LastCloseFlushesIff([before, after], [Closes(i)], 0);
    }
  }

  /** createHeapFile is a step, whether the file is there, is created, or frames are lacking for its pages. */
  method CreateStep(s: Store, f: int, ghost books: Books)
    returns (st: Status, ghost chain: seq<int>, ghost books': Books)
    requires s.Valid() && f >= 1 && Accounts(StateOf(s, books))
    modifies s.Repr(), s.bm.db
    ensures s.Valid() && Accounts(StateOf(s, books'))
    ensures st == if f in old(s.view.free) then FILEEXISTS
                  else if |PinnedPages(old(s.view.pins))| + 2 <= s.bm.numBufs then OK else BUFFEREXCEEDED
    ensures st == FILEEXISTS ==>
              && s.view == old(s.view) && s.bm.db.files == old(s.bm.db.files) &&
                 books' == Failed(books, f, false, false)
              && Session.Step(old(StateOf(s, books)), CreatesExisting(f), StateOf(s, books'))
    ensures st == OK ==>
              && s.view.pins == old(s.view.pins) && f in s.view.free && HeapAt(s.view.logical, f, 1, chain) &&
                 |chain| == 1
              && PagesOf(s.view.logical, f, chain) == [EmptyPage(chain[0])] && Durable(s.bm.pool, s.view, f)
              && books' == books && Session.Step(old(StateOf(s, books)), Creates(f), StateOf(s, books'))
    ensures st == BUFFEREXCEEDED ==>
              var pinned := |PinnedPages(old(s.view.pins))| < s.bm.numBufs;
              && books' == Failed(books, f, pinned, true)
              && Session.Step(old(StateOf(s, books)), CreateFails(f, pinned), StateOf(s, books'))
  {
    hide HeapAt, PagesOf, Accounts, Durable, Store.Valid, KeepsFrames, AllEntries, PinnedPages, Create.Abandoned,
         Session.Step, Failed, Attempted;
    ghost var before, pinned := StateOf(s, books), |PinnedPages(s.view.pins)| < s.bm.numBufs;
    AccountsParts(before);
    st, chain := Create.CreateHeapFile(s, f);
    books' := Attempted(books, st, f, pinned);
    if st == FILEEXISTS {
      ExistingStep(before, f, StateOf(s, books'));
    } else if st == OK {
      CreatedStep(before, f, StateOf(s, books'));
    } else {
      GivenUp(before.view, s.view, f, s.bm.numBufs);
      FailedStep(before, f, pinned, StateOf(s, books'));
    }
  }

  /** The books after an attempt to create file `f`. */
  ghost function Attempted(books: Books, st: Status, f: int, pinned: bool): (r: Books)
    ensures st == OK ==> r == books
    ensures st == FILEEXISTS ==> r == Failed(books, f, false, false)
    ensures st == BUFFEREXCEEDED ==> r == Failed(books, f, pinned, true)
  {
    if st == OK then books else if st == FILEEXISTS then Failed(books, f, false, false)
      else Failed(books, f, pinned, true)
  }

  lemma ExistingStep(s: State, f: int, t: State)
    requires Accounts(s) && f in s.openCnt && t.view == s.view && t.openCnt == s.openCnt[f := s.openCnt[f] + 1]
    requires t.books == Failed(s.books, f, false, false)
    ensures Session.Step(s, CreatesExisting(f), t) && Accounts(t)
  {
    hide Accounts, Failed;
    StepKeepsAccounts(s, CreatesExisting(f), t);
  }

  lemma CreatedStep(s: State, f: int, t: State)
    requires Accounts(s) && f !in s.view.free && t.view.free.Keys == s.view.free.Keys + {f} &&
             t.openCnt == s.openCnt[f := 0]
    requires t.view.pins == s.view.pins && t.view.owed == s.view.owed && KeepsFrames(s.view, t.view) &&
             t.books == s.books
    ensures Session.Step(s, Creates(f), t) && Accounts(t)
  {
    hide Accounts, KeepsFrames;
    StepKeepsAccounts(s, Creates(f), t);
  }

  lemma FailedStep(s: State, f: int, pinned: bool, t: State)
    requires Accounts(s) && f !in s.view.free && t.view.free.Keys == s.view.free.Keys + {f} &&
             t.openCnt == s.openCnt[f := 1]
    requires t.view.pins == s.view.pins + Leftover(f, pinned) && t.view.owed == s.view.owed + Leftover(f, pinned)
    requires KeepsFrames(s.view, t.view) && t.books == Failed(s.books, f, pinned, true)
    ensures Session.Step(s, CreateFails(f, pinned), t) && Accounts(t)
  {
    hide Accounts, KeepsFrames, Failed, Leftover;
    StepKeepsAccounts(s, CreateFails(f, pinned), t);
  }

  /** Removing a file that is not open is a step; no page of it is in a frame. */
  method DestroyStep(s: Store, f: int, ghost books: Books) returns (st: Status)
    requires s.Valid() && Accounts(StateOf(s, books)) && f in s.view.free && f in s.bm.db.openCnt
    requires s.bm.db.openCnt[f] == 0 ==> forall k :: k in s.bm.pool.table ==> k.file != f
    modifies s, s.bm`pool, s.bm.db
    ensures s.Valid() && Accounts(StateOf(s, books))
    ensures st == if OpenOn(books.live, f) == 0 && f !in books.leaked then OK else FILEOPEN
    ensures st == OK ==>
              s.view == Removing(old(s.view), f) && Session.Step(old(StateOf(s, books)), Destroys(f), StateOf(s, books))
    ensures st != OK ==> s.view == old(s.view) && s.bm.db.openCnt == old(s.bm.db.openCnt)
  {
    hide Accounts, Store.Valid;
    ghost var before := StateOf(s, books);
    AccountsParts(before);
    assert CountsAt(before, f);
    st := s.DestroyFile(f);
    if st == OK {
      StepKeepsAccounts(before, Destroys(f), StateOf(s, books));
    }
  }

  lemma GivenUp(v: View, w: View, f: int, frames: int)
    requires Create.Abandoned(v.(free := v.free[f := []]), w, f, frames)
    ensures var pinned := |PinnedPages(v.pins)| < frames;
            && w.free.Keys == v.free.Keys + {f} && KeepsFrames(v, w)
            && w.pins == v.pins + Leftover(f, pinned) && w.owed == v.owed + Leftover(f, pinned)
  {
    hide PinnedPages;
  }

  // ----- a write that does not reach the disk

  /** The end of the run below: the record is in the file and on nobody's pages, but the page on disk is still empty. */
  lemma NotOnDisk(s: Store, f: int, n: int, rec: Bytes, m: int)
    requires s.Valid() && HeapAt(s.view.logical, f, 1, [n]) &&
             PagesOf(s.view.logical, f, [n]) == InsertPages([EmptyPage(n)], rec, m) && |rec| <= MAX_RECORD
    requires BufSpec.OnDisk(s.bm.db.files, Key(f, n)) && s.bm.db.files[f][n] == DataPage(EmptyPage(n))
    ensures !Durable(s.bm.pool, s.view, f)
  {
    hide HeapAt, PagesOf, LowestHoleFrom;
    BlankFits(n, rec);
    PageFacts(s.view.logical, f, 1, [n], 0);
    assert s.view.logical[Key(f, n)] == DataPage(Insert(EmptyPage(n), rec));
    assert s.bm.pool.disk == s.bm.db.files;
  }

  lemma FreshPageSaved(s: Store, f: int, n: int)
    requires s.Valid() && HeapAt(s.view.logical, f, 1, [n]) && PagesOf(s.view.logical, f, [n]) == [EmptyPage(n)] &&
             Durable(s.bm.pool, s.view, f)
    ensures Saved(s.bm.db.files, s.view.logical, Key(f, n)) && s.view.logical[Key(f, n)] == DataPage(EmptyPage(n))
  {
    hide HeapAt, PagesOf;
    PageFacts(s.view.logical, f, 1, [n], 0);
    assert s.bm.pool.disk == s.bm.db.files;
  }

  /** Opens a new file and inserts a record; the page on disk is still empty. */
  method WriteNew(s: Store, f: int, rec: Bytes, ghost n: int, ghost books: Books)
    returns (ifs: HeapFile, ghost s1: State, ghost o: Hold, ghost books': Books)
    requires s.Valid() && f in s.view.free && |s.view.pins| + 2 <= s.bm.numBufs && |rec| <= MAX_RECORD &&
             Accounts(StateOf(s, books))
    requires HeapAt(s.view.logical, f, 1, [n]) && PagesOf(s.view.logical, f, [n]) == [EmptyPage(n)]
    requires Saved(s.bm.db.files, s.view.logical, Key(f, n)) && s.view.logical[Key(f, n)] == DataPage(EmptyPage(n))
    modifies s.Repr(), s.bm.db
    ensures fresh(ifs) && ifs.store == s && ifs.filePtr == f && ifs.Core()
    ensures books' == books.(live := books.live + [ifs.Held()]) && Accounts(StateOf(s, books'))
    ensures HeapAt(s.view.logical, f, 1, [n])
    ensures PagesOf(s.view.logical, f, [n]) == InsertPages([EmptyPage(n)], rec, ifs.curPageNo)
    ensures BufSpec.OnDisk(s.bm.db.files, Key(f, n)) && s.bm.db.files[f][n] == DataPage(EmptyPage(n))
    ensures Session.Step(old(StateOf(s, books)), Opens(o), s1)
    ensures Session.Step(s1, Works(|books.live|, ifs.Held()), StateOf(s, books'))
  {
    hide HeapAt, PagesOf, Accounts, Store.Valid, HeapFile.Valid, HeapFile.Core, Session.Step, InsertPages, FramesFor,
         PageImage.Fits;
    ghost var chain, i := [n], |books.live|;
    OpenFits(s.view.pins, f, chain, s.bm.numBufs);
    ifs, books' := OpenStep(s, f, true, chain, books);
    o, s1 := ifs.Held(), StateOf(s, books');
    assert Saved(s.bm.db.files, s.view.logical, Key(f, n));
    BlankFits(n, rec);
    var st, rid;
    ghost var chain', pages', before := [], [], books';
    st, rid, chain', pages' := InsertStep(ifs, rec, chain, [EmptyPage(n)], i, before);
    books' := Updated(before, i, ifs.Held());
    assert (books.live + [o])[i := ifs.Held()] == books.live + [ifs.Held()];
    ifs.CoreOf(chain');
  }

  /**
   A record is inserted into a new file that nobody else uses. It reaches the disk if and only if the open count of the
   file is right.
   */
  method InsertAlone(s: Store, f: int, rec: Bytes, ghost n: int, ghost books: Books)
    returns (ghost states: seq<State>, ghost events: seq<Event>)
    requires s.Valid() && f in s.view.free && |s.view.pins| + 2 <= s.bm.numBufs && |rec| <= MAX_RECORD &&
             Accounts(StateOf(s, books))
    requires HeapAt(s.view.logical, f, 1, [n]) && PagesOf(s.view.logical, f, [n]) == [EmptyPage(n)] &&
             OpenOn(books.live, f) == 0
    requires Saved(s.bm.db.files, s.view.logical, Key(f, n)) && s.view.logical[Key(f, n)] == DataPage(EmptyPage(n))
    modifies s.Repr(), s.bm.db
    ensures s.Valid() && Run(states, events) && |events| == 3 && (forall e :: e in events ==> !e.CreatesExisting?)
    ensures states[0] == old(StateOf(s, books)) && states[3] == StateOf(s, books)
    ensures forall k: Key :: k.file == f ==> s.view.pins[k] == books.lost.pins[k]
    ensures Durable(s.bm.pool, s.view, f) <==> f !in books.leaked
  {
    hide HeapAt, PagesOf, Accounts, Durable, Store.Valid, HeapFile.Core, Session.Step, InsertPages, Saved;
    ghost var s0, i := StateOf(s, books), |books.live|;
    var ifs;
    ghost var s1, o, books2, ignored;
    ifs, s1, o, books2 := WriteNew(s, f, rec, n, books);
    ghost var s2, o2, m := StateOf(s, books2), ifs.Held(), ifs.curPageNo;
    assert Without(books2.live, i) == books.live;
    ignored := CloseStep(ifs, i, books2);
    ghost var s3 := StateOf(s, books);
    states, events := [s0, s1, s2, s3], [Opens(o), Works(i, o2), Closes(i)];
    if f in books.leaked {
      NotOnDisk(s, f, n, rec, m);
    }
  }

  /**
   A file is created and a record is inserted, while nobody else uses it; in between createHeapFile may be called
   for it again. Exactly then the record does not reach the disk, although no object is left that could write it.
   */
  method InsertIntoNew(s: Store, f: int, again: bool, rec: Bytes, ghost books: Books)
    returns (ghost states: seq<State>, ghost events: seq<Event>)
    requires s.Valid() && f >= 1 && f !in s.view.free && |s.view.pins| + 2 <= s.bm.numBufs && |rec| <= MAX_RECORD
    requires Accounts(StateOf(s, books))
    modifies s.Repr(), s.bm.db
    ensures s.Valid() && Run(states, events) && states[0] == old(StateOf(s, books))
    ensures states[|events|] == StateOf(s, if again then Failed(books, f, false, false) else books)
    ensures again <==> CreatesExisting(f) in events
    ensures forall k: Key :: k.file == f ==> s.view.pins[k] == 0
    ensures Durable(s.bm.pool, s.view, f) <==> !again
  {
    hide HeapAt, PagesOf, Accounts, Durable, Store.Valid, Session.Step, Saved;
    ghost var s0 := StateOf(s, books);
    NewFile(s0, f);
    PagesFew(s.view.pins);
    var st;
    ghost var chain, rest, more, books1, ignored;
    st, chain, books1 := CreateStep(s, f, books);
    ghost var s1, n := StateOf(s, books1), chain[0];
    assert chain == [n];
    FreshPageSaved(s, f, n);
    if again {
      st, ignored, books1 := CreateStep(s, f, books1);
    }
    rest, more := InsertAlone(s, f, rec, n, books1);
    if again {
      states, events := [s0, s1] + rest, [Creates(f), CreatesExisting(f)] + more;
      assert events[1] == CreatesExisting(f);
    } else {
      states, events := [s0] + rest, [Creates(f)] + more;
    }
  }

  lemma NewFile(s: State, f: int)
    requires Accounts(s) && f !in s.view.free
    ensures f !in s.books.leaked && OpenOn(s.books.live, f) == 0 &&
            forall k: Key :: k.file == f ==> s.books.lost.pins[k] == 0
  {
    hide Over;
    assert f !in s.openCnt.Keys;
    NobodyOn(s.books.live, f);
  }
}
