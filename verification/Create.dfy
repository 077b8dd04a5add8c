/** Creating heap files. */
module Create {
  import opened Common
  import opened PageSpec
  import opened DiskSpec
  import opened BufHash
  import opened BufRefine
  import opened BufRuns
  import opened HeapSpec
  import opened Chain
  import opened Storage

  /** A header page and one empty data page make an empty heap file. */
  lemma EmptyHeapFile(l: Logical, f: int, n: int)
    requires n > 1 && Key(f, 1) in l && l[Key(f, 1)] == HeapHeader(FileHdr(n, n, 1, 0))
    requires Key(f, n) in l && l[Key(f, n)] == DataPage(EmptyPage(n))
    ensures HeapAt(l, f, 1, [n]) && PagesOf(l, f, [n]) == [EmptyPage(n)] && AllEntries([EmptyPage(n)]) == []
  {
    assert PageAt(l, f, [n], 0);
    PageBefore(l, f, [n], 1, 0);
    assert PagesOf(l, f, [n]) == [EmptyPage(n)];
    assert PageEntries(EmptyPage(n), 0) == [];
    assert Entries([EmptyPage(n)], 1) == [];
  }

  /** Fills in a page just allocated and unpins it dirty. */
  method Release(s: Store, frame: int, k: Key, b: Block)
    requires s.Valid() && s.view.pins[k] > 0 && s.view.owed[k] > 0 && FrameOf(s.view, k) == frame
    modifies s.Repr()
    ensures s.Valid()
    ensures s.view == Unpinning(Writing(old(s.view), k, b, false), k, true)
  {
    hide Store.Valid;
    s.PinnedInUse(k);
    s.Put(frame, k, b, false);
    var st := s.UnPinPage(k, true, true);
  }

  /** The two pages of a new heap file: both pinned, filled in, and unpinned dirty. */
  ghost predicate TwoPages(v: View, w: View, f: int, n: int) {
    && n > 1 && w.pins == v.pins && w.owed == v.owed && w.free.Keys == v.free.Keys
    && w.logical == v.logical[Key(f, 1) := HeapHeader(FileHdr(n, n, 1, 0))][Key(f, n) := DataPage(EmptyPage(n))]
    && KeepsFrames(v, w)
  }

  lemma BackOut(m: multiset<Key>, a: Key, b: Key)
    ensures m + multiset{a} + multiset{b} - multiset{b} - multiset{a} == m
  {
  }

  lemma Overwritten(l: Logical, l1: Logical, l2: Logical, a: Key, x: Block, b: Key, y: Block)
    requires a in l1 && l1 == l[a := l1[a]] && b !in l1 && b in l2 && l2 == l1[b := l2[b]]
    ensures l2[b := y][a := x] == l[a := x][b := y]
  {
    assert a != b;
  }

  lemma TwoPagesAdded(v: View, f: int, v1: View, v2: View, n: int, v3: View)
    requires forall k :: k in v.logical ==> k.file != f
    requires PageAdded(v, v1, Key(f, 1)) && PageAdded(v1, v2, Key(f, n))
    requires v3 == Unpinning(Writing(v2, Key(f, n), DataPage(EmptyPage(n)), false), Key(f, n), true)
    ensures TwoPages(v, Unpinning(Writing(v3, Key(f, 1), HeapHeader(FileHdr(n, n, 1, 0)), false), Key(f, 1), true), f,
                     n)
  {
    BackOut(v.pins, Key(f, 1), Key(f, n));
    BackOut(v.owed, Key(f, 1), Key(f, n));
    Overwritten(v.logical, v1.logical, v2.logical, Key(f, 1), HeapHeader(FileHdr(n, n, 1, 0)), Key(f, n),
                DataPage(EmptyPage(n)));
  }

  /** An attempt that ran out of frames: the file has at most its header page pinned, and nobody else notices. */
  ghost predicate Abandoned(v: View, w: View, f: int, frames: int) {
    && (forall k :: k in v.logical ==> k in w.logical && w.logical[k] == v.logical[k]) && KeepsFrames(v, w) &&
       w.free.Keys == v.free.Keys
    && w.pins == (if |PinnedPages(v.pins)| < frames then v.pins + multiset{Key(f, 1)} else v.pins)
    && w.owed == (if |PinnedPages(v.pins)| < frames then v.owed + multiset{Key(f, 1)} else v.owed)
  }

  /** Allocates the two pages of a heap file, fills them in and unpins them, if the pool has frames for both. */
  method MakePages(s: Store, f: int) returns (st: Status, ghost n: int)
    requires s.Valid() && f in s.view.free && s.view.free[f] == []
    requires forall k :: k in s.view.logical ==> k.file != f
    modifies s.Repr(), s.bm.db`files
    ensures s.Valid() && (st == OK || st == BUFFEREXCEEDED)
    ensures st == OK <==> |PinnedPages(old(s.view.pins))| + 2 <= s.bm.numBufs
    ensures st == OK ==> TwoPages(old(s.view), s.view, f, n)
    ensures st != OK ==> Abandoned(old(s.view), s.view, f, s.bm.numBufs)
  {
    hide Store.Valid, TwoPages, PinnedPages, Abandoned, PageLeaked;
    ghost var v := s.view;
    var hdrPageNo, hdrFrame;
    n := -1;
    s.PagesFit();
    st, hdrPageNo, hdrFrame := s.AllocPage(f);
    if st != OK {
      NoPageMade(v, s.view, f, s.bm.numBufs);
      return;
    }
    s.OnlyPage(f, hdrPageNo);
    ghost var v1 := s.view;
    MorePinned(v.pins, Key(f, 1));
    var newPageNo, newFrame;
    s.PagesFit();
    st, newPageNo, newFrame := s.AllocPage(f);
    if st != OK {
      OnePageMade(v, v1, s.view, f, s.bm.numBufs);
      return;
    }
    FillPages(s, f, hdrFrame, newFrame, newPageNo, v, v1);
    n := newPageNo;
  }

  /** Fills in the two pages allocated and unpins them. */
  method FillPages(s: Store, f: int, hdrFrame: int, newFrame: int, n: int, ghost v: View, ghost v1: View)
    requires s.Valid() && PageAdded(v, v1, Key(f, 1)) && PageAdded(v1, s.view, Key(f, n)) &&
             forall k :: k in v.logical ==> k.file != f
    requires FrameOf(s.view, Key(f, 1)) == hdrFrame && FrameOf(s.view, Key(f, n)) == newFrame
    modifies s.Repr()
    ensures s.Valid() && TwoPages(v, s.view, f, n)
  {
    hide Store.Valid, TwoPages;
    ghost var v2 := s.view;
    Release(s, newFrame, Key(f, n), DataPage(EmptyPage(n)));
    ghost var v3 := s.view;
    Release(s, hdrFrame, Key(f, 1), HeapHeader(FileHdr(n, n, 1, 0)));
    TwoPagesAdded(v, f, v1, v2, n, v3);
  }

  lemma NoPageMade(v: View, w: View, f: int, frames: int)
    requires PageLeaked(v, w) && |PinnedPages(v.pins)| == frames
    ensures Abandoned(v, w, f, frames)
  {
    hide PinnedPages;
  }

  lemma OnePageMade(v: View, v1: View, w: View, f: int, frames: int)
    requires PageAdded(v, v1, Key(f, 1)) && PageLeaked(v1, w) && |PinnedPages(v.pins)| < frames
    ensures Abandoned(v, w, f, frames)
  {
    hide PinnedPages;
  }

  lemma MorePinned(pins: multiset<Key>, k: Key)
    requires pins[k] == 0
    ensures |PinnedPages(pins + multiset{k})| == |PinnedPages(pins)| + 1
  {
    PagesPinned(pins, k);
  }

  /**
   Creates a file with the pages of an empty heap file and leaves it on disk, closed; without frames it is left open.
   */
  method CreateNew(s: Store, f: int) returns (st: Status, ghost n: int)
    requires s.Valid() && f >= 1 && f !in s.view.free
    modifies s.Repr(), s.bm.db
    ensures s.Valid() && (forall k: Key :: k.file == f ==> k !in old(s.view.logical)) &&
            (st == OK || st == BUFFEREXCEEDED)
    ensures st == OK <==> |PinnedPages(old(s.view.pins))| + 2 <= s.bm.numBufs
    ensures var v := old(s.view).(free := old(s.view).free[f := []]);
            if st == OK then TwoPages(v, s.view, f, n) && Durable(s.bm.pool, s.view, f)
              else Abandoned(v, s.view, f, s.bm.numBufs)
    ensures s.bm.db.openCnt == old(s.bm.db.openCnt)[f := if st == OK then 0 else 1]
  {
    hide Store.Valid, Durable, PinnedPages, TwoPages, Abandoned;
    s.CreateFile(f);
    s.OpenFile(f);
    ghost var v := s.view;
    st, n := MakePages(s, f);
    if st == OK {
      PinsBack(v, s.view, f, n);
      st := s.FlushFile(f);
      s.CloseFile(f);
    }
  }

  lemma PinsBack(v: View, w: View, f: int, n: int)
    requires TwoPages(v, w, f, n)
    ensures w.pins == v.pins && w.free.Keys == v.free.Keys
  {
  }

  lemma FilesStay(v: View, w: View, f: int, n: int)
    requires TwoPages(v.(free := v.free[f := []]), w, f, n) && forall k: Key :: k.file == f ==> k !in v.logical
    ensures w.free.Keys == v.free.Keys + {f} && KeepsFrames(v, w) &&
            forall k :: k in v.logical ==> k in w.logical && w.logical[k] == v.logical[k]
  {
  }

  /**
   Creates an empty heap file and leaves it on disk. If the file is there already it is not touched,
   but its open count has gone up and nothing will bring it down again. If the pool has no frames for two more
   pages the new file stays open and is no heap file.
   */
  method CreateHeapFile(s: Store, f: int) returns (st: Status, ghost chain: seq<int>)
    requires s.Valid() && f >= 1 && (f in s.view.free ==> f in s.bm.db.openCnt)
    modifies s.Repr(), s.bm.db
    ensures s.Valid()
    ensures st == if f in old(s.view.free) then FILEEXISTS
            else if |PinnedPages(old(s.view.pins))| + 2 <= s.bm.numBufs then OK else BUFFEREXCEEDED
    ensures st == FILEEXISTS ==>
              && s.view == old(s.view) && s.bm.db.files == old(s.bm.db.files)
              && s.bm.db.openCnt == old(s.bm.db.openCnt)[f := old(s.bm.db.openCnt)[f] + 1]
    ensures st == OK ==>
              && HeapAt(s.view.logical, f, 1, chain) && |chain| == 1 &&
                 PagesOf(s.view.logical, f, chain) == [EmptyPage(chain[0])]
              && AllEntries(PagesOf(s.view.logical, f, chain)) == []
              && Durable(s.bm.pool, s.view, f) && s.bm.db.openCnt == old(s.bm.db.openCnt)[f := 0]
              && s.view.free.Keys == old(s.view.free.Keys) + {f} && KeepsFrames(old(s.view), s.view)
              && s.view.pins == old(s.view.pins) && s.view.owed == old(s.view.owed)
              && forall k :: k in old(s.view.logical) ==>
                   k in s.view.logical && s.view.logical[k] == old(s.view.logical)[k]
    ensures st == BUFFEREXCEEDED ==>
              && Abandoned(old(s.view).(free := old(s.view).free[f := []]), s.view, f, s.bm.numBufs)
              && s.bm.db.openCnt == old(s.bm.db.openCnt)[f := 1]
  {
    hide Store.Valid, HeapAt, Durable, PagesOf, AllEntries, PinnedPages, Abandoned, KeepsFrames;
    chain := [];
    var found := s.Exists(f);
    if found {
      s.OpenFile(f);
      return FILEEXISTS, [];
    }
    ghost var v, n := s.view, -1;
    st, n := CreateNew(s, f);
    if st == OK {
      FilesStay(v, s.view, f, n);
      EmptyHeapFile(s.view.logical, f, n);
      chain := [n];
    }
  }
}
