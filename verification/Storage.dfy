/**
 The buffer manager as heap files use it. A pointer to a pinned page is the number of its frame, in which
 the page stays while the pin is held.
 */
module Storage {
  import opened Common
  import opened DiskSpec
  import opened BufHash
  import opened BufSpec
  import opened BufRefine
  import opened BufRuns
  import Buf

  class Store {
    const bm: Buf.BufMgr
    /** What clients see of the pool. */
    ghost var view: View

    ghost predicate Valid()
      reads this, bm, bm.db, bm.hashTable, bm.hashTable.ht, bm.bufTable, bm.bufPool
    {
      bm.Valid() && Coherent(bm.pool, view)
    }

    ghost function Repr(): set<object> {
      {this, bm, bm.hashTable, bm.hashTable.ht, bm.bufTable, bm.bufPool}
    }

    /** An empty pool over the files of a database, whose free lists are in order. */
    constructor Start(bufs: int, database: Buf.DB, ghost free: map<int, seq<int>>)
      requires bufs >= 1 && free.Keys == database.files.Keys
      requires forall f :: f in database.files ==>
                 f >= 1 && HeaderShape(database.files[f]) && FreeList(database.files[f], free[f])
      ensures Valid() && bm.db == database && bm.numBufs == bufs && fresh(Repr())
      ensures view == DiskView(database.files, free) && view.pins == multiset{}
    {
      bm := new Buf.BufMgr(bufs, database);
      view := DiskView(database.files, free);
      new;
      InitialCoherent(bm.pool, view);
    }

    constructor (manager: Buf.BufMgr, ghost v: View)
      requires manager.Valid() && Coherent(manager.pool, v)
      ensures Valid() && bm == manager && view == v
    {
      bm := manager;
      view := v;
    }

    lemma DebtsWithinPins()
      requires Valid()
      ensures forall k :: view.owed[k] <= view.pins[k]
    {
      assert forall k :: KeySeen(bm.pool, view, k) ==> view.owed[k] <= view.pins[k];
    }

    /** Every page that is pinned has a frame. */
    lemma PagesFit()
      requires Valid()
      ensures |PinnedPages(view.pins)| <= bm.numBufs
    {
      FramesTaken(bm.pool, view);
    }

    lemma PinnedInUse(k: Key)
      requires Valid()
      ensures view.pins[k] > 0 ==> k in view.logical
    {
      assert KeySeen(bm.pool, view, k);
    }

    /** Pins a page; `frame` is the pointer to it. A page that is pinned already stays where it is. */
    method ReadPage(k: Key) returns (st: Status, frame: int)
      requires Valid() && k in view.logical
      modifies Repr(), bm.db`files
      ensures Valid()
      ensures st == OK ==>
                view == Pinning(old(view), k, frame) && (old(view).pins[k] > 0 ==> FrameOf(old(view), k) == frame)
      ensures st != OK ==> st == BUFFEREXCEEDED && view == old(view)
      ensures st == OK <==> FramesFor(old(view).pins, {k}, bm.numBufs)
      ensures st != OK ==> |PinnedPages(old(view).pins)| == bm.numBufs
      ensures KeepsSaved(old(bm.db.files), bm.db.files, view.logical)
    {
      hide KeepsSaved, Coherent, BufSpec.ReadPage, Inv, PinnedPages, FramesFor;
      ghost var w := ReadOutcome(bm.pool, view, k);
      OneMoreFrame(view.pins, k, bm.numBufs);
      ReadSaves(bm.pool, view, k);
      st, frame := bm.ReadPage(k);
      view := w;
    }

    method UnPinPage(k: Key, dirty: bool, ghost settles: bool) returns (st: Status)
      requires Valid() && k in view.logical
      requires view.pins[k] > 0 ==> if settles then dirty else view.owed[k] < view.pins[k]
      modifies Repr()
      ensures Valid()
      ensures st == OK <==> old(view).pins[k] > 0
      ensures view == if st == OK then Unpinning(old(view), k, settles) else old(view)
    {
      hide Coherent, BufSpec.UnPinPage, Inv;
      ghost var w := UnpinOutcome(bm.pool, view, k, dirty, settles);
      st := bm.UnPinPage(k, dirty);
      view := w;
    }

    /** A new page, pinned once, whose contents are unspecified and owed. */
    method AllocPage(f: int) returns (st: Status, pageNo: int, frame: int)
      requires Valid() && f in view.free
      modifies Repr(), bm.db`files
      ensures Valid()
      ensures st == OK ==> PageAdded(old(view), view, Key(f, pageNo)) && FrameOf(view, Key(f, pageNo)) == frame
      ensures st != OK ==> st == BUFFEREXCEEDED && PageLeaked(old(view), view)
      ensures st != OK <==> |PinnedPages(old(view).pins)| == bm.numBufs
      ensures |PinnedPages(old(view).pins)| <= |old(view).pins|
    {
      hide Coherent, BufSpec.AllocPage, Inv, PageAdded, PageLeaked, AllocatePage;
      ghost var w := AllocOutcome(bm.pool, view, f);
      st, pageNo, frame := bm.AllocPage(f);
      view := w;
    }

    /** Reads through the pointer to a pinned page, whatever has been done to the pool since it was pinned. */
    method Get(frame: int, ghost k: Key) returns (b: Block)
      requires Valid() && view.pins[k] > 0 && FrameOf(view, k) == frame
      ensures k in view.logical && b == view.logical[k]
    {
      hide Coherent, Inv;
      PinnedFacts(bm.pool, view, k);
      b := bm.bufPool[frame];
    }

    /** Writes through the pointer to a pinned page; `first` if the holder does not owe an unpin-dirty yet. */
    method Put(frame: int, ghost k: Key, b: Block, ghost first: bool)
      requires Valid() && view.pins[k] > 0 && FrameOf(view, k) == frame
      requires if first then view.owed[k] < view.pins[k] else view.owed[k] > 0
      modifies Repr()
      ensures Valid() && view == Writing(old(view), k, b, first)
    {
      hide Coherent, Inv;
      ghost var p := bm.pool;
      PinnedFacts(p, view, k);
      ClientWriteKeepsInv(p, k, b);
      ClientWriteCoherent(p, view, k, b, first);
      bm.bufPool[frame] := b;
      bm.pool := ClientWrite(p, k, b);
      view := Writing(view, k, b, first);
    }

    /** The first user page of a file, from the file's header on disk. */
    method FirstPage(f: int) returns (pageNo: int)
      requires Valid() && f in view.free
      requires exists k :: k in view.logical && k.file == f
      ensures pageNo == 1
    {
      hide Coherent, Inv;
      FirstPageIsOne(bm.pool, view, f);
      return bm.db.files[f][0].firstPage;
    }

    method Exists(f: int) returns (found: bool)
      requires Valid()
      ensures found == (f in view.free)
    {
      FileOnDisk(bm.pool, view, f);
      return f in bm.db.files;
    }

    /** Creates a Unix file that holds just the header page. */
    method CreateFile(f: int)
      requires Valid() && f >= 1 && f !in view.free
      modifies this, bm`pool, bm.db
      ensures Valid() && view == old(view).(free := old(view).free[f := []])
      ensures bm.db.openCnt == old(bm.db.openCnt)[f := 0]
      ensures forall k: Key :: k.file == f ==> k !in view.logical && view.pins[k] == 0
    {
      CreateCoherent(bm.pool, view, f);
      bm.db.files := bm.db.files[f := CreatedFile()];
      bm.db.openCnt := bm.db.openCnt[f := 0];
      bm.pool := bm.pool.(disk := bm.db.files);
      view := view.(free := view.free[f := []]);
    }

    /** Removes a file that is not open; no page of it is in a frame. */
    method DestroyFile(f: int) returns (st: Status)
      requires Valid()
      requires (f in bm.db.openCnt && bm.db.openCnt[f] > 0) || forall k :: k in bm.pool.table ==> k.file != f
      modifies this, bm`pool, bm.db
      ensures Valid()
      ensures st == if f in old(bm.db.openCnt) && old(bm.db.openCnt)[f] > 0 then FILEOPEN
                    else if f in old(view.free) then OK else UNIXERR
      ensures st != OK ==> view == old(view) && bm.db.files == old(bm.db.files) && bm.db.openCnt == old(bm.db.openCnt)
      ensures st == OK ==>
                && view == Removing(old(view), f) && bm.db.openCnt == old(bm.db.openCnt) - {f}
                && forall k: Key :: k.file == f ==> view.pins[k] == 0
    {
      FileOnDisk(bm.pool, view, f);
      if f in bm.db.openCnt && bm.db.openCnt[f] > 0 {
        return FILEOPEN;
      }
      if f !in bm.db.files {
        return UNIXERR;
      }
      DestroyCoherent(bm.pool, view, f);
      bm.db.files := bm.db.files - {f};
      bm.db.openCnt := bm.db.openCnt - {f};
      bm.pool := bm.pool.(disk := bm.db.files);
      view := Removing(view, f);
      return OK;
    }

    /** The only page of a file without free pages is page 1. */
    lemma OnlyPage(f: int, n: int)
      requires Valid() && f in view.free && view.free[f] == []
      requires Key(f, n) in view.logical && forall k :: k in view.logical && k.file == f ==> k.page == n
      ensures n == 1
    {
      assert Key(f, 1) in view.logical;
    }

    method OpenFile(f: int)
      requires Valid() && f in bm.db.openCnt
      modifies bm.db`openCnt
      ensures Valid() && bm.db.openCnt == old(bm.db.openCnt)[f := old(bm.db.openCnt)[f] + 1]
    {
      bm.db.openCnt := bm.db.openCnt[f := bm.db.openCnt[f] + 1];
    }

    /** When the open count reaches zero the file is flushed; the status of the flush is not looked at. */
    method CloseFile(f: int)
      requires Valid() && f in bm.db.openCnt && f in view.free
      modifies Repr(), bm.db
      ensures Valid() && view == old(view)
      ensures var n := old(bm.db.openCnt)[f];
              bm.db.openCnt == old(bm.db.openCnt)[f := if n <= 0 then n else n - 1]
      ensures old(bm.db.openCnt)[f] == 1 && (forall k: Key :: k.file == f ==> view.pins[k] == 0) ==>
                Durable(bm.pool, view, f)
      ensures old(bm.db.openCnt)[f] != 1 ==> bm.pool == old(bm.pool) && bm.db.files == old(bm.db.files)
    {
      hide Coherent, BufSpec.FlushFile, Durable, Inv;
      ghost var p := bm.pool;
      FileIsReal(p, view, f);
      FlushMakesDurable(p, view, f);
      if bm.db.openCnt[f] <= 0 {
        assert bm.db.openCnt[f := bm.db.openCnt[f]] == bm.db.openCnt;
        return;
      }
      bm.db.openCnt := bm.db.openCnt[f := bm.db.openCnt[f] - 1];
      if bm.db.openCnt[f] == 0 {
        var st := bm.FlushFile(f);
      }
    }

    method FlushFile(f: int) returns (st: Status)
      requires Valid() && f in view.free
      modifies Repr(), bm.db`files
      ensures Valid() && view == old(view)
      ensures st == OK <==> forall k: Key :: k.file == f ==> view.pins[k] == 0
      ensures st == OK ==> Durable(bm.pool, view, f)
    {
      hide Coherent, BufSpec.FlushFile, Durable, Inv;
      ghost var p := bm.pool;
      FileIsReal(p, view, f);
      FlushMakesDurable(p, view, f);
      st := bm.FlushFile(f);
    }
  }

  lemma ReadOutcome(p: Pool, v: View, k: Key) returns (w: View)
    requires Coherent(p, v) && k in v.logical
    ensures var (st, q) := BufSpec.ReadPage(p, k);
            && k.Hashable() && Inv(q) && Coherent(q, w)
            && (st == OK ==> k in q.table && w == Pinning(v, k, q.table[k]))
            && (st == OK && v.pins[k] > 0 ==> k in v.frames && v.frames[k] == q.table[k])
            && (st != OK ==> st == BUFFEREXCEEDED && w == v)
            && (st != OK <==> v.pins[k] == 0 && |PinnedPages(v.pins)| == |p.desc|)
            && |PinnedPages(v.pins)| <= |p.desc| && |PinnedPages(v.pins)| <= |v.pins|
  {
    UsedIsOnDisk(p, v, k);
    ReadCoherent(p, v, k);
    FramesTaken(p, v);
    if v.pins[k] > 0 {
      PinnedInTable(p, v, k);
    } else if k in p.table {
      UnpinnedFrame(p, v, k);
    }
    if BufSpec.ReadPage(p, k).0 == OK {
      w := Pinning(v, k, BufSpec.ReadPage(p, k).1.table[k]);
      if v.pins[k] > 0 {
        ReadAgain(p, v, k);
      }
    } else {
      w := v;
    }
  }

  /** A page that is pinned is read in the frame it is in. */
  lemma ReadAgain(p: Pool, v: View, k: Key)
    requires Coherent(p, v) && v.pins[k] > 0
    ensures k in p.table && k in v.frames && v.frames[k] == p.table[k] && BufSpec.ReadPage(p, k).1.table == p.table
  {
    assert KeySeen(p, v, k);
  }

  lemma UnpinOutcome(p: Pool, v: View, k: Key, dirty: bool, settles: bool) returns (w: View)
    requires Coherent(p, v) && k in v.logical && (v.pins[k] > 0 ==> if settles then dirty else v.owed[k] < v.pins[k])
    ensures var (st, q) := BufSpec.UnPinPage(p, k, dirty);
            && k.Hashable() && Inv(q) && Coherent(q, w)
            && (st == OK <==> v.pins[k] > 0)
            && w == if st == OK then Unpinning(v, k, settles) else v
  {
    UsedIsOnDisk(p, v, k);
    UnpinCoherent(p, v, k, dirty, settles);
    w := if BufSpec.UnPinPage(p, k, dirty).0 == OK then Unpinning(v, k, settles) else v;
  }

  /** `w` is `v` with one more page, pinned by the caller, who has to unpin it dirty. */
  ghost predicate PageAdded(v: View, w: View, k: Key) {
    && k.page >= 1 && k !in v.logical && k in w.logical
    && w.logical == v.logical[k := w.logical[k]]
    && v.pins[k] == 0 && w.pins == v.pins + multiset{k} && w.owed == v.owed + multiset{k}
    && k in w.frames && w.frames == v.frames[k := w.frames[k]]
    && k.file in v.free && w.free == v.free[k.file := ListAfterAlloc(v.free[k.file])]
  }

  /** The file layer handed out a page, but there was no frame for it. */
  ghost predicate PageLeaked(v: View, w: View) {
    && v.logical.Keys <= w.logical.Keys && (forall k :: k in v.logical ==> w.logical[k] == v.logical[k])
    && w.pins == v.pins && w.owed == v.owed && w.frames == v.frames && w.free.Keys == v.free.Keys
  }

  lemma LeaksPage(v: View, a: View, k: Key)
    requires k !in v.logical && k in a.logical && a.logical == v.logical[k := a.logical[k]]
    requires a.pins == v.pins && a.owed == v.owed && a.frames == v.frames && a.free.Keys == v.free.Keys
    ensures PageLeaked(v, a)
  {
  }

  lemma AddsPage(v: View, a: View, k: Key, i: int, b: Block)
    requires k.page >= 1 && v.pins[k] == 0 && a.frames == v.frames && k !in v.logical && k in a.logical
    requires a.logical == v.logical[k := a.logical[k]]
    requires a.pins == v.pins && a.owed == v.owed && k.file in v.free &&
             a.free == v.free[k.file := ListAfterAlloc(v.free[k.file])]
    ensures PageAdded(v, Pinned(a, k, i, b, true), k)
  {
  }

  lemma AllocOutcome(p: Pool, v: View, f: int) returns (w: View)
    requires Coherent(p, v) && f in v.free
    ensures f in p.disk
    ensures var (st, q) := BufSpec.AllocPage(p, f);
            && Inv(q) && Coherent(q, w)
            && (st == OK ==>
                PageAdded(v, w, NewPage(p, f)) && NewPage(p, f) in q.table &&
                FrameOf(w, NewPage(p, f)) == q.table[NewPage(p, f)])
            && (st != OK ==> st == BUFFEREXCEEDED && PageLeaked(v, w)) &&
               (st != OK <==> |PinnedPages(v.pins)| == |p.desc|) && |PinnedPages(v.pins)| <= |v.pins|
  {
    hide Sees, PageAdded, PageLeaked, Allocating, AllocatePage, BufSpec.AllocPage, AllocBuf;
    FileOnDisk(p, v, f);
    AllocCoherent(p, v, f);
    AllocateFiles(p, v, f);
    FramesTaken(p, v);
    AllocatingAdds(p, v, f);
    var (st, q) := BufSpec.AllocPage(p, f);
    var k := NewPage(p, f);
    if st == OK {
      w := Pinned(Allocating(p, v, f), k, q.table[k], q.page[q.table[k]], true);
      AddsPage(v, Allocating(p, v, f), k, q.table[k], q.page[q.table[k]]);
    } else {
      w := Allocating(p, v, f);
      LeaksPage(v, w, k);
    }
  }

  lemma AllocatingAdds(p: Pool, v: View, f: int)
    requires Coherent(p, v) && f in p.disk
    ensures f in v.free && NewPage(p, f).page >= 1 && NewPage(p, f) in Allocating(p, v, f).logical
    ensures Allocating(p, v, f).logical == v.logical[NewPage(p, f) := Allocating(p, v, f).logical[NewPage(p, f)]]
    ensures v.pins[NewPage(p, f)] == 0 && Allocating(p, v, f).frames == v.frames
    ensures Allocating(p, v, f).pins == v.pins && Allocating(p, v, f).owed == v.owed &&
            Allocating(p, v, f).free == v.free[f := ListAfterAlloc(v.free[f])]
  {
    AllocateFiles(p, v, f);
    AllocateKeepsList(p.disk[f], v.free[f]);
    assert KeySeen(p, v, NewPage(p, f));
  }

  lemma FirstPageIsOne(p: Pool, v: View, f: int)
    requires Coherent(p, v) && f in v.free && exists k :: k in v.logical && k.file == f
    ensures f in p.disk && |p.disk[f]| >= 1 && p.disk[f][0].DbHeader? && p.disk[f][0].firstPage == 1
  {
    FileOnDisk(p, v, f);
    var k :| k in v.logical && k.file == f;
    assert KeySeen(p, v, k);
  }

  lemma FileIsReal(p: Pool, v: View, f: int)
    requires Coherent(p, v) && f in v.free
    ensures f != NULLFILE
  {
    FileOnDisk(p, v, f);
  }

  lemma PinnedFacts(p: Pool, v: View, k: Key)
    requires Coherent(p, v) && v.pins[k] > 0
    ensures k in p.table && EntryOk(p, k) && k in v.logical && v.logical[k] == p.page[p.table[k]] && k.Hashable()
    ensures k in v.frames && v.frames[k] == p.table[k]
  {
    assert KeySeen(p, v, k);
    FrameFacts(p, k);
  }

  // ----- frames that are taken

  /** The pages that are pinned. */
  ghost function PinnedPages(pins: multiset<Key>): set<Key> {
    set k | k in pins
  }

  lemma PagesFew(pins: multiset<Key>)
    ensures |PinnedPages(pins)| <= |pins|
  {
    var ks := PinnedPages(pins);
    SetAsMultiset(ks);
    assert multiset(ks) <= pins;
    assert pins == multiset(ks) + (pins - multiset(ks));
  }

  /** The pool has a frame for each of these pages and of those that are pinned. */
  ghost predicate FramesFor(pins: multiset<Key>, ks: set<Key>, frames: int) {
    |PinnedPages(pins) + ks| <= frames
  }

  lemma PagesPinned(pins: multiset<Key>, k: Key)
    ensures PinnedPages(pins + multiset{k}) == PinnedPages(pins) + {k}
  {
  }

  lemma FramesFew(pins: multiset<Key>, ks: set<Key>, frames: int)
    requires |pins| + |ks| <= frames
    ensures FramesFor(pins, ks, frames)
  {
    PagesFew(pins);
    UnionFew(PinnedPages(pins), ks);
  }

  lemma {:induction false} UnionFew(a: set<Key>, b: set<Key>)
    ensures |a + b| <= |a| + |b|
  {
    assert a + b == a + (b - a);
    assert |b - a| <= |b| by {
      SubsetFew(b - a, b);
    }
  }

  lemma SubsetFew(a: set<Key>, b: set<Key>)
    requires a <= b
    ensures |a| <= |b|
  {
    assert b == a + (b - a);
  }

  lemma OneMoreFrame(pins: multiset<Key>, k: Key, frames: int)
    requires |PinnedPages(pins)| <= frames
    ensures FramesFor(pins, {k}, frames) <==> pins[k] > 0 || |PinnedPages(pins)| < frames
  {
    assert pins[k] > 0 ==> PinnedPages(pins) + {k} == PinnedPages(pins);
  }

  /** One page after the other: the second is pinned on top of the first. */
  lemma TwoFrames(pins: multiset<Key>, a: Key, b: Key, frames: int)
    ensures FramesFor(pins, {a, b}, frames) <==>
              FramesFor(pins, {a}, frames) && FramesFor(pins + multiset{a}, {b}, frames)
  {
    PagesPinned(pins, a);
    assert PinnedPages(pins) + {a} + {b} == PinnedPages(pins) + {a, b};
    SubsetFew(PinnedPages(pins) + {a}, PinnedPages(pins) + {a, b});
  }

  lemma SetAsMultiset(ks: set<Key>)
    ensures |multiset(ks)| == |ks|
  {
  }

  ghost function PinnedIn(desc: seq<Desc>, n: nat): set<Key>
    requires n <= |desc|
  {
    if n == 0 then {} else PinnedIn(desc, n - 1) + if Unpinned(desc[n - 1]) then {} else {desc[n - 1].Owner()}
  }

  lemma {:induction false} PinnedInIs(p: Pool, n: nat, k: Key)
    requires Inv(p) && n <= |p.desc|
    ensures k in PinnedIn(p.desc, n) <==> k in p.table && p.table[k] < n && p.desc[p.table[k]].pinCnt > 0
  {
    if k in p.table {
      FrameFacts(p, k);
    }
    if n > 0 {
      PinnedInIs(p, n - 1, k);
      assert FrameOk(p.desc[n - 1], n - 1, p);
    }
  }

  lemma OwnerIsNew(p: Pool, n: nat)
    requires Inv(p) && n < |p.desc| && !Unpinned(p.desc[n])
    ensures p.desc[n].Owner() !in PinnedIn(p.desc, n)
  {
    assert FrameOk(p.desc[n], n, p);
    PinnedInIs(p, n, p.desc[n].Owner());
  }

  lemma {:induction false} PinnedInCount(p: Pool, n: nat)
    requires Inv(p) && n <= |p.desc|
    ensures |PinnedIn(p.desc, n)| <= n
    ensures |PinnedIn(p.desc, n)| == n <==> forall i :: 0 <= i < n ==> !Unpinned(p.desc[i])
  {
    hide Inv, Unpinned;
    if n > 0 {
      PinnedInCount(p, n - 1);
      if !Unpinned(p.desc[n - 1]) {
        OwnerIsNew(p, n - 1);
      }
    }
  }

  /** Every pinned page takes one frame, so all frames are pinned if and only if there are as many pinned pages. */
  lemma FramesTaken(p: Pool, v: View)
    requires Coherent(p, v)
    ensures |PinnedPages(v.pins)| <= |p.desc| && |PinnedPages(v.pins)| <= |v.pins|
    ensures |PinnedPages(v.pins)| == |p.desc| <==> forall i :: 0 <= i < |p.desc| ==> !Unpinned(p.desc[i])
  {
    var ks := PinnedIn(p.desc, |p.desc|);
    forall k ensures k in PinnedPages(v.pins) <==> k in ks {
      assert KeySeen(p, v, k);
      PinnedInIs(p, |p.desc|, k);
      if k in p.table {
        FrameFacts(p, k);
      }
    }
    assert PinnedPages(v.pins) == ks;
    PagesFew(v.pins);
    PinnedInCount(p, |p.desc|);
  }

  /** A page in the pool that is not pinned leaves a frame to be had. */
  lemma UnpinnedFrame(p: Pool, v: View, k: Key)
    requires Coherent(p, v) && k in p.table && v.pins[k] == 0
    ensures exists i :: 0 <= i < |p.desc| && Unpinned(p.desc[i])
  {
    assert KeySeen(p, v, k);
    FrameFacts(p, k);
    assert Unpinned(p.desc[p.table[k]]);
  }

  lemma PinnedInTable(p: Pool, v: View, k: Key)
    requires Coherent(p, v) && v.pins[k] > 0
    ensures k in p.table
  {
    assert KeySeen(p, v, k);
  }
}
