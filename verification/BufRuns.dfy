/** The remaining calls of the buffer manager against the view, and what holds over every run of calls. */
module BufRuns {
  import opened Common
  import opened DiskSpec
  import opened BufHash
  import opened BufSpec
  import opened BufRefine

  // ----- unpinning and client writes

  /** `settles` if the client owed this unpin because it has written the page. */
  function Unpinning(v: View, k: Key, settles: bool): View {
    v.(pins := v.pins - multiset{k}, owed := if settles then v.owed - multiset{k} else v.owed)
  }

  lemma UnpinKey(p: Pool, q: Pool, v: View, k: Key, dirty: bool, settles: bool, c: Key)
    requires Inv(p) && Inv(q) && KeySeen(p, v, k) && KeySeen(p, v, c) && q == UnPinPage(p, k, dirty).1
    requires k in p.table && v.pins[k] > 0 && if settles then dirty else v.owed[k] < v.pins[k]
    ensures KeySeen(q, Unpinning(v, k, settles), c)
  {
    FrameFacts(p, k);
    if c in p.table {
      FrameFacts(p, c);
    }
  }

  lemma DirtyKey(p: Pool, q: Pool, v: View, k: Key, dirty: bool, c: Key)
    requires Inv(p) && Inv(q) && KeySeen(p, v, k) && KeySeen(p, v, c) && q == UnPinPage(p, k, dirty).1
    requires k in p.table && v.pins[k] == 0
    ensures KeySeen(q, v, c)
  {
    FrameFacts(p, k);
    if c in p.table {
      FrameFacts(p, c);
    }
  }

  /** unPinPage gives back one pin. A client that wrote the page has to say so when it unpins. */
  lemma UnpinCoherent(p: Pool, v: View, k: Key, dirty: bool, settles: bool)
    requires Coherent(p, v) && (v.pins[k] > 0 ==> if settles then dirty else v.owed[k] < v.pins[k])
    ensures var (st, q) := UnPinPage(p, k, dirty);
            && (st == OK <==> v.pins[k] > 0)
            && Coherent(q, if st == OK then Unpinning(v, k, settles) else v)
  {
    var (st, q) := UnPinPage(p, k, dirty);
    assert KeySeen(p, v, k);
    if k in p.table {
      FrameFacts(p, k);
      DescKeepsInv(p, k, q.desc[p.table[k]]);
      var w := if v.pins[k] > 0 then Unpinning(v, k, settles) else v;
      assert FilesSeen(q.disk, w) by {
        hide FreeList;
      }
      hide FilesSeen, KeySeen;
      forall c ensures KeySeen(q, w, c) {
        assert KeySeen(p, v, c);
        if v.pins[k] > 0 {
          UnpinKey(p, q, v, k, dirty, settles, c);
        } else {
          DirtyKey(p, q, v, k, dirty, c);
        }
      }
    }
  }

  /** `first` if the holder of the pin has not written the page before. */
  function Writing(v: View, k: Key, b: Block, first: bool): View {
    v.(logical := v.logical[k := b], owed := if first then v.owed + multiset{k} else v.owed)
  }

  lemma ClientWriteKey(p: Pool, q: Pool, v: View, k: Key, b: Block, first: bool, c: Key)
    requires Inv(p) && Inv(q) && KeySeen(p, v, k) && KeySeen(p, v, c) && k in p.table && q == ClientWrite(p, k, b)
    requires if first then v.owed[k] < v.pins[k] else v.owed[k] > 0
    ensures KeySeen(q, Writing(v, k, b, first), c)
  {
    FrameFacts(p, k);
    if c in p.table {
      FrameFacts(p, c);
    }
  }

  lemma ClientWriteKeepsInv(p: Pool, k: Key, b: Block)
    requires Inv(p) && k in p.table
    ensures Inv(ClientWrite(p, k, b))
  {
    var q := ClientWrite(p, k, b);
    forall j | 0 <= j < |q.desc| ensures FrameOk(q.desc[j], j, q) {
      assert FrameOk(p.desc[j], j, p);
    }
    forall c | c in q.table ensures EntryOk(q, c) {
      assert EntryOk(p, c);
    }
  }

  lemma ClientWriteCoherent(p: Pool, v: View, k: Key, b: Block, first: bool)
    requires Coherent(p, v) && v.pins[k] > 0
    requires if first then v.owed[k] < v.pins[k] else v.owed[k] > 0
    ensures k in p.table && Coherent(ClientWrite(p, k, b), Writing(v, k, b, first))
  {
    assert KeySeen(p, v, k);
    var q, w := ClientWrite(p, k, b), Writing(v, k, b, first);
    ClientWriteKeepsInv(p, k, b);
    assert FilesSeen(q.disk, w) by {
      hide FreeList;
    }
    hide FilesSeen, KeySeen;
    forall c ensures KeySeen(q, w, c) {
      assert KeySeen(p, v, c);
      ClientWriteKey(p, q, v, k, b, first, c);
    }
  }

  // ----- flushing a file

  /** What a descriptor says about its page. */
  lemma DescFacts(p: Pool, v: View, i: nat)
    requires Coherent(p, v) && i < |p.desc|
    ensures if p.desc[i].valid then p.desc[i].pinCnt >= 0 && v.pins[p.desc[i].Owner()] == p.desc[i].pinCnt
            else p.desc[i].file == NULLFILE
  {
    assert FrameOk(p.desc[i], i, p);
    assert KeySeen(p, v, p.desc[i].Owner());
  }

  /** Where no frame holds a page of the file, none of its pages is pinned or indexed. */
  lemma NoFrameLeft(p: Pool, v: View, f: int)
    requires Coherent(p, v) && forall j :: 0 <= j < |p.desc| && p.desc[j].valid ==> p.desc[j].file != f
    ensures forall k: Key :: k.file == f ==> v.pins[k] == 0 && k !in p.table
  {
    forall k: Key | k.file == f ensures v.pins[k] == 0 && k !in p.table {
      assert KeySeen(p, v, k);
      if k in p.table {
        FrameFacts(p, k);
      }
    }
  }

  lemma DropOneFrame(p: Pool, v: View, i: nat)
    requires Coherent(p, v) && i < |p.desc| && p.desc[i].valid && p.desc[i].pinCnt == 0
    ensures Coherent(DropFrame(p, i), v) && DropFrame(p, i).desc == p.desc[i := p.desc[i].Clear()]
  {
    hide Sees;
    assert FrameOk(p.desc[i], i, p);
    EvictInvisible(p, v, i);
  }

  lemma {:induction false} FlushCoherent(p: Pool, v: View, f: int, i: nat)
    requires Coherent(p, v) && f != NULLFILE && i <= |p.desc|
    requires forall j :: 0 <= j < i && p.desc[j].valid ==> p.desc[j].file != f
    ensures var (st, q) := FlushFrom(p, f, i);
            && Coherent(q, v)
            && st == (if exists k: Key :: k.file == f && v.pins[k] > 0 then PAGEPINNED else OK)
            && (st == OK ==> forall k :: k in q.table ==> k.file != f)
    decreases |p.desc| - i
  {
    hide Sees, FrameOk, EntryOk, HeaderShape, DropFrame;
    if i == |p.desc| {
      NoFrameLeft(p, v, f);
    } else {
      DescFacts(p, v, i);
      var d := p.desc[i];
      if d.valid && d.file == f {
        if d.pinCnt == 0 {
          DropOneFrame(p, v, i);
          FlushCoherent(DropFrame(p, i), v, f, i + 1);
        } else {
          assert d.Owner().file == f;
        }
      } else {
        FlushCoherent(p, v, f, i + 1);
      }
    }
  }

  /** No frame is left for the file, and the disk holds what clients see. */
  ghost predicate Durable(p: Pool, v: View, f: int) {
    && Inv(p)
    && (forall k :: k in p.table ==> k.file != f)
    && (forall k :: k in v.logical && k.file == f ==> OnDisk(p.disk, k) && p.disk[f][k.page] == v.logical[k])
  }

  /** flushFile succeeds exactly if no page of the file is pinned; then the disk holds every page's contents. */
  lemma FlushMakesDurable(p: Pool, v: View, f: int)
    requires Coherent(p, v) && f != NULLFILE
    ensures var (st, q) := FlushFile(p, f);
            && Coherent(q, v)
            && st == (if exists k: Key :: k.file == f && v.pins[k] > 0 then PAGEPINNED else OK)
            && (st == OK ==> Durable(q, v, f))
  {
    FlushCoherent(p, v, f, 0);
    var (st, q) := FlushFile(p, f);
    if st == OK {
      forall k | k in v.logical && k.file == f ensures OnDisk(q.disk, k) && q.disk[f][k.page] == v.logical[k] {
        assert KeySeen(q, v, k);
      }
    }
  }

  // ----- allocating and disposing of pages

  /** The page number the next allocation in file `f` returns. */
  function NewPage(p: Pool, f: int): Key
    requires Inv(p) && f in p.disk
  {
    Key(f, AllocatePage(p.disk[f]).1)
  }

  function ListAfterAlloc(l: seq<int>): seq<int> {
    if l == [] then l else l[1..]
  }

  /** The view once the file layer has handed out a page, before a frame is found for it. */
  function Allocating(p: Pool, v: View, f: int): View
    requires Inv(p) && f in p.disk && f in v.free
  {
    var (_, n, pages') := AllocatePage(p.disk[f]);
    v.(logical := if 0 <= n < |pages'| then v.logical[Key(f, n) := pages'[n]] else v.logical,
       free := v.free[f := ListAfterAlloc(v.free[f])])
  }

  lemma AllocateFiles(p: Pool, v: View, f: int)
    requires Coherent(p, v) && f in p.disk
    ensures f in v.free && FilesSeen(p.disk[f := AllocatePage(p.disk[f]).2], Allocating(p, v, f))
    ensures NewPage(p, f) !in v.logical && NewPage(p, f) in Allocating(p, v, f).logical
    ensures AllocatePage(p.disk[f]).0 == OK && |AllocatePage(p.disk[f]).2| >= |p.disk[f]|
    ensures forall n :: 1 <= n < |p.disk[f]| ==> AllocatePage(p.disk[f]).2[n] == p.disk[f][n]
  {
    var (st, n, pages') := AllocatePage(p.disk[f]);
    AllocateKeepsList(p.disk[f], v.free[f]);
    var w, disk' := Allocating(p, v, f), p.disk[f := pages'];
    forall k ensures k in w.logical <==> k.file in disk' && Allocated(disk'[k.file], w.free[k.file], k.page) {
      AllocatedAfterAllocate(p.disk[f], v.free[f], k.page);
    }
  }

  lemma AllocateKey(p: Pool, q: Pool, v: View, f: int, c: Key)
    requires Inv(p) && Inv(q) && KeySeen(p, v, c) && f in p.disk && f in v.free
    requires AllocatePage(p.disk[f]).0 == OK && q == p.(disk := p.disk[f := AllocatePage(p.disk[f]).2])
    requires NewPage(p, f) in Allocating(p, v, f).logical && NewPage(p, f) !in v.logical
    requires 1 <= NewPage(p, f).page
    requires forall n :: 1 <= n < |p.disk[f]| ==> AllocatePage(p.disk[f]).2[n] == p.disk[f][n]
    ensures KeySeen(q, Allocating(p, v, f), c)
  {
    hide HeaderShape, NextFree;
    if c in p.table {
      FrameFacts(p, c);
    }
  }

  lemma AllocateCoherent(p: Pool, v: View, f: int)
    requires Coherent(p, v) && f in p.disk
    ensures f in v.free && Coherent(p.(disk := p.disk[f := AllocatePage(p.disk[f]).2]), Allocating(p, v, f))
    ensures NewPage(p, f) !in v.logical && NewPage(p, f) in Allocating(p, v, f).logical &&
            AllocatePage(p.disk[f]).0 == OK
  {
    AllocateFiles(p, v, f);
    AllocateKeepsInv(p, f);
    AllocateKeepsList(p.disk[f], v.free[f]);
    var q := p.(disk := p.disk[f := AllocatePage(p.disk[f]).2]);
    hide FilesSeen, AllocatePage, FreeList;
    forall c ensures KeySeen(q, Allocating(p, v, f), c) {
      assert KeySeen(p, v, c);
      AllocateKey(p, q, v, f, c);
    }
  }

  lemma VacantClaim(q: Pool, v: View, k: Key)
    requires |q.desc| == |q.page| && 0 <= q.hand < |q.desc| && Coherent(Vacate(q, q.hand), v)
    requires k in v.logical && k !in q.table
    ensures Coherent(Install(q, q.hand, k, q.page[q.hand]), Pinned(v, k, q.hand, q.page[q.hand], true))
  {
    var r, b := Vacate(q, q.hand), q.page[q.hand];
    InstallCoherent(r, v, q.hand, k, b, true);
    hide Coherent;
    assert Install(r, q.hand, k, b) == Install(q, q.hand, k, b);
  }

  /**
   allocPage returns a page that was not in use, pinned once and owed: the frame still holds what the
   replaced page left there. If no frame is free the page stays allocated without one.
   */
  lemma AllocCoherent(p: Pool, v: View, f: int)
    requires Coherent(p, v) && f in p.disk
    ensures var (st, q) := AllocPage(p, f);
            var k := NewPage(p, f);
            && f in v.free
            && (st == OK || st == BUFFEREXCEEDED)
            && k !in v.logical
            && (st == OK ==>
                k in q.table && 0 <= q.table[k] < |q.page| &&
                Coherent(q, Pinned(Allocating(p, v, f), k, q.table[k], q.page[q.table[k]], true)))
            && (st != OK ==> Coherent(q, Allocating(p, v, f)))
            && (st != OK <==> forall i :: 0 <= i < |p.desc| ==> !Unpinned(p.desc[i]))
  {
    AllocateCoherent(p, v, f);
    var p1, w, k := p.(disk := p.disk[f := AllocatePage(p.disk[f]).2]), Allocating(p, v, f), NewPage(p, f);
    assert k !in p1.table by {
      assert KeySeen(p, v, k);
    }
    AllocBufInvisible(p1, w);
    var (st, q) := AllocBuf(p1);
    hide Sees, AllocBuf, FrameOk, EntryOk, HeaderShape, AllocatePage, Allocating;
    if st == OK {
      VacantClaim(q, w, k);
    }
  }

  function Disposing(v: View, k: Key): View
    requires k.file in v.free
  {
    View(v.logical - {k}, v.pins[k := 0], v.owed[k := 0], v.free[k.file := [k.page] + v.free[k.file]], v.frames)
  }

  lemma DisposeKeepsInv(p: Pool, k: Key)
    requires Inv(p) && k.file in p.disk
    ensures Inv(DisposeBufPage(p, k).1)
  {
    var q := DisposeBufPage(p, k).1;
    if k in p.table {
      FrameFacts(p, k);
    }
    hide DisposePage, HeaderShape;
    forall j | 0 <= j < |q.desc| ensures FrameOk(q.desc[j], j, q) {
      assert FrameOk(p.desc[j], j, p);
    }
    forall c | c in q.table ensures EntryOk(q, c) {
      assert EntryOk(p, c);
    }
  }

  lemma DisposeFiles(p: Pool, v: View, k: Key)
    requires Coherent(p, v) && k in v.logical && k.page != 1
    ensures k.file in p.disk && k.file in v.free && DisposePage(p.disk[k.file], k.page).0 == OK
    ensures FilesSeen(p.disk[k.file := DisposePage(p.disk[k.file], k.page).1], Disposing(v, k))
    ensures forall n :: 1 <= n < |p.disk[k.file]| && n != k.page ==>
              DisposePage(p.disk[k.file], k.page).1[n] == p.disk[k.file][n]
  {
    DisposeKeepsList(p.disk[k.file], v.free[k.file], k.page);
    hide FreeList, DisposePage;
  }

  lemma DisposeKey(p: Pool, q: Pool, v: View, k: Key, c: Key)
    requires Inv(p) && Inv(q) && KeySeen(p, v, c) && KeySeen(p, v, k)
    requires k.file in p.disk && k.file in v.free && q == DisposeBufPage(p, k).1
    requires forall n :: 1 <= n < |p.disk[k.file]| && n != k.page ==>
               DisposePage(p.disk[k.file], k.page).1[n] == p.disk[k.file][n]
    ensures KeySeen(q, Disposing(v, k), c)
  {
    if k in p.table {
      FrameFacts(p, k);
    }
    if c in p.table {
      FrameFacts(p, c);
    }
    hide DisposePage, HeaderShape;
  }

  /** disposePage takes one page, and with it every pin on that page, out of use. */
  lemma DisposeCoherent(p: Pool, v: View, k: Key)
    requires Coherent(p, v) && k in v.logical && k.page != 1
    ensures k.file in p.disk && k.file in v.free
    ensures DisposeBufPage(p, k).0 == OK && Coherent(DisposeBufPage(p, k).1, Disposing(v, k))
  {
    DisposeFiles(p, v, k);
    DisposeKeepsInv(p, k);
    var q := DisposeBufPage(p, k).1;
    assert KeySeen(p, v, k);
    hide FilesSeen, KeySeen, DisposePage;
    forall c ensures KeySeen(q, Disposing(v, k), c) {
      assert KeySeen(p, v, c);
      DisposeKey(p, q, v, k, c);
    }
  }

  // ----- reading a page that does not exist

  /** The frame the next replacement takes holds a page. */
  predicate EvictsPage(p: Pool)
    requires Inv(p)
  {
    SweepSteps(p.desc, p.hand, 2 * |p.desc|);
    var s := Sweep(p.desc, p.hand, 2 * |p.desc|);
    s.ok && s.desc[s.hand].valid
  }

  /** The read fails after a frame has been chosen. */
  lemma FailedReadInvIff(p: Pool, v: View)
    requires Coherent(p, v) && AllocBuf(p).0 == OK
    ensures Inv(AllocBuf(p).1) <==> !EvictsPage(p)
  {
    SweepSteps(p.desc, p.hand, 2 * |p.desc|);
    var q := AllocBuf(p).1;
    hide Sees, Sweep;
    if EvictsPage(p) {
      assert !FrameOk(q.desc[q.hand], q.hand, q);
    } else {
      assert FrameOk(p.desc[q.hand], q.hand, p);
      RefBitsKeepInv(p, q.desc, q.hand);
    }
  }

  lemma GoodReadKeepsInv(p: Pool, v: View, k: Key)
    requires Coherent(p, v) && k !in p.table && OnDisk(p.disk, k)
    ensures Inv(ReadPage(p, k).1)
  {
    hide Sees, FrameOk, EntryOk, AllocBuf, HeaderShape;
    AllocBufInvisible(p, v);
    var (st, q) := AllocBuf(p);
    if st == OK {
      var r, b := Vacate(q, q.hand), q.disk[k.file][k.page];
      InstallKeepsInv(r, q.hand, k, b);
      assert Install(r, q.hand, k, b) == Install(q, q.hand, k, b);
    }
  }

  /**
   readPage takes the victim out of the index before it tries to read. When the read fails, the victim's
   frame stays valid without an index entry: the invariant survives exactly if the page is in a frame,
   is on disk, or no page had to be evicted.
   */
  lemma ReadKeepsInvIff(p: Pool, v: View, k: Key)
    requires Coherent(p, v)
    ensures Inv(ReadPage(p, k).1) <==> k in p.table || OnDisk(p.disk, k) || !EvictsPage(p)
  {
    if k in p.table {
      FrameFacts(p, k);
      DescKeepsInv(p, k, ReadPage(p, k).1.desc[p.table[k]]);
    } else if OnDisk(p.disk, k) {
      GoodReadKeepsInv(p, v, k);
    } else {
      AllocBufInvisible(p, v);
      hide Sees, Sweep, FrameOk, EntryOk;
      if AllocBuf(p).0 == OK {
        FailedReadInvIff(p, v);
      }
    }
  }

  // ----- creating files, and the pool at the start

  /** A file that has just been created is in no frame. */
  lemma CreateCoherent(p: Pool, v: View, f: int)
    requires Coherent(p, v) && f >= 1 && f !in v.free
    ensures Coherent(p.(disk := p.disk[f := CreatedFile()]), v.(free := v.free[f := []]))
    ensures forall k: Key :: k.file == f ==> k !in v.logical && v.pins[k] == 0
  {
    hide Inv, FreeList;
    CreateKeepsInv(p, v, f);
    var q, w := p.(disk := p.disk[f := CreatedFile()]), v.(free := v.free[f := []]);
    CreateFiles(p.disk, v, f);
    forall k ensures KeySeen(q, w, k) && (k.file == f ==> v.pins[k] == 0) {
      assert KeySeen(p, v, k);
    }
  }

  lemma CreateKeepsInv(p: Pool, v: View, f: int)
    requires Coherent(p, v) && f >= 1 && f !in v.free
    ensures Inv(p.(disk := p.disk[f := CreatedFile()]))
  {
    hide FreeList, Sees;
    var q := p.(disk := p.disk[f := CreatedFile()]);
    FileOnDisk(p, v, f);
    forall i | 0 <= i < |p.desc| ensures FrameOk(q.desc[i], i, q) {
      assert FrameOk(p.desc[i], i, p);
    }
    forall k | k in q.table ensures EntryOk(q, k) {
      assert EntryOk(p, k);
    }
  }

  lemma CreateFiles(disk: Disk, v: View, f: int)
    requires FilesSeen(disk, v) && f !in v.free
    ensures FilesSeen(disk[f := CreatedFile()], v.(free := v.free[f := []]))
    ensures forall k :: k in v.logical ==> k.file != f
  {
    assert FreeList(CreatedFile(), []);
    hide FreeList;
  }

  /** The view without file `f`. */
  function Removing(v: View, f: int): View {
    v.(logical := map k | k in v.logical && k.file != f :: v.logical[k], free := v.free - {f})
  }

  /** Removing a file of which no page is in a frame takes its pages from the clients and nothing else. */
  lemma DestroyCoherent(p: Pool, v: View, f: int)
    requires Coherent(p, v) && forall k :: k in p.table ==> k.file != f
    ensures Coherent(p.(disk := p.disk - {f}), Removing(v, f)) && forall k: Key :: k.file == f ==> v.pins[k] == 0
  {
    hide Inv, FreeList;
    DestroyKeepsInv(p, f);
    var q, w := p.(disk := p.disk - {f}), Removing(v, f);
    assert FilesSeen(q.disk, w);
    forall k ensures KeySeen(q, w, k) && (k.file == f ==> v.pins[k] == 0) {
      assert KeySeen(p, v, k);
    }
  }

  lemma DestroyKeepsInv(p: Pool, f: int)
    requires Inv(p) && forall k :: k in p.table ==> k.file != f
    ensures Inv(p.(disk := p.disk - {f}))
  {
    var q := p.(disk := p.disk - {f});
    forall i | 0 <= i < |p.desc| ensures FrameOk(q.desc[i], i, q) {
      assert FrameOk(p.desc[i], i, p);
    }
    forall k | k in q.table ensures EntryOk(q, k) {
      assert EntryOk(p, k);
    }
  }

  function PagesInUse(disk: Disk, free: map<int, seq<int>>): set<Key> {
    set f, n | f in disk && f in free && 1 <= n < |disk[f]| && n !in free[f] :: Key(f, n)
  }

  /** What is on disk, with nothing pinned. */
  function DiskView(disk: Disk, free: map<int, seq<int>>): View {
    View(map k | k in PagesInUse(disk, free) ::
         if OnDisk(disk, k) then disk[k.file][k.page] else Zeroed, multiset{}, multiset{}, free, map[])
  }

  /** An empty pool over files whose free lists are in order. */
  ghost predicate Initial(p: Pool, v: View) {
    && Inv(p) && p.table == map[]
    && v == DiskView(p.disk, v.free) && v.free.Keys == p.disk.Keys
    && forall f :: f in p.disk ==> FreeList(p.disk[f], v.free[f])
  }

  lemma InitialFiles(disk: Disk, v: View)
    requires v == DiskView(disk, v.free) && v.free.Keys == disk.Keys &&
             forall f :: f in disk ==> FreeList(disk[f], v.free[f])
    ensures FilesSeen(disk, v)
  {
    hide FreeList;
    forall k: Key ensures k in v.logical <==> k.file in disk && Allocated(disk[k.file], v.free[k.file], k.page) {
    }
  }

  /** The pool a program starts with shows the disk. */
  lemma InitialCoherent(p: Pool, v: View)
    requires Initial(p, v)
    ensures Coherent(p, v)
  {
    hide FreeList, Inv;
    InitialFiles(p.disk, v);
    forall k ensures KeySeen(p, v, k) {
    }
  }

  // ----- every run of calls

  datatype Call =
    | CreateCall(file: int)
    | ReadCall(key: Key)
    | UnpinCall(key: Key, dirty: bool, settles: bool)
    | FlushCall(file: int)
    | AllocCall(file: int)
    | DisposeCall(key: Key)
    | WriteCall(key: Key, block: Block, first: bool)

  /** Clients read and dispose of pages in use, write through a pin, and unpin dirty what they wrote. */
  predicate Allowed(v: View, c: Call) {
    match c
    case CreateCall(f) => f >= 1 && f !in v.free
    case ReadCall(k) => k in v.logical
    case UnpinCall(k, dirty, settles) => v.pins[k] > 0 ==> if settles then dirty else v.owed[k] < v.pins[k]
    case FlushCall(f) => f != NULLFILE
    case AllocCall(f) => f in v.free
    case DisposeCall(k) => k in v.logical && k.page != 1
    case WriteCall(k, _, first) => v.pins[k] > 0 && if first then v.owed[k] < v.pins[k] else v.owed[k] > 0
  }

  ghost function Exec(p: Pool, c: Call): (Status, Pool) {
    if !Inv(p) then (OK, p) else
    match c
    case CreateCall(f) => (OK, if f >= 1 && f !in p.disk then p.(disk := p.disk[f := CreatedFile()]) else p)
    case ReadCall(k) => ReadPage(p, k)
    case UnpinCall(k, dirty, _) => UnPinPage(p, k, dirty)
    case FlushCall(f) => FlushFile(p, f)
    case AllocCall(f) => if f in p.disk then AllocPage(p, f) else (OK, p)
    case DisposeCall(k) => if k.file in p.disk then DisposeBufPage(p, k) else (OK, p)
    case WriteCall(k, b, _) => if k in p.table then (OK, ClientWrite(p, k, b)) else (OK, p)
  }

  /** The view changes as plain storage with pin counts would; only an allocation needs the pool, for its page. */
  ghost function NextView(p: Pool, v: View, c: Call): View {
    var (st, q) := Exec(p, c);
    match c
    case CreateCall(f) => v.(free := v.free[f := []])
    case ReadCall(k) => if st == OK && k in q.table then Pinning(v, k, q.table[k]) else v
    case UnpinCall(k, _, settles) => if v.pins[k] > 0 then Unpinning(v, k, settles) else v
    case FlushCall(_) => v
    case AllocCall(f) =>
      if !Inv(p) || f !in p.disk || f !in v.free then v
      else
        var k := NewPage(p, f);
        if st == OK && k in q.table && 0 <= q.table[k] < |q.page|
        then Pinned(Allocating(p, v, f), k, q.table[k], q.page[q.table[k]], true)
        else Allocating(p, v, f)
    case DisposeCall(k) => if k.file in v.free then Disposing(v, k) else v
    case WriteCall(k, b, first) => Writing(v, k, b, first)
  }

  /** The statuses a disciplined client can see. */
  predicate Expected(c: Call, st: Status) {
    match c
    case CreateCall(_) => st == OK
    case ReadCall(_) => st in {OK, BUFFEREXCEEDED}
    case UnpinCall(_, _, _) => st in {OK, PAGENOTPINNED, HASHNOTFOUND}
    case FlushCall(_) => st in {OK, PAGEPINNED}
    case AllocCall(_) => st in {OK, BUFFEREXCEEDED}
    case DisposeCall(_) => st == OK
    case WriteCall(_, _, _) => st == OK
  }

  lemma ExecCoherent(p: Pool, v: View, c: Call)
    requires Coherent(p, v) && Allowed(v, c)
    ensures Coherent(Exec(p, c).1, NextView(p, v, c)) && Expected(c, Exec(p, c).0)
  {
    hide Sees, Sweep;
    match c
    case CreateCall(f) =>
      FileOnDisk(p, v, f);
      CreateCoherent(p, v, f);
    case ReadCall(k) => ReadCoherent(p, v, k);
    case UnpinCall(k, dirty, settles) => UnpinCoherent(p, v, k, dirty, settles);
    case FlushCall(f) => FlushMakesDurable(p, v, f);
    case AllocCall(f) =>
      FileOnDisk(p, v, f);
      AllocCoherent(p, v, f);
    case DisposeCall(k) => DisposeCoherent(p, v, k);
    case WriteCall(k, b, first) => ClientWriteCoherent(p, v, k, b, first);
  }

  lemma FileOnDisk(p: Pool, v: View, f: int)
    requires Coherent(p, v)
    ensures f in p.disk <==> f in v.free
  {
  }

  /** A page that is not disposed of keeps its contents unless the call is a write to it. */
  lemma LogicalStep(p: Pool, v: View, c: Call, k: Key)
    requires Coherent(p, v) && Allowed(v, c) && k in v.logical && c != DisposeCall(k)
    ensures var w := NextView(p, v, c);
            k in w.logical && w.logical[k] == if c.WriteCall? && c.key == k then c.block else v.logical[k]
  {
    hide Coherent, ReadPage, UnPinPage, FlushFile, AllocPage, DisposeBufPage, AllocatePage;
    if c.AllocCall? {
      AllocLogical(p, v, c.file, k);
    }
  }

  lemma AllocLogical(p: Pool, v: View, f: int, k: Key)
    requires Coherent(p, v) && f in v.free && k in v.logical
    ensures var w := NextView(p, v, AllocCall(f)); k in w.logical && w.logical[k] == v.logical[k]
  {
    hide Sees, AllocPage;
    FileOnDisk(p, v, f);
    AllocCoherent(p, v, f);
  }

  function LastWrite(cs: seq<Call>, k: Key, b: Block): Block {
    if cs == [] then b
    else
      var c := cs[|cs| - 1];
      if c.WriteCall? && c.key == k then c.block else LastWrite(cs[..|cs| - 1], k, b)
  }

  /** A run of calls by disciplined clients from an empty pool, with the pool and the view after each. */
  ghost predicate IsRun(ps: seq<Pool>, vs: seq<View>, cs: seq<Call>) {
    && |ps| == |vs| == |cs| + 1
    && Initial(ps[0], vs[0])
    && (forall i :: 0 <= i < |cs| ==>
          Allowed(vs[i], cs[i]) && ps[i + 1] == Exec(ps[i], cs[i]).1 && vs[i + 1] == NextView(ps[i], vs[i], cs[i]))
  }

  /** In every reachable state the index and the frames agree and the pool shows the view. */
  lemma {:induction false} RunCoherent(ps: seq<Pool>, vs: seq<View>, cs: seq<Call>, i: nat)
    requires IsRun(ps, vs, cs) && i < |ps|
    ensures Coherent(ps[i], vs[i])
    ensures i < |cs| ==> Expected(cs[i], Exec(ps[i], cs[i]).0)
  {
    if i == 0 {
      InitialCoherent(ps[0], vs[0]);
    } else {
      RunCoherent(ps, vs, cs, i - 1);
      ExecCoherent(ps[i - 1], vs[i - 1], cs[i - 1]);
    }
    if i < |cs| {
      ExecCoherent(ps[i], vs[i], cs[i]);
    }
  }

  /**
   The pool refines plain storage: from any state of a run to any later one, a page that is not disposed of
   holds what was last written to it, whatever was looked up, evicted, written back or flushed in between.
   */
  lemma {:induction false} RunRefinesStorage(ps: seq<Pool>, vs: seq<View>, cs: seq<Call>, lo: nat, hi: nat, k: Key)
    requires IsRun(ps, vs, cs) && lo <= hi < |ps|
    requires k in vs[lo].logical && DisposeCall(k) !in cs[lo..hi]
    ensures Inv(ps[lo]) && Inv(ps[hi]) && OnDisk(ps[lo].disk, k) && OnDisk(ps[hi].disk, k)
    ensures Contents(ps[hi], k) == LastWrite(cs[lo..hi], k, Contents(ps[lo], k))
  {
    RunCoherent(ps, vs, cs, hi);
    RunCoherent(ps, vs, cs, lo);
    LogicalRun(ps, vs, cs, lo, hi, k);
    assert KeySeen(ps[hi], vs[hi], k) && KeySeen(ps[lo], vs[lo], k);
  }

  lemma {:induction false} LogicalRun(ps: seq<Pool>, vs: seq<View>, cs: seq<Call>, lo: nat, hi: nat, k: Key)
    requires IsRun(ps, vs, cs) && lo <= hi < |ps|
    requires k in vs[lo].logical && DisposeCall(k) !in cs[lo..hi]
    ensures k in vs[hi].logical && vs[hi].logical[k] == LastWrite(cs[lo..hi], k, vs[lo].logical[k])
  {
    hide Exec, NextView, Coherent, Allowed, Initial;
    if lo < hi {
      assert cs[lo..hi][..hi - 1 - lo] == cs[lo..hi - 1] && cs[lo..hi][hi - 1 - lo] == cs[hi - 1];
      LogicalRun(ps, vs, cs, lo, hi - 1, k);
      RunCoherent(ps, vs, cs, hi - 1);
      LogicalStep(ps[hi - 1], vs[hi - 1], cs[hi - 1], k);
    }
  }

  // ----- pinned pages do not move

  ghost predicate PinnedAt(p: Pool, k: Key, i: int) {
    k in p.table && p.table[k] == i && 0 <= i < |p.desc| && p.desc[i].pinCnt > 0 && p.desc[i].Owner() == k
  }

  lemma AllocBufKeepsPinned(p: Pool, k: Key, i: int)
    requires Inv(p) && PinnedAt(p, k, i)
    ensures k in AllocBuf(p).1.table && AllocBuf(p).1.table[k] == i
  {
    ClockSweepComplete(p.desc, p.hand);
    SweepSteps(p.desc, p.hand, 2 * |p.desc|);
    var s := Sweep(p.desc, p.hand, 2 * |p.desc|);
    hide Sweep;
    if s.ok && s.desc[s.hand].valid {
      assert s.desc[s.hand] == p.desc[s.hand].(refbit := s.desc[s.hand].refbit);
      assert FrameOk(p.desc[s.hand], s.hand, p);
    }
  }

  lemma DropKeepsPinned(p: Pool, j: nat, k: Key, i: int)
    requires Inv(p) && PinnedAt(p, k, i) && j < |p.desc| && p.desc[j].valid && p.desc[j].pinCnt <= 0
    ensures OnDisk(p.disk, p.desc[j].Owner()) && Inv(DropFrame(p, j)) && PinnedAt(DropFrame(p, j), k, i) &&
            |DropFrame(p, j).desc| == |p.desc|
  {
    assert FrameOk(p.desc[j], j, p);
    DropKeepsInv(p, j);
  }

  lemma {:induction false} FlushKeepsPinned(p: Pool, f: int, j: nat, k: Key, i: int)
    requires Inv(p) && PinnedAt(p, k, i) && j <= |p.desc|
    ensures PinnedAt(FlushFrom(p, f, j).1, k, i)
    decreases |p.desc| - j
  {
    hide Inv, DropFrame, PinnedAt;
    if j < |p.desc| {
      if p.desc[j].valid && p.desc[j].file == f {
        if p.desc[j].pinCnt <= 0 {
          DropKeepsPinned(p, j, k, i);
          FlushKeepsPinned(DropFrame(p, j), f, j + 1, k, i);
        }
      } else {
        FlushKeepsPinned(p, f, j + 1, k, i);
      }
    }
  }

  lemma ReadKeepsPinned(p: Pool, j: Key, k: Key, i: int)
    requires Inv(p) && PinnedAt(p, k, i)
    ensures k in ReadPage(p, j).1.table && ReadPage(p, j).1.table[k] == i
  {
    AllocBufKeepsPinned(p, k, i);
    hide AllocBuf, FrameOk, HeaderShape;
  }

  lemma AllocKeepsPinned(p: Pool, f: int, k: Key, i: int)
    requires Inv(p) && f in p.disk && PinnedAt(p, k, i)
    ensures k in AllocPage(p, f).1.table && AllocPage(p, f).1.table[k] == i
  {
    AllocateKeepsInv(p, f);
    AllocBufKeepsPinned(p.(disk := p.disk[f := AllocatePage(p.disk[f]).2]), k, i);
    hide AllocBuf, AllocatePage, FrameOk, EntryOk, HeaderShape;
  }

  /** A page stays in its frame while it is pinned, so a pointer into the frame remains good. */
  lemma PinnedStays(p: Pool, v: View, c: Call, k: Key)
    requires Coherent(p, v) && Allowed(v, c) && v.pins[k] > 0 && c != DisposeCall(k)
    ensures k in p.table && k in Exec(p, c).1.table && Exec(p, c).1.table[k] == p.table[k]
  {
    assert KeySeen(p, v, k);
    FrameFacts(p, k);
    var i := p.table[k];
    FileOnDisk(p, v, if c.AllocCall? then c.file else 0);
    hide Coherent, ReadPage, AllocPage, FlushFrom, FrameOk, EntryOk;
    match c
    case ReadCall(j) => ReadKeepsPinned(p, j, k, i);
    case FlushCall(f) => FlushKeepsPinned(p, f, 0, k, i);
    case AllocCall(f) => AllocKeepsPinned(p, f, k, i);
    case _ =>
  }

  /** In every run, while page `k` stays pinned its frame does not change. */
  lemma {:induction false} PinnedRun(ps: seq<Pool>, vs: seq<View>, cs: seq<Call>, lo: nat, hi: nat, k: Key)
    requires IsRun(ps, vs, cs) && lo <= hi < |ps| && DisposeCall(k) !in cs[lo..hi]
    requires forall j :: lo <= j <= hi ==> vs[j].pins[k] > 0
    ensures k in ps[lo].table && k in ps[hi].table && ps[hi].table[k] == ps[lo].table[k]
  {
    hide Exec, NextView, Coherent, Allowed, Initial;
    RunCoherent(ps, vs, cs, hi);
    if lo < hi {
      assert cs[lo..hi][hi - 1 - lo] == cs[hi - 1];
      PinnedRun(ps, vs, cs, lo, hi - 1, k);
      RunCoherent(ps, vs, cs, hi - 1);
      PinnedStays(ps[hi - 1], vs[hi - 1], cs[hi - 1], k);
    } else {
      PinnedIndexed(ps[lo], vs[lo], k);
    }
  }

  lemma PinnedIndexed(p: Pool, v: View, k: Key)
    requires Coherent(p, v) && v.pins[k] > 0
    ensures k in p.table
  {
    assert KeySeen(p, v, k);
  }
}
