/**
 The buffer pool refines plain storage. A `View` is what clients of the pool rely on: the
 contents of every allocated page, who has pinned what, and in which frame a pinned page is.
 Eviction, write-back, lookup and flushing do not show in it.
 */
module BufRefine {
  import opened Common
  import opened DiskSpec
  import opened BufHash
  import opened BufSpec

  // ----- the clock sweep finds a frame exactly when there is one

  predicate Unpinned(d: Desc) {
    !d.valid || d.pinCnt == 0
  }

  /** Steps of the clock from `hand` until it points at `i`. */
  function Distance(n: int, hand: int, i: int): int {
    if i > hand then i - hand else i - hand + n
  }

  lemma Advance(n: int, hand: int)
    requires 0 <= hand < n
    ensures (hand + 1) % n == if hand + 1 == n then 0 else hand + 1
  {
  }

  /** How many steps are enough to stop at the unpinned frame `i`: a second round if its reference bit is set. */
  function StepsNeeded(d: Desc, n: int, hand: int, i: int): int {
    Distance(n, hand, i) + (if !d.valid then 1 else if d.refbit then n else 0)
  }

  lemma {:induction false} SweepFinds(desc: seq<Desc>, hand: int, left: nat, i: int)
    requires |desc| >= 1 && 0 <= hand < |desc| && 0 <= i < |desc|
    requires Unpinned(desc[i]) && left >= StepsNeeded(desc[i], |desc|, hand, i)
    ensures Sweep(desc, hand, left).ok
    decreases left
  {
    var n := |desc|;
    Advance(n, hand);
    var h := (hand + 1) % n;
    if !Replaceable(desc[h]) {
      SweepFinds(desc[h := desc[h].(refbit := false)], h, left - 1, i);
    }
  }

  /**
   allocBuf succeeds within 2 * numBufs steps if and only if some frame is invalid or unpinned,
   and the frame it selects is never pinned.
   */
  lemma ClockSweepComplete(desc: seq<Desc>, hand: int)
    requires |desc| >= 1 && 0 <= hand < |desc|
    ensures var s := Sweep(desc, hand, 2 * |desc|);
            && (s.ok <==> exists i :: 0 <= i < |desc| && Unpinned(desc[i]))
            && (s.ok ==> 0 <= s.hand < |desc| && Unpinned(desc[s.hand]))
  {
    var n := |desc|;
    SweepSteps(desc, hand, 2 * n);
    var s := Sweep(desc, hand, 2 * n);
    if i :| 0 <= i < n && Unpinned(desc[i]) {
      SweepFinds(desc, hand, 2 * n, i);
    }
    if s.ok {
      assert s.desc[s.hand] == desc[s.hand].(refbit := s.desc[s.hand].refbit);
    }
  }

  // ----- what clients see

  /**
   `logical` holds the contents of the allocated pages; `pins` the pins clients hold; `owed` those
   pins whose holder has written the page and so has to unpin it dirty; `free` the free lists.
   */
  datatype View = View(logical: map<Key, Block>, pins: multiset<Key>, owed: multiset<Key>, free: map<int, seq<int>>,
                       frames: map<Key, int>)

  /** The frame of a page that is pinned. */
  function FrameOf(v: View, k: Key): int {
    if k in v.frames then v.frames[k] else -1
  }

  function Contents(p: Pool, k: Key): Block
    requires Inv(p) && OnDisk(p.disk, k)
  {
    if k in p.table then p.page[p.table[k]] else p.disk[k.file][k.page]
  }

  function PinCount(p: Pool, k: Key): int
    requires Inv(p)
  {
    if k in p.table then p.desc[p.table[k]].pinCnt else 0
  }

  ghost predicate FilesSeen(disk: Disk, v: View) {
    && v.free.Keys == disk.Keys
    && (forall f :: f in disk ==> FreeList(disk[f], v.free[f]))
    && (forall k :: k in v.logical <==> k.file in disk && Allocated(disk[k.file], v.free[k.file], k.page))
  }

  /**
   What holds of one page: only pages in use are in a frame; the view shows the frame if there is
   one and else the disk; a frame that is clean and not owed agrees with the disk.
   */
  ghost predicate KeySeen(p: Pool, v: View, k: Key)
    requires Inv(p)
  {
    && (k in p.table ==> k in v.logical)
    && (k in v.logical ==> OnDisk(p.disk, k) && v.logical[k] == Contents(p, k))
    && v.pins[k] == PinCount(p, k)
    && v.owed[k] <= v.pins[k]
    && (v.pins[k] > 0 ==> k in p.table && k in v.frames && v.frames[k] == p.table[k])
    && (k in p.table && !p.desc[p.table[k]].dirty && v.owed[k] == 0 ==> p.page[p.table[k]] == p.disk[k.file][k.page])
  }

  /** The pool shows the view `v` to its clients; in particular no frame holds a free page. */
  ghost predicate Sees(p: Pool, v: View)
    requires Inv(p)
  {
    FilesSeen(p.disk, v) && forall k :: KeySeen(p, v, k)
  }

  ghost predicate Coherent(p: Pool, v: View) {
    Inv(p) && Sees(p, v)
  }

  // ----- eviction

  /** The pool with frame `i` marked invalid. */
  function Vacate(p: Pool, i: int): Pool
    requires 0 <= i < |p.desc|
  {
    p.(desc := p.desc[i := p.desc[i].Clear()])
  }

  lemma FrameFacts(p: Pool, k: Key)
    requires Inv(p) && k in p.table
    ensures EntryOk(p, k) && FrameOk(p.desc[p.table[k]], p.table[k], p)
  {
    assert EntryOk(p, k);
  }

  lemma RefBitsKeepInv(p: Pool, desc': seq<Desc>, hand': int)
    requires Inv(p) && SameButRef(p.desc, desc') && 0 <= hand' < |p.desc|
    ensures Inv(p.(desc := desc', hand := hand'))
  {
    var q := p.(desc := desc', hand := hand');
    forall j | 0 <= j < |q.desc| ensures FrameOk(q.desc[j], j, q) {
      assert FrameOk(p.desc[j], j, p);
    }
    forall c | c in q.table ensures EntryOk(q, c) {
      assert EntryOk(p, c);
    }
  }

  lemma RefBitsInvisible(p: Pool, v: View, desc': seq<Desc>, hand': int)
    requires Coherent(p, v) && SameButRef(p.desc, desc') && 0 <= hand' < |p.desc|
    ensures Coherent(p.(desc := desc', hand := hand'), v)
  {
    var q := p.(desc := desc', hand := hand');
    RefBitsKeepInv(p, desc', hand');
    hide FilesSeen;
    forall k ensures KeySeen(q, v, k) {
      assert KeySeen(p, v, k);
      if k in p.table {
        FrameFacts(p, k);
      }
    }
  }

  lemma WriteKeepsFiles(disk: Disk, v: View, k: Key, b: Block)
    requires FilesSeen(disk, v) && k in v.logical
    ensures FilesSeen(WritePage(disk, k, b), v)
  {
    WriteKeepsList(disk[k.file], v.free[k.file], k.page, b);
    hide FreeList;
  }

  lemma WriteKeepsInv(p: Pool, k: Key, b: Block)
    requires Inv(p) && OnDisk(p.disk, k)
    ensures Inv(p.(disk := WritePage(p.disk, k, b)))
  {
    var q := p.(disk := WritePage(p.disk, k, b));
    forall j | 0 <= j < |q.desc| ensures FrameOk(q.desc[j], j, q) {
      assert FrameOk(p.desc[j], j, p);
    }
    forall c | c in q.table ensures EntryOk(q, c) {
      assert EntryOk(p, c);
    }
  }

  lemma WriteBackKey(p: Pool, q: Pool, v: View, k: Key, c: Key)
    requires Inv(p) && Inv(q) && KeySeen(p, v, k) && KeySeen(p, v, c) && k in p.table && OnDisk(p.disk, k) &&
             0 <= p.table[k] < |p.page|
    requires q == p.(disk := WritePage(p.disk, k, p.page[p.table[k]]))
    ensures KeySeen(q, v, c)
  {
    if c in p.table {
      FrameFacts(p, c);
    }
  }

  lemma WriteBackInvisible(p: Pool, v: View, k: Key)
    requires Coherent(p, v) && k in p.table && OnDisk(p.disk, k) && 0 <= p.table[k] < |p.page|
    ensures Coherent(p.(disk := WritePage(p.disk, k, p.page[p.table[k]])), v)
  {
    var q := p.(disk := WritePage(p.disk, k, p.page[p.table[k]]));
    assert KeySeen(p, v, k);
    WriteKeepsFiles(p.disk, v, k, p.page[p.table[k]]);
    WriteKeepsInv(p, k, p.page[p.table[k]]);
    hide FilesSeen, KeySeen;
    forall c ensures KeySeen(q, v, c) {
      WriteBackKey(p, q, v, k, c);
    }
  }

  lemma DropKeepsInvariant(p: Pool, k: Key, d: Desc)
    requires Inv(p) && k in p.table && EntryOk(p, k)
    requires !d.valid && d.file == NULLFILE && !d.dirty && d.pinCnt == 0
    ensures Inv(p.(desc := p.desc[p.table[k] := d], table := p.table - {k}))
  {
    var i := p.table[k];
    var q := p.(desc := p.desc[i := d], table := p.table - {k});
    forall j | 0 <= j < |q.desc| ensures FrameOk(q.desc[j], j, q) {
      assert FrameOk(p.desc[j], j, p);
    }
    forall c | c in q.table ensures EntryOk(q, c) {
      assert EntryOk(p, c);
    }
  }

  lemma DropInvisible(p: Pool, v: View, k: Key, d: Desc)
    requires Coherent(p, v) && k in p.table && EntryOk(p, k) && OnDisk(p.disk, k) && v.pins[k] == 0
    requires p.page[p.table[k]] == p.disk[k.file][k.page]
    requires !d.valid && d.file == NULLFILE && !d.dirty && d.pinCnt == 0
    ensures Coherent(p.(desc := p.desc[p.table[k] := d], table := p.table - {k}), v)
  {
    var i := p.table[k];
    var q := p.(desc := p.desc[i := d], table := p.table - {k});
    DropKeepsInvariant(p, k, d);
    hide FilesSeen;
    forall c ensures KeySeen(q, v, c) {
      assert KeySeen(p, v, c);
      if c in p.table {
        FrameFacts(p, c);
      }
    }
  }

  lemma InvalidInvisible(p: Pool, v: View, i: int, d: Desc)
    requires Coherent(p, v) && 0 <= i < |p.desc| && !p.desc[i].valid
    requires !d.valid && d.file == NULLFILE && !d.dirty && d.pinCnt == 0
    ensures Coherent(p.(desc := p.desc[i := d]), v)
  {
    var q := p.(desc := p.desc[i := d]);
    assert Inv(q) by {
      forall j | 0 <= j < |q.desc| ensures FrameOk(q.desc[j], j, q) {
        assert FrameOk(p.desc[j], j, p);
      }
      forall c | c in q.table ensures EntryOk(q, c) {
        assert EntryOk(p, c);
      }
    }
    hide FilesSeen;
    forall k ensures KeySeen(q, v, k) {
      assert KeySeen(p, v, k);
      if k in p.table {
        FrameFacts(p, k);
      }
    }
  }

  /** Replacing an unpinned page: written back if dirty, then dropped; clients cannot tell. */
  lemma EvictInvisible(p: Pool, v: View, i: int)
    requires Coherent(p, v) && 0 <= i < |p.desc| && Unpinned(p.desc[i])
    ensures var d := p.desc[i];
            && (d.dirty ==> d.valid)
            && (d.valid ==> OnDisk(p.disk, d.Owner()))
            && Coherent(p.(desc := p.desc[i := d.Clear()],
                           table := if d.valid then p.table - {d.Owner()} else p.table,
                           disk := if d.dirty then WritePage(p.disk, d.Owner(), p.page[i]) else p.disk), v)
  {
    var d := p.desc[i];
    assert FrameOk(d, i, p);
    if !d.valid {
      InvalidInvisible(p, v, i, d.Clear());
    } else {
      var k := d.Owner();
      FrameFacts(p, k);
      assert KeySeen(p, v, k);
      if d.dirty {
        var p1 := p.(disk := WritePage(p.disk, k, p.page[i]));
        WriteBackInvisible(p, v, k);
        DropInvisible(p1, v, k, d.Clear());
      } else {
        DropInvisible(p, v, k, d.Clear());
      }
    }
  }

  /** After allocBuf the selected frame is vacant and nothing a client can see has changed. */
  lemma AllocBufInvisible(p: Pool, v: View)
    requires Coherent(p, v)
    ensures var (st, q) := AllocBuf(p);
            && (st == OK || st == BUFFEREXCEEDED)
            && (st == OK <==> exists i :: 0 <= i < |p.desc| && Unpinned(p.desc[i]))
            && (st == OK ==> Coherent(Vacate(q, q.hand), v) && q.table.Keys <= p.table.Keys)
            && (st != OK ==> Coherent(q, v))
  {
    ClockSweepComplete(p.desc, p.hand);
    SweepSteps(p.desc, p.hand, 2 * |p.desc|);
    var s := Sweep(p.desc, p.hand, 2 * |p.desc|);
    var p0 := p.(desc := s.desc, hand := s.hand);
    RefBitsInvisible(p, v, s.desc, s.hand);
    if s.ok {
      hide Coherent, Sweep;
      EvictInvisible(p0, v, s.hand);
    }
  }

  // ----- pinning

  /** The view after `k` has been pinned in frame `i` with contents `b`; `owes` if the holder must unpin it dirty. */
  function Pinned(v: View, k: Key, i: int, b: Block, owes: bool): View {
    v.(logical := v.logical[k := b], pins := v.pins + multiset{k},
       owed := if owes then v.owed + multiset{k} else v.owed, frames := v.frames[k := i])
  }

  /** The view after `k` has been pinned in frame `i`. */
  function Pinning(v: View, k: Key, i: int): View {
    v.(pins := v.pins + multiset{k}, frames := v.frames[k := i])
  }

  lemma InstallKeepsInv(p: Pool, i: int, k: Key, b: Block)
    requires Inv(p) && 0 <= i < |p.desc| && !p.desc[i].valid
    requires k !in p.table && OnDisk(p.disk, k)
    ensures Inv(Install(p, i, k, b))
  {
    var q := Install(p, i, k, b);
    forall j | 0 <= j < |q.desc| ensures FrameOk(q.desc[j], j, q) {
      assert FrameOk(p.desc[j], j, p);
    }
    forall c | c in q.table ensures EntryOk(q, c) {
      if c != k {
        assert EntryOk(p, c);
      }
    }
  }

  lemma InstallKey(p: Pool, q: Pool, v: View, i: int, k: Key, b: Block, owes: bool, c: Key)
    requires Inv(p) && Inv(q) && KeySeen(p, v, k) && KeySeen(p, v, c)
    requires 0 <= i < |p.desc| && !p.desc[i].valid && q == Install(p, i, k, b)
    requires k !in p.table && k in v.logical && (!owes ==> b == v.logical[k])
    ensures KeySeen(q, Pinned(v, k, i, b, owes), c)
  {
    if c in p.table {
      FrameFacts(p, c);
    }
  }

  lemma InstallCoherent(p: Pool, v: View, i: int, k: Key, b: Block, owes: bool)
    requires Coherent(p, v) && 0 <= i < |p.desc| && !p.desc[i].valid
    requires k !in p.table && k in v.logical && (!owes ==> b == v.logical[k])
    ensures Coherent(Install(p, i, k, b), Pinned(v, k, i, b, owes))
  {
    hide FreeList, FrameOk, EntryOk;
    var q, w := Install(p, i, k, b), Pinned(v, k, i, b, owes);
    assert KeySeen(p, v, k);
    InstallKeepsInv(p, i, k, b);
    assert FilesSeen(q.disk, w);
    forall c ensures KeySeen(q, w, c) {
      assert KeySeen(p, v, c);
      InstallKey(p, q, v, i, k, b, owes, c);
    }
  }

  lemma PinResident(p: Pool, v: View, k: Key, d: Desc)
    requires Coherent(p, v) && k in p.table && EntryOk(p, k)
    requires d == p.desc[p.table[k]].(refbit := true, pinCnt := p.desc[p.table[k]].pinCnt + 1)
    ensures Coherent(p.(desc := p.desc[p.table[k] := d]), Pinning(v, k, p.table[k]))
  {
    var i := p.table[k];
    var q, w := p.(desc := p.desc[i := d]), Pinning(v, k, i);
    DescKeepsInv(p, k, d);
    assert FilesSeen(q.disk, w) by {
      hide FreeList;
    }
    hide FilesSeen;
    forall c ensures KeySeen(q, w, c) {
      assert KeySeen(p, v, c);
      if c in p.table {
        FrameFacts(p, c);
      }
    }
  }

  /** Changing pin count, dirty bit or reference bit of a valid frame. */
  lemma DescKeepsInv(p: Pool, k: Key, d: Desc)
    requires Inv(p) && k in p.table && EntryOk(p, k)
    requires d.valid && d.Owner() == k && d.pinCnt >= 0
    ensures Inv(p.(desc := p.desc[p.table[k] := d]))
  {
    var i := p.table[k];
    var q := p.(desc := p.desc[i := d]);
    forall j | 0 <= j < |q.desc| ensures FrameOk(q.desc[j], j, q) {
      assert FrameOk(p.desc[j], j, p) && FrameOk(p.desc[i], i, p);
    }
    forall c | c in q.table ensures EntryOk(q, c) {
      assert EntryOk(p, c);
    }
  }

  /** A page in no frame is what the disk has. */
  lemma ShownOnDisk(p: Pool, v: View, k: Key)
    requires Coherent(p, v) && k in v.logical && k !in p.table && OnDisk(p.disk, k)
    ensures v.logical[k] == p.disk[k.file][k.page]
  {
    assert KeySeen(p, v, k);
  }

  lemma VacantInstall(q: Pool, v: View, k: Key)
    requires |q.desc| == |q.page| && 0 <= q.hand < |q.desc| && Coherent(Vacate(q, q.hand), v)
    requires k in v.logical && k !in q.table && OnDisk(q.disk, k)
    ensures Coherent(Install(q, q.hand, k, q.disk[k.file][k.page]), Pinning(v, k, q.hand))
  {
    hide Coherent;
    var r, b := Vacate(q, q.hand), q.disk[k.file][k.page];
    ShownOnDisk(r, v, k);
    InstallCoherent(r, v, q.hand, k, b, false);
    assert Install(r, q.hand, k, b) == Install(q, q.hand, k, b);
    assert v.logical[k := b] == v.logical;
    assert Pinned(v, k, q.hand, b, false) == Pinning(v, k, q.hand);
  }

  lemma UsedIsOnDisk(p: Pool, v: View, k: Key)
    requires Coherent(p, v) && k in v.logical
    ensures OnDisk(p.disk, k)
  {
    assert KeySeen(p, v, k);
  }

  /** readPage of a page in use pins it, or fails because every frame is pinned; contents never change. */
  lemma ReadCoherent(p: Pool, v: View, k: Key)
    requires Coherent(p, v) && k in v.logical
    ensures var (st, q) := ReadPage(p, k);
            && (st == OK || st == BUFFEREXCEEDED)
            && (st == OK ==> k in q.table && Coherent(q, Pinning(v, k, q.table[k])))
            && (st != OK ==> Coherent(q, v) && forall i :: 0 <= i < |p.desc| ==> !Unpinned(p.desc[i]))
            && (st != OK <==> k !in p.table && forall i :: 0 <= i < |p.desc| ==> !Unpinned(p.desc[i]))
  {
    UsedIsOnDisk(p, v, k);
    if k in p.table {
      FrameFacts(p, k);
      var i := p.table[k];
      PinResident(p, v, k, p.desc[i].(refbit := true, pinCnt := p.desc[i].pinCnt + 1));
    } else {
      AllocBufInvisible(p, v);
      var (st, q) := AllocBuf(p);
      hide Sees, AllocBuf, FrameOk, EntryOk, HeaderShape;
      if st == OK {
        VacantInstall(q, v, k);
      }
    }
  }

  // ----- what is on disk

  /** The disk has the contents that clients see. */
  ghost predicate Saved(d: Disk, l: map<Key, Block>, k: Key) {
    k in l && OnDisk(d, k) && d[k.file][k.page] == l[k]
  }

  ghost predicate KeepsSaved(d: Disk, d': Disk, l: map<Key, Block>) {
    forall k :: Saved(d, l, k) ==> Saved(d', l, k)
  }

  lemma SavedNow(d: Disk, l: map<Key, Block>)
    ensures KeepsSaved(d, d, l)
  {
  }

  lemma SavedTwice(d: Disk, d1: Disk, d2: Disk, l: map<Key, Block>)
    requires KeepsSaved(d, d1, l) && KeepsSaved(d1, d2, l)
    ensures KeepsSaved(d, d2, l)
  {
  }

  /** Reading a page may write another one back, but then with its contents. */
  lemma ReadSaves(p: Pool, v: View, k: Key)
    requires Coherent(p, v) && k in v.logical
    ensures KeepsSaved(p.disk, ReadPage(p, k).1.disk, v.logical)
  {
    hide Sees, Sweep;
    UsedIsOnDisk(p, v, k);
    if k !in p.table {
      ClockSweepComplete(p.desc, p.hand);
      SweepSteps(p.desc, p.hand, 2 * |p.desc|);
      var s := Sweep(p.desc, p.hand, 2 * |p.desc|);
      var d := s.desc[s.hand];
      RefBitsInvisible(p, v, s.desc, s.hand);
      if s.ok && d.dirty {
        VictimContents(p.(desc := s.desc, hand := s.hand), v, s.hand);
      }
    }
  }

  lemma VictimContents(p: Pool, v: View, i: int)
    requires Coherent(p, v) && 0 <= i < |p.desc| && p.desc[i].dirty
    ensures var k := p.desc[i].Owner(); k in v.logical && p.page[i] == v.logical[k] && OnDisk(p.disk, k)
  {
    assert FrameOk(p.desc[i], i, p);
    assert KeySeen(p, v, p.desc[i].Owner());
  }
}
