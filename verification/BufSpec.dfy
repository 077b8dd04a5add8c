/**
 The buffer pool as a state machine: frame descriptors, frame contents, clock hand, the index
 from pages to frames, and the files on disk. Each function is one call of the buffer manager.
 */
module BufSpec {
  import opened Common
  import opened DiskSpec
  import opened BufHash

  /** The address of no file. */
  const NULLFILE: int := 0

  datatype Desc = Desc(file: int, pageNo: int, pinCnt: int, dirty: bool, valid: bool, refbit: bool) {
    function Owner(): Key {
      Key(file, pageNo)
    }

    /** BufDesc::Clear leaves the reference bit as it is. */
    function Clear(): Desc {
      Desc(NULLFILE, -1, 0, false, false, refbit)
    }
  }

  /** BufDesc::Set. */
  function SetDesc(k: Key): Desc {
    Desc(k.file, k.page, 1, false, true, true)
  }

  type Disk = map<int, Pages>

  datatype Pool = Pool(desc: seq<Desc>, page: seq<Block>, hand: int, table: map<Key, int>, disk: Disk)

  predicate OnDisk(disk: Disk, k: Key) {
    k.file in disk && 1 <= k.page < |disk[k.file]|
  }

  function WritePage(disk: Disk, k: Key, b: Block): Disk
    requires OnDisk(disk, k)
  {
    disk[k.file := disk[k.file][k.page := b]]
  }

  // ----- the invariant

  predicate FrameOk(d: Desc, i: int, p: Pool) {
    if d.valid then
      && d.Owner() in p.table && p.table[d.Owner()] == i
      && OnDisk(p.disk, d.Owner()) && d.pinCnt >= 0
    else
      d.file == NULLFILE && !d.dirty && d.pinCnt == 0
  }

  predicate EntryOk(p: Pool, k: Key)
    requires k in p.table
  {
    0 <= p.table[k] < |p.desc| && p.desc[p.table[k]].valid && p.desc[p.table[k]].Owner() == k
  }

  /** The index finds a page exactly in the valid frame that holds it; invalid frames are clean and have no file. */
  ghost predicate Inv(p: Pool) {
    && |p.desc| == |p.page| >= 1 && 0 <= p.hand < |p.desc|
    && (forall i :: 0 <= i < |p.desc| ==> FrameOk(p.desc[i], i, p))
    && (forall k :: k in p.table ==> EntryOk(p, k))
    && (forall f :: f in p.disk ==> f >= 1 && HeaderShape(p.disk[f]))
  }

  // ----- the clock

  /** The clock after a sweep; `ok` is false when the source gives up with BUFFEREXCEEDED. */
  datatype Swept = Swept(desc: seq<Desc>, hand: int, ok: bool)

  predicate Replaceable(d: Desc) {
    !d.valid || (!d.refbit && d.pinCnt == 0)
  }

  /** At most `left` further steps. An invalid frame met on the very last step would be refused. */
  function Sweep(desc: seq<Desc>, hand: int, left: nat): Swept
    requires |desc| >= 1
    decreases left
  {
    if left == 0 then Swept(desc, hand, false)
    else
      var h := (hand + 1) % |desc|;
      if Replaceable(desc[h]) then Swept(desc, h, desc[h].valid || left > 1)
      else Sweep(desc[h := desc[h].(refbit := false)], h, left - 1)
  }

  function AllocBuf(p: Pool): (r: (Status, Pool))
    requires Inv(p)
    ensures |r.1.desc| == |r.1.page| == |p.desc| && 0 <= r.1.hand < |p.desc|
    ensures forall k :: OnDisk(r.1.disk, k) <==> OnDisk(p.disk, k)
  {
    SweepSteps(p.desc, p.hand, 2 * |p.desc|);
    var s := Sweep(p.desc, p.hand, 2 * |p.desc|);
    if !s.ok then (BUFFEREXCEEDED, p.(desc := s.desc, hand := s.hand))
    else
      var d := s.desc[s.hand];
      var table' := if d.valid then p.table - {d.Owner()} else p.table;
      var disk' := if d.dirty then WritePage(p.disk, d.Owner(), p.page[s.hand]) else p.disk;
      (OK, Pool(s.desc, p.page, s.hand, table', disk'))
  }

  // ----- the calls

  /** The frame `i` now holds page `k` with contents `b`, pinned once. */
  function Install(p: Pool, i: int, k: Key, b: Block): Pool
    requires 0 <= i < |p.desc| == |p.page|
  {
    p.(desc := p.desc[i := SetDesc(k)], page := p.page[i := b], table := p.table[k := i])
  }

  function ReadPage(p: Pool, k: Key): (Status, Pool)
    requires Inv(p)
  {
    if k in p.table then
      var i := p.table[k];
      (OK, p.(desc := p.desc[i := p.desc[i].(refbit := true, pinCnt := p.desc[i].pinCnt + 1)]))
    else
      var (st, q) := AllocBuf(p);
      if st != OK then (st, q)
      else if !OnDisk(p.disk, k) then (if k.page < 1 then BADPAGENO else UNIXERR, q)
      else (OK, Install(q, q.hand, k, q.disk[k.file][k.page]))
  }

  function UnPinPage(p: Pool, k: Key, dirty: bool): (Status, Pool)
    requires Inv(p)
  {
    if k !in p.table then (HASHNOTFOUND, p)
    else
      var i := p.table[k];
      var d := p.desc[i].(dirty := p.desc[i].dirty || dirty);
      if d.pinCnt == 0 then (PAGENOTPINNED, p.(desc := p.desc[i := d]))
      else (OK, p.(desc := p.desc[i := d.(pinCnt := d.pinCnt - 1)]))
  }

  function AllocPage(p: Pool, f: int): (Status, Pool)
    requires Inv(p) && f in p.disk
  {
    var (st0, n, pages') := AllocatePage(p.disk[f]);
    AllocateKeepsInv(p, f);
    var (st, q) := AllocBuf(p.(disk := p.disk[f := pages']));
    if st0 != OK then (st0, p)
    else if st != OK then (st, q)
    else if Key(f, n) in q.table then (HASHTBLERROR, q.(desc := q.desc[q.hand := SetDesc(Key(f, n))]))
    else (OK, Install(q, q.hand, Key(f, n), q.page[q.hand]))
  }

  /** One frame of flushFile: written back if dirty, then dropped. */
  function DropFrame(p: Pool, i: int): Pool
    requires Inv(p) && 0 <= i < |p.desc| && p.desc[i].valid
  {
    var d := p.desc[i];
    p.(desc := p.desc[i := Desc(NULLFILE, -1, d.pinCnt, false, false, d.refbit)],
       table := p.table - {d.Owner()},
       disk := if d.dirty then WritePage(p.disk, d.Owner(), p.page[i]) else p.disk)
  }

  function FlushFrom(p: Pool, f: int, i: nat): (Status, Pool)
    requires Inv(p) && i <= |p.desc|
    decreases |p.desc| - i
  {
    if i == |p.desc| then (OK, p)
    else if p.desc[i].valid && p.desc[i].file == f then
      if p.desc[i].pinCnt > 0 then (PAGEPINNED, p)
      else
        DropKeepsInv(p, i);
        FlushFrom(DropFrame(p, i), f, i + 1)
    else if !p.desc[i].valid && p.desc[i].file == f then (BADBUFFER, p)
    else FlushFrom(p, f, i + 1)
  }

  function FlushFile(p: Pool, f: int): (Status, Pool)
    requires Inv(p)
  {
    FlushFrom(p, f, 0)
  }

  function DisposeBufPage(p: Pool, k: Key): (Status, Pool)
    requires Inv(p) && k.file in p.disk
  {
    var desc' := if k in p.table then p.desc[p.table[k] := p.desc[p.table[k]].Clear()] else p.desc;
    var (st, pages') := DisposePage(p.disk[k.file], k.page);
    (st, p.(desc := desc', table := p.table - {k}, disk := p.disk[k.file := pages']))
  }

  /** A client stores through the pointer that pinning the page gave it. */
  function ClientWrite(p: Pool, k: Key, b: Block): Pool
    requires Inv(p) && k in p.table
  {
    p.(page := p.page[p.table[k] := b])
  }

  // ----- facts the definitions above need

  /** A sweep changes reference bits only. */
  ghost predicate SameButRef(a: seq<Desc>, b: seq<Desc>) {
    |a| == |b| && forall i :: 0 <= i < |a| ==> b[i] == a[i].(refbit := b[i].refbit)
  }

  lemma {:induction false} SweepSteps(desc: seq<Desc>, hand: int, left: nat)
    requires |desc| >= 1 && 0 <= hand < |desc|
    ensures var s := Sweep(desc, hand, left);
            && SameButRef(desc, s.desc) && 0 <= s.hand < |desc|
            && (s.ok ==> Replaceable(s.desc[s.hand]))
    decreases left
  {
    if left > 0 {
      var h := (hand + 1) % |desc|;
      if !Replaceable(desc[h]) {
        SweepSteps(desc[h := desc[h].(refbit := false)], h, left - 1);
      }
    }
  }

  lemma AllocateKeepsInv(p: Pool, f: int)
    requires Inv(p) && f in p.disk
    ensures Inv(p.(disk := p.disk[f := AllocatePage(p.disk[f]).2]))
  {
  }

  lemma DropKeepsInv(p: Pool, i: int)
    requires Inv(p) && 0 <= i < |p.desc| && p.desc[i].valid && p.desc[i].pinCnt == 0
    ensures Inv(DropFrame(p, i))
  {
  }
}
