/**
 The abstract value of a slotted page: a directory of slots, each a hole or a record.
 Byte offsets, compaction and the free pointer do not appear here; `Page` shows that
 the byte-level page computes exactly these operations.
 */
module PageSpec {
  import opened Common

  /** Bytes shared by the record area and the slot directory: PAGESIZE - DPFIXED. */
  const DATA_SIZE: int := 1004
  /** sizeof(slot_t). */
  const SLOT_SIZE: int := 4

  datatype Slot = Hole | Used(bytes: Bytes) {
    function Size(): nat {
      if Used? then |bytes| else 0
    }
  }

  function TotalSize(ss: seq<Slot>): nat {
    if ss == [] then 0 else TotalSize(ss[..|ss| - 1]) + ss[|ss| - 1].Size()
  }

  datatype PageImage = PageImage(slots: seq<Slot>, nextPage: int, curPage: int) {
    function FreeSpace(): int {
      DATA_SIZE - TotalSize(slots) - 4 * |slots|
    }

    /** The directory never meets the records, and its last slot is never a hole. */
    predicate WellFormed() {
      FreeSpace() >= 0 && (slots != [] ==> slots[|slots| - 1].Used?)
    }

    /** The page as its clients see it: slot numbers mapped to record bytes. */
    function Contents(): map<nat, Bytes> {
      map k: nat | k < |slots| && slots[k].Used? :: slots[k].bytes
    }

    predicate Live(k: int) {
      0 <= k < |slots| && slots[k].Used?
    }

    /** A slot is charged even if a hole can be reused. */
    predicate Fits(len: nat) {
      len + SLOT_SIZE <= FreeSpace()
    }
  }

  function EmptyPage(pageNo: int): PageImage {
    PageImage([], -1, pageNo)
  }

  function LowestHole(ss: seq<Slot>): (k: nat)
    ensures k <= |ss|
    ensures k < |ss| ==> ss[k].Hole?
    ensures forall j :: 0 <= j < k ==> ss[j].Used?
  {
    LowestHoleFrom(ss, 0)
  }

  function LowestHoleFrom(ss: seq<Slot>, i: nat): (k: nat)
    requires i <= |ss|
    ensures i <= k <= |ss|
    ensures k < |ss| ==> ss[k].Hole?
    ensures forall j :: i <= j < k ==> ss[j].Used?
    decreases |ss| - i
  {
    if i == |ss| || ss[i].Hole? then i else LowestHoleFrom(ss, i + 1)
  }

  function PutSlot(ss: seq<Slot>, k: nat, rec: Bytes): seq<Slot>
    requires k <= |ss|
  {
    if k < |ss| then ss[k := Used(rec)] else ss + [Used(rec)]
  }

  function Insert(p: PageImage, rec: Bytes): PageImage {
    p.(slots := PutSlot(p.slots, LowestHole(p.slots), rec))
  }

  /** Drops the holes at the end of the directory. */
  function Trim(ss: seq<Slot>): (r: seq<Slot>)
    ensures r <= ss
    ensures r != [] ==> r[|r| - 1].Used?
    ensures forall j :: |r| <= j < |ss| ==> ss[j].Hole?
  {
    if ss != [] && ss[|ss| - 1].Hole? then Trim(ss[..|ss| - 1]) else ss
  }

  function Delete(p: PageImage, k: nat): PageImage
    requires k < |p.slots|
  {
    p.(slots := Trim(p.slots[k := Hole]))
  }

  /** The first live slot at or after `i`, or the number of slots if there is none. */
  function NextLive(ss: seq<Slot>, i: nat): (k: nat)
    ensures i <= |ss| ==> i <= k <= |ss|
    ensures i > |ss| ==> k == |ss|
    ensures k < |ss| ==> ss[k].Used?
    ensures forall j :: i <= j < k ==> ss[j].Hole?
    decreases |ss| - i
  {
    if i >= |ss| then |ss| else if ss[i].Used? then i else NextLive(ss, i + 1)
  }

  // ----- sizes

  lemma {:induction false} TotalSizeUpdate(ss: seq<Slot>, k: nat, s: Slot)
    requires k < |ss|
    ensures TotalSize(ss[k := s]) == TotalSize(ss) - ss[k].Size() + s.Size()
  {
    var t := ss[k := s];
    var n := |ss| - 1;
    if k == n {
      assert t[..n] == ss[..n];
    } else {
      assert t[..n] == ss[..n][k := s];
      TotalSizeUpdate(ss[..n], k, s);
    }
  }

  lemma {:induction false} TotalSizeAtLeast(ss: seq<Slot>, k: nat)
    requires k < |ss|
    ensures ss[k].Size() <= TotalSize(ss)
  {
    if k < |ss| - 1 {
      TotalSizeAtLeast(ss[..|ss| - 1], k);
    }
  }

  lemma TotalSizeAppend(ss: seq<Slot>, s: Slot)
    ensures TotalSize(ss + [s]) == TotalSize(ss) + s.Size()
  {
    assert (ss + [s])[..|ss|] == ss;
  }

  lemma {:induction false} TrimKeepsSize(ss: seq<Slot>)
    ensures TotalSize(Trim(ss)) == TotalSize(ss)
  {
    if ss != [] && ss[|ss| - 1].Hole? {
      TrimKeepsSize(ss[..|ss| - 1]);
    }
  }

  // ----- what insert and delete do to the map of records

  lemma PutSlotSize(ss: seq<Slot>, k: nat, rec: Bytes)
    requires k <= |ss|
    requires k < |ss| ==> ss[k].Hole?
    ensures TotalSize(PutSlot(ss, k, rec)) == TotalSize(ss) + |rec|
  {
    if k < |ss| {
      TotalSizeUpdate(ss, k, Used(rec));
    } else {
      TotalSizeAppend(ss, Used(rec));
    }
  }

  lemma InsertKeepsLayout(p: PageImage, rec: Bytes)
    requires p.WellFormed() && p.Fits(|rec|)
    ensures Insert(p, rec).WellFormed()
    ensures TotalSize(Insert(p, rec).slots) == TotalSize(p.slots) + |rec|
  {
    PutSlotSize(p.slots, LowestHole(p.slots), rec);
  }

  /** Insertion adds exactly one entry, at the lowest free slot number. */
  lemma InsertAddsOne(p: PageImage, rec: Bytes)
    ensures var k := LowestHole(p.slots);
            && k !in p.Contents()
            && (forall j: nat :: j < k ==> j in p.Contents())
            && Insert(p, rec).Contents() == p.Contents()[k := rec]
  {
    var k := LowestHole(p.slots);
    var q := Insert(p, rec);
    assert forall j: nat :: j in q.Contents() <==> j in p.Contents() || j == k;
  }

  /** Deletion keeps the layout invariant and removes exactly one entry. */
  lemma DeleteRemovesOne(p: PageImage, k: nat)
    requires p.WellFormed() && p.Live(k)
    ensures Delete(p, k).WellFormed()
    ensures Delete(p, k).Contents() == p.Contents() - {k}
    ensures Delete(p, k).FreeSpace() >= p.FreeSpace() + |p.slots[k].bytes|
  {
    var holed := p.slots[k := Hole];
    TotalSizeUpdate(p.slots, k, Hole);
    TrimKeepsSize(holed);
    hide TotalSize;
    var r := Trim(holed);
    forall j: nat ensures j in Delete(p, k).Contents() <==> j in p.Contents() - {k} {
      if j < |r| {
        assert r[j] == holed[j];
      }
    }
    forall j: nat | j in Delete(p, k).Contents() ensures Delete(p, k).Contents()[j] == p.Contents()[j] {
      assert r[j] == holed[j];
    }
  }

  /** The map determines the page: number of slots, free space and every later answer. */
  lemma ContentsDetermineSlots(p: PageImage, q: PageImage)
    requires p.WellFormed() && q.WellFormed()
    requires p.Contents() == q.Contents()
    ensures p.slots == q.slots
  {
    assert q.slots != [] ==> |q.slots| - 1 in q.Contents();
    assert p.slots != [] ==> |p.slots| - 1 in p.Contents();
    assert |p.slots| == |q.slots|;
    forall k | 0 <= k < |p.slots| ensures p.slots[k] == q.slots[k] {
      assert k in p.Contents() <==> k in q.Contents();
      if k in p.Contents() {
        assert p.Contents()[k] == q.Contents()[k];
      }
    }
  }

  /** Deleting what was just inserted restores the page exactly, trimmed slots included. */
  lemma InsertThenDelete(p: PageImage, rec: Bytes)
    requires p.WellFormed() && p.Fits(|rec|)
    ensures Delete(Insert(p, rec), LowestHole(p.slots)) == p
  {
    hide TotalSize, Trim, LowestHoleFrom;
    var k := LowestHole(p.slots);
    InsertAddsOne(p, rec);
    InsertKeepsLayout(p, rec);
    DeleteRemovesOne(Insert(p, rec), k);
    assert Delete(Insert(p, rec), k).Contents() == p.Contents();
    ContentsDetermineSlots(Delete(Insert(p, rec), k), p);
  }

  // ----- every sequence of insertions and deletions

  datatype PageOp = InsertOp(rec: Bytes) | DeleteOp(slotNo: nat)

  /** An operation that is refused (NOSPACE, INVALIDSLOTNO) leaves the page as it is. */
  function Apply(p: PageImage, op: PageOp): PageImage {
    match op
    case InsertOp(rec) => if p.Fits(|rec|) then Insert(p, rec) else p
    case DeleteOp(k) => if p.Live(k) && p.slots[k].Size() > 0 then Delete(p, k) else p
  }

  function ApplyAll(p: PageImage, ops: seq<PageOp>): PageImage
    decreases |ops|
  {
    if ops == [] then p else ApplyAll(Apply(p, ops[0]), ops[1..])
  }

  lemma ApplyKeeps(p: PageImage, op: PageOp, k: nat)
    requires p.WellFormed()
    ensures Apply(p, op).WellFormed()
    ensures k in p.Contents() && op != DeleteOp(k) ==>
              k in Apply(p, op).Contents() && Apply(p, op).Contents()[k] == p.Contents()[k]
  {
    match op
    case InsertOp(rec) =>
      if p.Fits(|rec|) {
        InsertAddsOne(p, rec);
        InsertKeepsLayout(p, rec);
      }
    case DeleteOp(j) =>
      if p.Live(j) && p.slots[j].Size() > 0 {
        DeleteRemovesOne(p, j);
      }
  }

  /**
   Over every run the layout invariant holds, and a record that nobody deletes keeps its slot number and its bytes.
   */
  lemma {:induction false} RecordSurvivesRun(p: PageImage, ops: seq<PageOp>, k: nat)
    requires p.WellFormed()
    ensures ApplyAll(p, ops).WellFormed()
    ensures k in p.Contents() && DeleteOp(k) !in ops ==>
              k in ApplyAll(p, ops).Contents() && ApplyAll(p, ops).Contents()[k] == p.Contents()[k]
    decreases |ops|
  {
    if ops != [] {
      ApplyKeeps(p, ops[0], k);
      hide Apply;
      RecordSurvivesRun(Apply(p, ops[0]), ops[1..], k);
    }
  }
}
