/**
 The slotted page at byte level. Records are packed from the front of `data`; the slot
 directory grows backwards, so the source's slot[-k] is `slot[k]` here. Deleting a record
 shifts the bytes behind it to the left, patches their offsets and trims the directory.
 */
module Page {
  import opened Common
  import opened PageSpec

  /** A directory entry; length -1 marks a slot that is not in use. */
  datatype SlotEntry = SlotEntry(offset: int, length: int)

  /** One more than the number of slots that fit beside the records. */
  const MAX_SLOTS: int := 252

  ghost predicate Stored(data: Bytes, e: SlotEntry, s: Slot, freePtr: int)
    requires freePtr <= |data|
  {
    match s
    case Hole => e.length == -1
    case Used(b) =>
      && e.length == |b|
      && 0 <= e.offset && e.offset + e.length <= freePtr
      && (forall i :: 0 <= i < |b| ==> data[e.offset + i] == b[i])
  }

  ghost predicate Disjoint(a: SlotEntry, b: SlotEntry) {
    a.offset + a.length <= b.offset || b.offset + b.length <= a.offset
  }

  /** The live records lie in [0, freePtr) without overlap and their lengths add up to freePtr. */
  ghost predicate Layout(data: Bytes, dir: seq<SlotEntry>, freePtr: int, ss: seq<Slot>) {
    && |dir| == |ss|
    && freePtr == TotalSize(ss) <= |data|
    && (forall k :: 0 <= k < |ss| ==> Stored(data, dir[k], ss[k], freePtr))
    && (forall j, k :: 0 <= j < |ss| && 0 <= k < |ss| && j != k && ss[j].Used? && ss[k].Used? ==>
        Disjoint(dir[j], dir[k]))
  }

  lemma HolesAgree(data: Bytes, dir: seq<SlotEntry>, freePtr: int, ss: seq<Slot>)
    requires Layout(data, dir, freePtr, ss)
    ensures forall k :: 0 <= k < |ss| ==> (dir[k].length == -1 <==> ss[k].Hole?)
    ensures forall k :: 0 <= k < |ss| && ss[k].Used? ==> dir[k].length == ss[k].Size()
  {
    forall k | 0 <= k < |ss| ensures (dir[k].length == -1 <==> ss[k].Hole?) &&
      (ss[k].Used? ==> dir[k].length == ss[k].Size()) {
      assert Stored(data, dir[k], ss[k], freePtr);
    }
  }

  lemma AppendKeepsDisjoint(data: Bytes, dir: seq<SlotEntry>, freePtr: int, ss: seq<Slot>, e: SlotEntry, i: nat)
    requires Layout(data, dir, freePtr, ss) && e.offset == freePtr
    requires i < |ss| && ss[i].Used?
    ensures Disjoint(dir[i], e) && Disjoint(e, dir[i])
  {
    assert Stored(data, dir[i], ss[i], freePtr);
  }

  /** Appending a record behind the free pointer and filling slot `k` keeps the layout. */
  lemma AppendKeepsLayout(data: Bytes, dir: seq<SlotEntry>, freePtr: int, ss: seq<Slot>,
                          data': Bytes, dir': seq<SlotEntry>, k: nat, rec: Bytes)
    requires Layout(data, dir, freePtr, ss)
    requires k <= |ss| && (k < |ss| ==> ss[k].Hole?)
    requires |data'| == |data| && freePtr + |rec| <= |data|
    requires forall i :: 0 <= i < freePtr ==> data'[i] == data[i]
    requires forall i :: 0 <= i < |rec| ==> data'[freePtr + i] == rec[i]
    requires |dir'| == |PutSlot(ss, k, rec)| && dir'[k] == SlotEntry(freePtr, |rec|)
    requires forall j :: 0 <= j < |ss| && j != k ==> dir'[j] == dir[j]
    ensures Layout(data', dir', freePtr + |rec|, PutSlot(ss, k, rec))
  {
    PutSlotSize(ss, k, rec);
    hide TotalSize;
    var tt := PutSlot(ss, k, rec);
    forall j | 0 <= j < |tt| ensures Stored(data', dir'[j], tt[j], freePtr + |rec|) {
      if j != k {
        assert Stored(data, dir[j], ss[j], freePtr);
      }
    }
    forall i, j | 0 <= i < |tt| && 0 <= j < |tt| && i != j && tt[i].Used? && tt[j].Used?
      ensures Disjoint(dir'[i], dir'[j]) {
      if i == k {
        AppendKeepsDisjoint(data, dir, freePtr, ss, dir'[k], j);
      } else if j == k {
        AppendKeepsDisjoint(data, dir, freePtr, ss, dir'[k], i);
      } else {
        assert Disjoint(dir[i], dir[j]);
      }
    }
  }

  /** An offset entry after the hole left by the record `e` has been closed. */
  function Shifted(e: SlotEntry, gone: SlotEntry): SlotEntry {
    if e.length >= 0 && e.offset > gone.offset then SlotEntry(e.offset - gone.length, e.length) else e
  }

  /** `data'` is `data` with the bytes of the entry `gone` squeezed out. */
  ghost predicate Squeezed(data: Bytes, data': Bytes, gone: SlotEntry, freePtr: int) {
    && |data'| == |data|
    && 0 <= gone.offset && 0 <= gone.length && gone.offset + gone.length <= freePtr <= |data|
    && (forall i :: 0 <= i < gone.offset ==> data'[i] == data[i])
    && (forall i :: gone.offset <= i < freePtr - gone.length ==> data'[i] == data[i + gone.length])
  }

  lemma ShiftKeepsRecord(data: Bytes, dir: seq<SlotEntry>, freePtr: int, ss: seq<Slot>, k: nat, data': Bytes, j: nat)
    requires Layout(data, dir, freePtr, ss)
    requires k < |ss| && ss[k].Used? && dir[k].length > 0 && j < |ss| && j != k
    requires Squeezed(data, data', dir[k], freePtr)
    ensures Stored(data', Shifted(dir[j], dir[k]), ss[j], freePtr - dir[k].length)
  {
    hide TotalSize;
    assert Stored(data, dir[j], ss[j], freePtr);
    if ss[j].Used? {
      assert Disjoint(dir[j], dir[k]);
    }
  }

  lemma ShiftKeepsDisjoint(data: Bytes, dir: seq<SlotEntry>, freePtr: int, ss: seq<Slot>, k: nat, i: nat, j: nat)
    requires Layout(data, dir, freePtr, ss)
    requires k < |ss| && ss[k].Used? && dir[k].length > 0
    requires i < |ss| && j < |ss| && i != j && i != k && j != k && ss[i].Used? && ss[j].Used?
    ensures Disjoint(Shifted(dir[i], dir[k]), Shifted(dir[j], dir[k]))
  {
    hide TotalSize;
    assert Stored(data, dir[i], ss[i], freePtr) && Stored(data, dir[j], ss[j], freePtr);
    assert Disjoint(dir[i], dir[j]);
    assert Disjoint(dir[i], dir[k]) && Disjoint(dir[j], dir[k]);
  }

  /** Closing the hole of record `k` keeps every other record's bytes. */
  lemma CompactKeepsLayout(data: Bytes, dir: seq<SlotEntry>, freePtr: int, ss: seq<Slot>,
                           data': Bytes, dir': seq<SlotEntry>, k: nat)
    requires Layout(data, dir, freePtr, ss)
    requires k < |ss| && ss[k].Used? && dir[k].length > 0
    requires Squeezed(data, data', dir[k], freePtr)
    requires |dir'| == |dir| && dir'[k].length == -1
    requires forall j :: 0 <= j < |dir| && j != k ==> dir'[j] == Shifted(dir[j], dir[k])
    ensures Layout(data', dir', freePtr - dir[k].length, ss[k := Hole])
  {
    var tt := ss[k := Hole];
    TotalSizeUpdate(ss, k, Hole);
    assert Stored(data, dir[k], ss[k], freePtr);
    hide TotalSize;
    forall j | 0 <= j < |tt| ensures Stored(data', dir'[j], tt[j], freePtr - dir[k].length) {
      if j != k {
        ShiftKeepsRecord(data, dir, freePtr, ss, k, data', j);
      }
    }
    forall i, j | 0 <= i < |tt| && 0 <= j < |tt| && i != j && tt[i].Used? && tt[j].Used?
      ensures Disjoint(dir'[i], dir'[j]) {
      ShiftKeepsDisjoint(data, dir, freePtr, ss, k, i, j);
    }
  }

  lemma TrimOfMiddle(ss: seq<Slot>, k: nat)
    requires k < |ss| - 1 && ss[|ss| - 1].Used?
    ensures Trim(ss[k := Hole]) == ss[k := Hole]
  {
  }

  lemma TrimIs(ss: seq<Slot>, n: nat)
    requires n <= |ss| && (n > 0 ==> ss[n - 1].Used?)
    requires forall j :: n <= j < |ss| ==> ss[j].Hole?
    ensures Trim(ss) == ss[..n]
  {
    assert |Trim(ss)| == n;
  }

  lemma TrimmedLayout(data: Bytes, dir: seq<SlotEntry>, freePtr: int, ss: seq<Slot>, dir': seq<SlotEntry>)
    requires Layout(data, dir, freePtr, ss)
    requires |dir'| == |Trim(ss)|
    requires forall j :: 0 <= j < |dir'| ==> dir'[j] == dir[j]
    ensures Layout(data, dir', freePtr, Trim(ss))
  {
    var tt := Trim(ss);
    TrimKeepsSize(ss);
    hide TotalSize;
    forall j | 0 <= j < |tt| ensures Stored(data, dir'[j], tt[j], freePtr) {
      assert Stored(data, dir[j], ss[j], freePtr);
    }
  }

  /** The header fields of a page. */
  datatype Header = Header(slotCnt: int, freePtr: int, freeSpace: int, nextPage: int, curPage: int)

  /** The layout invariant: bytes, directory and header fields represent the page `img`. */
  ghost predicate Represents(img: PageImage, data: Bytes, dir: seq<SlotEntry>, h: Header) {
    && img.WellFormed()
    && Layout(data, dir, h.freePtr, img.slots)
    && h == Header(-|img.slots|, TotalSize(img.slots), img.FreeSpace(), img.nextPage, img.curPage)
  }

  lemma InsertRepresents(img: PageImage, data: Bytes, dir: seq<SlotEntry>, h: Header,
                         rec: Bytes, data': Bytes, dir': seq<SlotEntry>)
    requires Represents(img, data, dir, h) && img.Fits(|rec|)
    requires Layout(data', dir', h.freePtr + |rec|, Insert(img, rec).slots)
    ensures Represents(Insert(img, rec), data', dir',
                       h.(slotCnt := -|Insert(img, rec).slots|, freePtr := h.freePtr + |rec|,
                          freeSpace := h.freeSpace - |rec| - 4 * (|Insert(img, rec).slots| - |img.slots|)))
  {
    InsertKeepsLayout(img, rec);
  }

  lemma DeleteRepresents(img: PageImage, data: Bytes, dir: seq<SlotEntry>, h: Header,
                         k: nat, data': Bytes, dir': seq<SlotEntry>)
    requires Represents(img, data, dir, h) && img.Live(k)
    requires Layout(data', dir', h.freePtr - img.slots[k].Size(), Delete(img, k).slots)
    ensures Represents(Delete(img, k), data', dir',
                       h.(slotCnt := -|Delete(img, k).slots|, freePtr := h.freePtr - img.slots[k].Size(),
                          freeSpace := h.freeSpace + img.slots[k].Size() + 4 * (|img.slots| - |Delete(img, k).slots|)))
  {
    DeleteRemovesOne(img, k);
    TotalSizeUpdate(img.slots, k, Hole);
    TrimKeepsSize(img.slots[k := Hole]);
  }

  // ----- no gap and no overlap

  function Interval(lo: int, hi: int): (s: set<int>)
    requires lo <= hi
    ensures forall b :: b in s <==> lo <= b < hi
    ensures |s| == hi - lo
    decreases hi - lo
  {
    if lo == hi then {} else Interval(lo, hi - 1) + {hi - 1}
  }

  ghost predicate Holds(e: SlotEntry, s: Slot, b: int) {
    s.Used? && e.offset <= b < e.offset + e.length
  }

  /** The bytes that belong to one of the first `n` slots. */
  ghost function Covered(dir: seq<SlotEntry>, ss: seq<Slot>, n: nat): (s: set<int>)
    requires n <= |ss| == |dir|
    requires forall k :: 0 <= k < n && ss[k].Used? ==> 0 <= dir[k].length
    ensures forall b :: b in s <==> exists k :: 0 <= k < n && Holds(dir[k], ss[k], b)
  {
    if n == 0 then {}
    else if ss[n - 1].Hole? then Covered(dir, ss, n - 1)
    else Covered(dir, ss, n - 1) + Interval(dir[n - 1].offset, dir[n - 1].offset + dir[n - 1].length)
  }

  lemma DisjointHolds(data: Bytes, dir: seq<SlotEntry>, freePtr: int, ss: seq<Slot>, j: nat, k: nat, b: int)
    requires Layout(data, dir, freePtr, ss)
    requires j < |ss| && k < |ss| && Holds(dir[j], ss[j], b) && Holds(dir[k], ss[k], b)
    ensures j == k
  {
  }

  lemma CoveredApart(data: Bytes, dir: seq<SlotEntry>, freePtr: int, ss: seq<Slot>, n: nat)
    requires |dir| == |ss| && Layout(data, dir, freePtr, ss) && n < |ss| && ss[n].Used?
    requires forall k :: 0 <= k < |ss| && ss[k].Used? ==> 0 <= dir[k].length
    ensures Covered(dir, ss, n) !! Interval(dir[n].offset, dir[n].offset + dir[n].length)
  {
    hide Layout, Covered, Interval;
    forall b | b in Covered(dir, ss, n) ensures b !in Interval(dir[n].offset, dir[n].offset + dir[n].length) {
      var k :| 0 <= k < n && Holds(dir[k], ss[k], b);
      if Holds(dir[n], ss[n], b) {
        DisjointHolds(data, dir, freePtr, ss, k, n, b);
      }
    }
  }

  lemma {:induction false} CoveredSize(data: Bytes, dir: seq<SlotEntry>, freePtr: int, ss: seq<Slot>, n: nat)
    requires |dir| == |ss| && Layout(data, dir, freePtr, ss) && n <= |ss|
    requires forall k :: 0 <= k < |ss| && ss[k].Used? ==> 0 <= dir[k].length == ss[k].Size()
    ensures |Covered(dir, ss, n)| == TotalSize(ss[..n])
  {
    hide Layout, Interval, Holds;
    if n > 0 {
      CoveredSize(data, dir, freePtr, ss, n - 1);
      assert ss[..n][..n - 1] == ss[..n - 1];
      if ss[n - 1].Used? {
        CoveredApart(data, dir, freePtr, ss, n - 1);
      }
    }
  }

  lemma SameSizeSubset(a: set<int>, b: set<int>)
    requires a <= b && |a| == |b|
    ensures a == b
  {
    assert |b - a| == |b| - |a|;
  }

  /** The live records tile [0, freePtr): every byte belongs to exactly one of them. */
  lemma RecordsTile(data: Bytes, dir: seq<SlotEntry>, freePtr: int, ss: seq<Slot>, b: int)
    requires Layout(data, dir, freePtr, ss) && 0 <= b < freePtr
    ensures exists k :: 0 <= k < |ss| && Holds(dir[k], ss[k], b)
    ensures forall j, k :: 0 <= j < |ss| && 0 <= k < |ss| && Holds(dir[j], ss[j], b) && Holds(dir[k], ss[k], b) ==>
              j == k
  {
    HolesAgree(data, dir, freePtr, ss);
    CoveredSize(data, dir, freePtr, ss, |ss|);
    assert ss[..|ss|] == ss;
    hide TotalSize;
    var all := Covered(dir, ss, |ss|);
    forall c | c in all ensures c in Interval(0, freePtr) {
      var k :| 0 <= k < |ss| && Holds(dir[k], ss[k], c);
      assert Stored(data, dir[k], ss[k], freePtr);
    }
    SameSizeSubset(all, Interval(0, freePtr));
    assert b in Interval(0, freePtr);
    forall j, k | 0 <= j < |ss| && 0 <= k < |ss| && Holds(dir[j], ss[j], b) && Holds(dir[k], ss[k], b) ensures j == k {
      DisjointHolds(data, dir, freePtr, ss, j, k, b);
    }
  }

  class Page {
    const data: array<Byte>
    const slot: array<SlotEntry>
    var slotCnt: int
    var freePtr: int
    var freeSpace: int
    var nextPage: int
    var curPage: int
    /** The abstract value of the page. */
    ghost var image: PageImage

    ghost predicate Shape() {
      data.Length == DATA_SIZE && slot.Length == MAX_SLOTS
    }

    ghost function HeaderFields(): Header
      reads this
    {
      Header(slotCnt, freePtr, freeSpace, nextPage, curPage)
    }

    /** The slots in use, slot[..|image.slots|], are the source's slot[0], slot[-1], ..., slot[slotCnt+1]. */
    ghost predicate Valid()
      reads this, data, slot
    {
      && Shape()
      && |image.slots| < MAX_SLOTS
      && Represents(image, data[..], slot[..|image.slots|], HeaderFields())
    }

    constructor (pageNo: int)
      ensures Valid() && image == EmptyPage(pageNo)
      ensures fresh(data) && fresh(slot)
    {
      data := new Byte[DATA_SIZE](_ => 0);
      slot := new SlotEntry[MAX_SLOTS](_ => SlotEntry(0, -1));
      nextPage, slotCnt, curPage, freePtr, freeSpace := -1, 0, pageNo, 0, DATA_SIZE;
      image := EmptyPage(pageNo);
    }

    method Init(pageNo: int)
      requires Shape()
      modifies this
      ensures Valid() && image == EmptyPage(pageNo)
    {
      nextPage := -1;
      slotCnt := 0;
      curPage := pageNo;
      freePtr := 0;
      freeSpace := DATA_SIZE;
      image := EmptyPage(pageNo);
    }

    method SetNextPage(pageNo: int)
      requires Valid()
      modifies this
      ensures Valid() && image == old(image).(nextPage := pageNo)
    {
      nextPage := pageNo;
      image := image.(nextPage := pageNo);
    }

    /** The index, in the source's negative numbering, of the slot the next insertion uses. */
    method FindSlot() returns (i: int)
      requires Valid()
      ensures -i == LowestHole(image.slots)
    {
      hide Layout, TotalSize;
      HolesAgree(data[..], slot[..|image.slots|], freePtr, image.slots);
      i := 0;
      while i > slotCnt
        invariant slotCnt <= i <= 0
        invariant LowestHole(image.slots) == LowestHoleFrom(image.slots, -i)
      {
        if slot[-i].length == -1 {
          break;
        }
        i := i - 1;
      }
    }

    method InsertRecord(rec: Bytes) returns (st: Status, rid: RID)
      requires Valid()
      modifies this, data, slot
      ensures Valid()
      ensures st == if old(image).Fits(|rec|) then OK else NOSPACE
      ensures st == OK ==> image == Insert(old(image), rec) && rid == RID(curPage, LowestHole(old(image).slots))
      ensures st != OK ==> image == old(image)
    {
      hide Layout, TotalSize, LowestHoleFrom;
      rid := NULLRID;
      var spaceNeeded := |rec| + SLOT_SIZE;
      if spaceNeeded > freeSpace {
        return NOSPACE, rid;
      }
      var i := FindSlot();
      ghost var h, bytes, dir := HeaderFields(), data[..], slot[..|image.slots|];
      if i == slotCnt {
        freeSpace := freeSpace - spaceNeeded;
        slotCnt := slotCnt - 1;
      } else {
        freeSpace := freeSpace - |rec|;
      }
      StoreRecord(-i, rec);
      InsertRepresents(image, bytes, dir, h, rec, data[..], slot[..-slotCnt]);
      freePtr := freePtr + |rec|;
      image := Insert(image, rec);
      return OK, RID(curPage, -i);
    }

    /** Fills slot `k` and copies the record behind the free pointer. */
    method StoreRecord(k: nat, rec: Bytes)
      requires Shape() && |image.slots| < slot.Length && Layout(data[..], slot[..|image.slots|], freePtr, image.slots)
      requires k == LowestHole(image.slots) && k < slot.Length && |PutSlot(image.slots, k, rec)| <= slot.Length
      requires freePtr + |rec| <= DATA_SIZE
      modifies data, slot
      ensures Layout(data[..], slot[..|PutSlot(image.slots, k, rec)|], freePtr + |rec|, PutSlot(image.slots, k, rec))
    {
      hide TotalSize;
      ghost var ss, n := image.slots, |PutSlot(image.slots, k, rec)|;
      ghost var dir, bytes := slot[..|ss|], data[..];
      slot[k] := SlotEntry(freePtr, |rec|);
      forall j | 0 <= j < |rec| {
        data[freePtr + j] := rec[j];
      }
      ghost var dir', bytes' := slot[..n], data[..];
      AppendKeepsLayout(bytes, dir, freePtr, ss, bytes', dir', k, rec);
    }

    /** The loop that moves the offsets behind the deleted record `k` to the left. */
    method PatchOffsets(k: nat)
      requires 0 <= -slotCnt <= slot.Length && k < -slotCnt && slot[k].length > 0
      modifies slot
      ensures slot[k] == old(slot[k])
      ensures forall j :: 0 <= j < -slotCnt ==> slot[j] == Shifted(old(slot[j]), old(slot[k]))
    {
      var i := 0;
      var recLen := slot[k].length;
      while i > slotCnt
        invariant slotCnt <= i <= 0
        invariant slot[k] == old(slot[k])
        invariant forall j :: 0 <= j < -i ==> slot[j] == Shifted(old(slot[j]), old(slot[k]))
        invariant forall j :: -i <= j < -slotCnt ==> slot[j] == old(slot[j])
      {
        if slot[-i].length >= 0 && slot[-i].offset > slot[k].offset {
          slot[-i] := SlotEntry(slot[-i].offset - recLen, slot[-i].length);
        }
        i := i - 1;
      }
    }

    /** Closes the hole of the record in slot `k`: bytes behind it move left, their offsets follow. */
    method Compact(k: nat)
      requires Valid() && image.Live(k) && slot[k].length > 0
      modifies data, slot
      ensures slot[k] == old(slot[k]) && slot[k].length == image.slots[k].Size()
      ensures Layout(data[..], slot[..|image.slots|][k := SlotEntry(0, -1)], freePtr - slot[k].length,
                     image.slots[k := Hole])
    {
      hide TotalSize;
      ghost var ss, n := image.slots, |image.slots|;
      ghost var dir, bytes := slot[..n], data[..];
      assert Stored(bytes, dir[k], ss[k], freePtr);
      var offset := slot[k].offset;
      var recLen := slot[k].length;
      var nextOffset := offset + recLen;
      var cnt := freePtr - nextOffset;
      forall j | 0 <= j < cnt {
        data[offset + j] := data[nextOffset + j];
      }
      assert Squeezed(bytes, data[..], dir[k], freePtr);
      PatchOffsets(k);
      CompactKeepsLayout(bytes, dir, freePtr, ss, data[..], slot[..n][k := SlotEntry(0, -1)], k);
    }

    method DeleteRecord(rid: RID) returns (st: Status)
      requires Valid() && rid.slotNo >= 0
      modifies this, data, slot
      ensures Valid()
      ensures st == if old(image).Live(rid.slotNo) && old(image).slots[rid.slotNo].Size() > 0 then OK else INVALIDSLOTNO
      ensures st == OK ==> image == Delete(old(image), rid.slotNo)
      ensures st != OK ==> image == old(image)
    {
      hide Layout, TotalSize, Trim;
      HolesAgree(data[..], slot[..|image.slots|], freePtr, image.slots);
      var slotNo := -rid.slotNo;
      if slotNo > slotCnt && slot[-slotNo].length > 0 {
        RemoveSlot(slotNo);
        return OK;
      }
      return INVALIDSLOTNO;
    }

    /** Removes the record in the source's slot[slotNo]. */
    method RemoveSlot(slotNo: int)
      requires Valid() && slotNo <= 0 && image.Live(-slotNo) && slot[-slotNo].length > 0
      modifies this, data, slot
      ensures Valid()
      ensures image == Delete(old(image), -slotNo)
    {
      hide TotalSize, Trim, Layout;
      ghost var ss, n, k := image.slots, |image.slots|, -slotNo;
      ghost var h, bytes, dir := HeaderFields(), data[..], slot[..n];
      Compact(-slotNo);
      ghost var dir', holed := slot[..n][k := SlotEntry(0, -1)], ss[k := Hole];
      HolesAgree(data[..], dir', freePtr - slot[k].length, holed);
      var recLen := slot[-slotNo].length;
      freePtr := freePtr - recLen;
      freeSpace := freeSpace + recLen;
      if slotNo == slotCnt + 1 {
        TrimDirectory(holed);
      } else {
        slot[-slotNo] := SlotEntry(0, -1);
        TrimOfMiddle(ss, k);
      }
      TrimmedLayout(data[..], dir', freePtr, holed, slot[..-slotCnt]);
      DeleteRepresents(image, bytes, dir, h, k, data[..], slot[..-slotCnt]);
      image := Delete(image, k);
    }

    /** The do-while loop that gives back trailing slots, including ones emptied earlier. */
    method TrimDirectory(ghost holed: seq<Slot>)
      requires 0 < |holed| <= slot.Length && slotCnt == -|holed|
      requires holed[|holed| - 1].Hole?
      requires forall j :: 0 <= j < |holed| - 1 ==> (slot[j].length == -1 <==> holed[j].Hole?)
      modifies this`slotCnt, this`freeSpace
      ensures slotCnt == -|Trim(holed)|
      ensures freeSpace == old(freeSpace) + 4 * (|holed| - |Trim(holed)|)
    {
      hide Trim;
      slotCnt := slotCnt + 1;
      freeSpace := freeSpace + SLOT_SIZE;
      while slotCnt < 0 && slot[-(slotCnt + 1)].length == -1
        invariant -|holed| < slotCnt <= 0
        invariant freeSpace == old(freeSpace) + 4 * (|holed| + slotCnt)
        invariant forall j :: -slotCnt <= j < |holed| ==> holed[j].Hole?
      {
        slotCnt := slotCnt + 1;
        freeSpace := freeSpace + SLOT_SIZE;
      }
      TrimIs(holed, -slotCnt);
    }

    method FirstRecord() returns (st: Status, rid: RID)
      requires Valid()
      ensures st == if NextLive(image.slots, 0) < |image.slots| then OK else NORECORDS
      ensures st == OK ==> rid == RID(image.curPage, NextLive(image.slots, 0))
    {
      hide Layout, TotalSize;
      HolesAgree(data[..], slot[..|image.slots|], freePtr, image.slots);
      var i := 0;
      while i > slotCnt
        invariant slotCnt <= i <= 0
        invariant NextLive(image.slots, 0) == NextLive(image.slots, -i)
      {
        if slot[-i].length != -1 {
          break;
        }
        i := i - 1;
      }
      if i == slotCnt || slot[-i].length == -1 {
        return NORECORDS, NULLRID;
      }
      return OK, RID(curPage, -i);
    }

    /** A slot number of -1 (the null RID) stands for the position before slot 0. */
    method NextRecord(curRid: RID) returns (st: Status, rid: RID)
      requires Valid() && curRid.slotNo >= -1
      ensures st == if NextLive(image.slots, curRid.slotNo + 1) < |image.slots| then OK else ENDOFPAGE
      ensures st == OK ==> rid == RID(image.curPage, NextLive(image.slots, curRid.slotNo + 1))
    {
      hide Layout, TotalSize;
      HolesAgree(data[..], slot[..|image.slots|], freePtr, image.slots);
      var i := -curRid.slotNo;
      i := i - 1;
      while i > slotCnt
        invariant i <= 0
        invariant NextLive(image.slots, curRid.slotNo + 1) == NextLive(image.slots, -i)
      {
        if slot[-i].length != -1 {
          break;
        }
        i := i - 1;
      }
      if i <= slotCnt || slot[-i].length == -1 {
        return ENDOFPAGE, NULLRID;
      }
      return OK, RID(curPage, -i);
    }

    method GetRecord(rid: RID) returns (st: Status, rec: Bytes)
      requires Valid() && rid.slotNo >= 0
      ensures st == if image.Live(rid.slotNo) && image.slots[rid.slotNo].Size() > 0 then OK else INVALIDSLOTNO
      ensures st == OK ==> rec == image.slots[rid.slotNo].bytes
    {
      var slotNo := rid.slotNo;
      hide TotalSize;
      if slotNo < |image.slots| {
        assert Stored(data[..], slot[..|image.slots|][slotNo], image.slots[slotNo], freePtr);
      }
      if -slotNo > slotCnt && slot[slotNo].length > 0 {
        var offset := slot[slotNo].offset;
        return OK, data[offset..offset + slot[slotNo].length];
      }
      return INVALIDSLOTNO, [];
    }
  }
}
