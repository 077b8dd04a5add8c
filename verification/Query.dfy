/** The relational operators that change relations, on heap files in the buffer pool. */
module Query {
  import opened Common
  import opened Compare
  import opened PageSpec
  import opened BufHash
  import opened BufRefine
  import opened HeapSpec
  import opened Chain
  import opened HeapFile
  import opened QuerySpec

  // ----- deletion

  /** In the middle of a deletion: `kept` lies behind the cursor, and `target` is what will be left. */
  ghost predicate Halfway(pages: seq<PageImage>, c: Cursor, m: Bytes -> bool, kept: seq<Entry>, target: seq<Entry>) {
    && AllEntries(pages) == kept + Ahead(c, pages)
    && kept + Survivors(Ahead(c, pages), m) == target
    && NoEmptyRecords(kept)
  }

  /** Deletion takes out one record between those in front and those behind. */
  lemma DeleteBetween(pages: seq<PageImage>, i: nat, k: nat, front: seq<Entry>, e: Entry)
    requires i < |pages| && pages[i].Live(k)
    requires AllEntries(pages) == front + ([e] + Remaining(pages, i, k + 1))
    ensures var pages' := pages[i := Delete(pages[i], k)];
            AllEntries(pages') == front + Remaining(pages', i, k + 1) &&
              Remaining(pages', i, k + 1) == Remaining(pages, i, k + 1)
  {
    hide AllEntries, Remaining, Delete, Entries, Range;
    DeleteFromPages(pages, i, k);
    DeleteKeepsAhead(pages, i, k);
    SameFront(AllEntries(pages), Entries(pages[..i], 0) + Range(pages[i], 0, k), front, Remaining(pages, i, k + 1),
              SlotEntry(pages[i], k), e);
  }

  lemma SameFront(all: seq<Entry>, pre: seq<Entry>, pre': seq<Entry>, post: seq<Entry>, e: Entry, e': Entry)
    requires all == pre + ([e] + post) && all == pre' + ([e'] + post)
    ensures pre == pre'
  {
    assert pre == all[..|pre|] && pre' == all[..|pre'|];
  }

  lemma FoundAhead(pages: seq<PageImage>, r: seq<Entry>, rid: RID, c: Cursor)
    requires r != [] && Found(OK, rid, r, c, pages) && c.pageNo >= 0
    ensures c.pos < |pages| && pages[c.pos].Live(c.slot) && r[0].bytes != []
    ensures r[1..] == Remaining(pages, c.pos, c.slot + 1) == Ahead(c, pages)
    ensures var pages' := pages[c.pos := Delete(pages[c.pos], c.slot)];
            Ahead(c, pages') == Remaining(pages', c.pos, c.slot + 1)
  {
    hide AllEntries, Remaining, Delete;
  }

  /** Deleting the record that was found. */
  lemma DeleteStep(pages: seq<PageImage>, c: Cursor, m: Bytes -> bool, kept: seq<Entry>, target: seq<Entry>, rid: RID,
                   c': Cursor)
    returns (kept': seq<Entry>)
    requires Halfway(pages, c, m, kept, target) && c'.pageNo >= 0
    requires Skip(Ahead(c, pages), m) != [] && Found(OK, rid, Skip(Ahead(c, pages), m), c', pages)
    ensures c'.pos < |pages| && pages[c'.pos].Live(c'.slot)
    ensures var pages' := pages[c'.pos := Delete(pages[c'.pos], c'.slot)];
            Halfway(pages', c', m, kept', target) && |Ahead(c', pages')| < |Ahead(c, pages)|
  {
    hide AllEntries, Remaining, Delete, Ahead, Found, Survivors, Skip, NoEmptyRecords;
    var r := Skip(Ahead(c, pages), m);
    FoundAhead(pages, r, rid, c');
    kept' := SkipOver(kept, Ahead(c, pages), m, target);
    DeleteBetween(pages, c'.pos, c'.slot, kept', r[0]);
  }

  /** The records a scan passes over on its way to the next one join those that are kept. */
  lemma SkipOver(kept: seq<Entry>, es: seq<Entry>, m: Bytes -> bool, target: seq<Entry>) returns (kept': seq<Entry>)
    requires kept + Survivors(es, m) == target && NoEmptyRecords(kept) && Skip(es, m) != [] &&
             Skip(es, m)[0].bytes != []
    ensures var r := Skip(es, m);
            && kept + es == kept' + ([r[0]] + r[1..]) && kept' + Survivors(r[1..], m) == target
            && NoEmptyRecords(kept') && |r| <= |es|
  {
    hide Skip, NoEmptyRecords, Survivors;
    var n := SkippedSurvive(es, m);
    var front, r := es[..n], es[n..];
    kept' := kept + front;
    FirstDeleted(r, m);
    Regroup(kept, front, Survivors(r, m));
    Regroup(kept, front, r);
    assert es == front + r && r == [r[0]] + r[1..];
    NoEmptyConcat(kept, front);
  }

  lemma FirstDeleted(r: seq<Entry>, m: Bytes -> bool)
    requires r != [] && r[0].bytes != [] && Stops(r[0], m)
    ensures Survivors(r, m) == Survivors(r[1..], m)
  {
  }

  lemma Regroup(a: seq<Entry>, b: seq<Entry>, c: seq<Entry>)
    ensures a + (b + c) == a + b + c
  {
  }

  lemma {:induction false} SurvivorsKeepEmpty(es: seq<Entry>, m: Bytes -> bool)
    ensures NoEmptyRecords(Survivors(es, m)) <==> NoEmptyRecords(es)
  {
    if es != [] && es[0].bytes != [] {
      SurvivorsKeepEmpty(es[1..], m);
      assert es == [es[0]] + es[1..];
      NoEmptyConcat([es[0]], es[1..]);
      NoEmptyConcat(if m(es[0].bytes) then [] else [es[0]], Survivors(es[1..], m));
    }
  }

  /** Where the loop ends, what should be left is left; the loop was stopped iff there is an empty record. */
  lemma DeleteEnds(pages: seq<PageImage>, c: Cursor, m: Bytes -> bool, kept: seq<Entry>, target: seq<Entry>)
    requires Halfway(pages, c, m, kept, target)
    ensures var r := Skip(Ahead(c, pages), m);
            r == [] || r[0].bytes == [] ==> AllEntries(pages) == target && (NoEmptyRecords(target) <==> r == [])
  {
    hide AllEntries, Ahead;
    var es := Ahead(c, pages);
    var n := SkippedSurvive(es, m);
    if n == |es| {
      assert es[..n] == es;
    } else if es[n].bytes == [] {
      assert target[|kept| + n] == es[n];
    }
  }

  /** What work on one file leaves alone: other files, other objects' pins, and the object's identity. */
  twostate predicate WorkFrame(hf: HeapFile)
    reads hf, hf.store
  {
    && hf.filter == old(hf.filter) && hf.Others() == old(hf.Others())
    && OthersSame(old(hf.store.view), hf.store.view, hf.filePtr)
    && Exchanged(old(hf.store.view), old(hf.Held()), hf.store.view, hf.Held())
  }

  /** One turn of the deletion loop: what scanNext finds is deleted, even if it cannot be. */
  method DeleteNext(hf: HeapFile, ghost chain: seq<int>, ghost pages: seq<PageImage>)
    returns (status: Status, ghost rid: RID)
    requires hf.Valid(chain) && hf.Shows(chain, pages) && hf.Others() < hf.store.bm.numBufs && Plain(hf.filter)
    modifies hf, hf.store.Repr(), hf.store.bm.db`files
    ensures hf.Core() && WorkFrame(hf)
    ensures Found(status, rid, Skip(Ahead(old(hf.Position()), pages), old(hf.Matches())), hf.Position(), pages)
    ensures status == FILEEOF ==> hf.Valid(chain) && hf.Shows(chain, pages)
    ensures status == OK ==> hf.curPageNo >= 0 && hf.pos < |pages| && pages[hf.pos].Live(hf.curRec.slotNo)
    ensures status == OK ==>
              hf.Valid(chain) && hf.Shows(chain, pages[hf.pos := Delete(pages[hf.pos], hf.curRec.slotNo)])
    ensures status == INVALIDSLOTNO ==> Miscounted(hf.store.view.logical, hf.filePtr, hf.headerPageNo, chain, pages)
  {
    hide HeapAt, HeapFile.Valid, HeapFile.Core, Exchanged, OthersSame, PagesOf, Ahead, Skip, Miscounted, Found, Ready,
         Meaning, HeapFile.Full, HeapFile.OtherPins, Delete, HeapFile.Fields, Plain;
    ghost var c, v, o := hf.Position(), hf.store.view, hf.Held();
    var r;
    PlainFilter(v, o, hf.filter, v.logical);
    hf.CoreOf(chain);
    hf.NotFull();
    status, r := hf.ScanNext(chain, pages);
    rid := r;
    OthersSameNow(v, hf.filePtr);
    OthersSameTwice(v, v, hf.store.view, hf.store.view, hf.filePtr);
    FoundCases(status, rid, Skip(Ahead(c, pages), old(hf.Matches())), hf.Position(), pages);
    hf.CoreOf(chain);
    if status == FILEEOF {
      return;
    }
    ghost var v1, o1 := hf.store.view, hf.Held();
    hf.PageIsReal(chain);
    var deleted := hf.DeleteRecord(chain, pages);
    ExchangedTwice(v, o, v1, o1, hf.store.view, hf.Held());
    OthersSameTwice(v, v1, v1, hf.store.view, hf.filePtr);
  }

  /**
   The deletion loop. Exactly the matching records go, up to the first empty record; there the loop stops
   and leaves the record count one too low.
   */
  method DeleteMatching(hf: HeapFile, ghost chain: seq<int>, ghost pages: seq<PageImage>)
    returns (ghost pages': seq<PageImage>)
    requires hf.Valid(chain) && hf.Shows(chain, pages) && hf.Others() < hf.store.bm.numBufs
    requires Ahead(hf.Position(), pages) == AllEntries(pages) && Plain(hf.filter)
    modifies hf, hf.store.Repr(), hf.store.bm.db`files
    ensures hf.Core() && WorkFrame(hf)
    ensures AllEntries(pages') == Survivors(AllEntries(pages), old(hf.Matches()))
    ensures NoEmptyRecords(AllEntries(pages)) ==> hf.Valid(chain) && hf.Shows(chain, pages')
    ensures !NoEmptyRecords(AllEntries(pages)) ==>
              Miscounted(hf.store.view.logical, hf.filePtr, hf.headerPageNo, chain, pages')
  {
    hide HeapAt, HeapFile.Core, Exchanged, OthersSame, PagesOf, Ahead, Survivors, AllEntries, Halfway, Miscounted,
         Found, NoEmptyRecords, Meaning, Filtering;
    OthersSameNow(hf.store.view, hf.filePtr);
    ghost var m := hf.Matches();
    ghost var target := Survivors(AllEntries(pages), m);
    ghost var kept: seq<Entry> := [];
    pages' := pages;
    SameHold(hf.store.view, hf.Held());
    DeleteStarts(pages, hf.Position(), m);
    SurvivorsKeepEmpty(AllEntries(pages), m);
    while true
      invariant hf.Valid(chain) && hf.Shows(chain, pages') && WorkFrame(hf)
      invariant Halfway(pages', hf.Position(), m, kept, target)
      decreases |Ahead(hf.Position(), pages')|
    {
      ghost var c, v, o := hf.Position(), hf.store.view, hf.Held();
      var status;
      ghost var rid;
      PlainFilter(old(hf.store.view), old(hf.Held()), hf.filter, v.logical);
      status, rid := DeleteNext(hf, chain, pages');
      ExchangedTwice(old(hf.store.view), old(hf.Held()), v, o, hf.store.view, hf.Held());
      OthersSameTwice(old(hf.store.view), v, v, hf.store.view, hf.filePtr);
      FoundCases(status, rid, Skip(Ahead(c, pages'), m), hf.Position(), pages');
      DeleteEnds(pages', c, m, kept, target);
      if status != OK {
        return;
      }
      kept := DeleteStep(pages', c, m, kept, target, rid, hf.Position());
      pages' := pages'[hf.pos := Delete(pages'[hf.pos], hf.curRec.slotNo)];
    }
  }

  lemma FoundCases(st: Status, rid: RID, r: seq<Entry>, c: Cursor, pages: seq<PageImage>)
    requires Found(st, rid, r, c, pages)
    ensures if r == [] then st == FILEEOF else st == if r[0].bytes == [] then INVALIDSLOTNO else OK
    ensures r != [] ==>
              c.pinned && c.pos < |pages| && pages[c.pos].Live(c.slot) && pages[c.pos].slots[c.slot].bytes == r[0].bytes
  {
    hide Ahead;
  }

  lemma DeleteStarts(pages: seq<PageImage>, c: Cursor, m: Bytes -> bool)
    requires Ahead(c, pages) == AllEntries(pages)
    ensures Halfway(pages, c, m, [], Survivors(AllEntries(pages), m))
  {
    hide AllEntries, Ahead;
  }

  /** A scan that has just been opened has every record of the file in front of it. */
  lemma FreshScan(c: Cursor, pages: seq<PageImage>)
    requires c.pinned && c.pageNo >= 0 && c.pos == 0 && c.slot == -1 && pages != []
    ensures Ahead(c, pages) == AllEntries(pages)
  {
  }

  // ----- scanning a whole file

  /** Scans to the end, or to an empty record, and collects the RIDs on the way. */
  method ScanAll(hf: HeapFile, ghost chain: seq<int>, ghost pages: seq<PageImage>) returns (st: Status, rids: seq<RID>)
    requires hf.Valid(chain) && hf.Shows(chain, pages) && hf.Others() < hf.store.bm.numBufs
    requires Ready(hf.store.view, hf.Held(), hf.filter)
    modifies hf, hf.store.Repr(), hf.store.bm.db`files
    ensures hf.Valid(chain) && hf.ScanFrame() && Ready(hf.store.view, hf.Held(), hf.filter)
    ensures rids == RidsOf(Delivered(Ahead(old(hf.Position()), pages), hf.Matches()))
    ensures NoEmptyRecords(Ahead(old(hf.Position()), pages)) ==>
              st == FILEEOF && rids == RidsOf(Matching(Ahead(old(hf.Position()), pages), hf.Matches())) &&
                Ahead(hf.Position(), pages) == []
  {
    hide HeapAt, HeapFile.Valid, HeapFile.Core, HeapFile.Full, HeapFile.OtherPins, Exchanged, PagesOf, Ahead, Skip,
         Found, Delivered, RidsOf, Matching, NoEmptyRecords, Ready, Meaning, Filtering;
    ghost var m, es := hf.Matches(), Ahead(hf.Position(), pages);
    rids := [];
    SameHold(hf.store.view, hf.Held());
    NoRids();
    while true
      invariant hf.Valid(chain) && hf.ScanFrame() && Ready(hf.store.view, hf.Held(), hf.filter)
      invariant rids + RidsOf(Delivered(Ahead(hf.Position(), pages), m)) == RidsOf(Delivered(es, m))
      invariant NoEmptyRecords(es) ==> NoEmptyRecords(Ahead(hf.Position(), pages))
      decreases |Ahead(hf.Position(), pages)|
    {
      ghost var c, v, o := hf.Position(), hf.store.view, hf.Held();
      var rid;
      hf.CoreOf(chain);
      hf.NotFull();
      st, rid := hf.ScanNext(chain, pages);
      ExchangedTwice(old(hf.store.view), old(hf.Held()), v, o, hf.store.view, hf.Held());
      ScanStep(c, hf.Position(), pages, m, st, rid);
      if st != OK {
        if NoEmptyRecords(es) {
          DeliveredIsMatching(es, m);
        }
        return;
      }
      ghost var rest := RidsOf(Delivered(Ahead(hf.Position(), pages), m));
      assert rids + ([rid] + rest) == rids + [rid] + rest;
      rids := rids + [rid];
    }
  }

  function RidsOf(es: seq<Entry>): seq<RID> {
    if es == [] then [] else [es[0].rid] + RidsOf(es[1..])
  }

  lemma NoRids()
    ensures RidsOf([]) == []
  {
  }

  lemma ScanStep(c: Cursor, c': Cursor, pages: seq<PageImage>, m: Bytes -> bool, st: Status, rid: RID)
    requires Found(st, rid, Skip(Ahead(c, pages), m), c', pages)
    ensures var es, d := Ahead(c, pages), Delivered(Ahead(c, pages), m);
            if st == OK then
              && RidsOf(d) == [rid] + RidsOf(Delivered(Ahead(c', pages), m)) && |Ahead(c', pages)| < |es|
              && (NoEmptyRecords(es) ==> NoEmptyRecords(Ahead(c', pages)))
            else
              && RidsOf(d) == [] && (NoEmptyRecords(es) ==> st == FILEEOF && Ahead(c', pages) == [])
  {
    hide Ahead;
    var es := Ahead(c, pages);
    var n := SkippedSurvive(es, m);
    var r := Skip(es, m);
    assert r != [] ==> r[0] == es[n];
    if st == OK {
      var d := Delivered(r[1..], m);
      assert ([r[0]] + d)[1..] == d;
      assert r[1..] == es[n + 1..];
    }
  }

  /**
   Ends a scan and reads the file again. The second scan returns all that a fresh one would if and only if the first
   page has a record or a fresh one would return nothing.
   */
  method Rescan(hf: HeapFile, ghost chain: seq<int>, ghost pages: seq<PageImage>) returns (st: Status, rids: seq<RID>)
    requires hf.Valid(chain) && hf.Shows(chain, pages) && hf.Others() < hf.store.bm.numBufs && hf.curPage
    requires Ready(hf.store.view, hf.Held(), hf.filter)
    modifies hf, hf.store.Repr(), hf.store.bm.db`files
    ensures hf.Valid(chain) && hf.ScanFrame() && pages != []
    ensures rids == RidsOf(Delivered(AllEntries(pages), hf.Matches())) <==>
              PageEntries(pages[0], 0) != [] || Delivered(AllEntries(pages), hf.Matches()) == []
  {
    hide HeapAt, HeapFile.Valid, HeapFile.OtherPins, Exchanged, PagesOf, Ahead, Delivered, RidsOf, Ready, Meaning,
         Filtering, AllEntries;
    hf.LengthOf(chain, pages);
    hf.EndScan(chain);
    ghost var v, o := hf.store.view, hf.Held();
    ReadyKept(old(hf.store.view), old(hf.Held()), v, o, hf.filter);
    ghost var c, m := hf.Position(), hf.Matches();
    st, rids := ScanAll(hf, chain, pages);
    ExchangedTwice(old(hf.store.view), old(hf.Held()), v, o, hf.store.view, hf.Held());
    RestartSees(c, pages, m);
  }

  lemma RestartSees(c: Cursor, pages: seq<PageImage>, m: Bytes -> bool)
    requires !c.pinned && c.pageNo >= 0 && pages != []
    ensures RidsOf(Delivered(Ahead(c, pages), m)) == RidsOf(Delivered(AllEntries(pages), m)) <==>
              PageEntries(pages[0], 0) != [] || Delivered(AllEntries(pages), m) == []
  {
    hide AllEntries;
  }

  // ----- every record has its own RID

  lemma {:induction false} PageRids(p: PageImage, s: nat, i: nat)
    requires i < |PageEntries(p, s)|
    ensures var e := PageEntries(p, s)[i];
            e.rid.pageNo == p.curPage && e.rid.slotNo >= s && p.Live(e.rid.slotNo) &&
              p.slots[e.rid.slotNo].bytes == e.bytes
    decreases |p.slots| - s
  {
    if p.slots[s].Used? {
      if i > 0 {
        PageRids(p, s + 1, i - 1);
      }
    } else {
      PageRids(p, s + 1, i);
    }
  }

  lemma {:induction false} PageRidsRise(p: PageImage, s: nat, i: nat, j: nat)
    requires i < j < |PageEntries(p, s)|
    ensures PageEntries(p, s)[i].rid.slotNo < PageEntries(p, s)[j].rid.slotNo
    decreases |p.slots| - s
  {
    if p.slots[s].Used? {
      if i == 0 {
        PageRids(p, s + 1, j - 1);
      } else {
        PageRidsRise(p, s + 1, i - 1, j - 1);
      }
    } else {
      PageRidsRise(p, s + 1, i, j);
    }
  }

  ghost predicate DistinctPages(pages: seq<PageImage>) {
    forall i, j :: 0 <= i < j < |pages| ==> pages[i].curPage != pages[j].curPage
  }

  lemma {:induction false} EntryPage(pages: seq<PageImage>, i: nat, x: nat) returns (j: nat)
    requires i <= |pages| && x < |Entries(pages, i)|
    ensures i <= j < |pages|
    ensures var e := Entries(pages, i)[x];
            e.rid.pageNo == pages[j].curPage && pages[j].Live(e.rid.slotNo) &&
              pages[j].slots[e.rid.slotNo].bytes == e.bytes
    decreases |pages| - i
  {
    var n := |PageEntries(pages[i], 0)|;
    if x < n {
      PageRids(pages[i], 0, x);
      j := i;
    } else {
      j := EntryPage(pages, i + 1, x - n);
    }
  }

  /** No RID comes twice in a scan. */
  lemma {:induction false} RidsDistinct(pages: seq<PageImage>, i: nat, x: nat, y: nat)
    requires DistinctPages(pages) && i <= |pages| && x < y < |Entries(pages, i)|
    ensures Entries(pages, i)[x].rid != Entries(pages, i)[y].rid
    decreases |pages| - i
  {
    var n := |PageEntries(pages[i], 0)|;
    if y < n {
      PageRidsRise(pages[i], 0, x, y);
    } else if x < n {
      PageRids(pages[i], 0, x);
      var j := EntryPage(pages, i + 1, y - n);
    } else {
      RidsDistinct(pages, i + 1, x - n, y - n);
    }
  }

  /** The outcome of a deletion from file `f`, whose header page counts the records unless one of them is empty. */
  ghost predicate Deleted(l: Logical, f: int, chain: seq<int>, pages: seq<PageImage>, pages': seq<PageImage>,
                          m: Bytes -> bool) {
    && AllEntries(pages') == Survivors(AllEntries(pages), m)
    && (if NoEmptyRecords(AllEntries(pages)) then HeapAt(l, f, 1, chain) && pages' == PagesOf(l, f, chain)
        else Miscounted(l, f, 1, chain, pages'))
  }

  ghost predicate NoPins(v: View, f: int) {
    forall k: Key :: k.file == f ==> v.pins[k] == 0
  }

  lemma SameNoPins(v: View, w: View, f: int)
    requires w.pins == v.pins
    ensures NoPins(v, f) <==> NoPins(w, f)
  {
  }
}
