/** The first phase of a sort: the source file is split into sorted runs, each in a heap file of its own. */
module SortRuns {
  import opened Common
  import opened Compare
  import opened PageSpec
  import opened BufRefine
  import opened BufRuns
  import opened HeapSpec
  import opened Chain
  import opened Storage
  import opened HeapFile
  import opened Session
  import opened Tandem
  import opened SortSpec
  import Query

  // ----- splitting the source

  function First<T>(s: seq<T>, n: int): seq<T>
    requires n >= 0
  {
    if |s| <= n then s else s[..n]
  }

  predicate Readable(recs: seq<Bytes>) {
    forall i :: 0 <= i < |recs| ==> recs[i] != []
  }

  /** The status of sortFile, where `fileStatus` is that of opening a run's file. */
  function SortStatus(source: seq<Bytes>, m: int, fileStatus: Status): Status
    requires m >= 1
    decreases |source|
  {
    if source == [] then OK
    else if !Readable(First(source, m)) then INVALIDSLOTNO
    else if fileStatus != OK then fileStatus
    else SortStatus(source[|First(source, m)|..], m, fileStatus)
  }

  /** If the runs' files can be opened, a sort succeeds unless the source has an empty record. */
  lemma {:induction false} SortSucceedsIff(source: seq<Bytes>, m: int)
    requires m >= 1
    ensures SortStatus(source, m, OK) == if Readable(source) then OK else INVALIDSLOTNO
    decreases |source|
  {
    if source != [] {
      var n := |First(source, m)|;
      SortSucceedsIff(source[n..], m);
      assert source == First(source, m) + source[n..];
    }
  }

  /** The pieces and the status that are left when run generation has come to `pos` and made `n` runs. */
  ghost predicate LeftAt(source: seq<Bytes>, pos: nat, m: int, fileStatus: Status, n: nat)
    requires m >= 1
  {
    && pos <= |source| && n <= |Chunks(source, m)|
    && Chunks(source, m)[n..] == Chunks(source[pos..], m)
    && SortStatus(source, m, fileStatus) == SortStatus(source[pos..], m, fileStatus)
  }

  /** Run generation has come to `pos`, with a sorted run for every piece before it. */
  ghost predicate SplitUpTo(key: SortKey, source: seq<Bytes>, pos: nat, m: int, fileStatus: Status, rs: Runs)
    requires m >= 1
  {
    && LeftAt(source, pos, m, fileStatus, |rs|)
    && forall k :: 0 <= k < |rs| ==> SortedCopy(key, Chunks(source, m)[k], rs[k])
  }

  lemma SplitStarts(key: SortKey, source: seq<Bytes>, m: int, fileStatus: Status)
    requires m >= 1
    ensures SplitUpTo(key, source, 0, m, fileStatus, [])
  {
    assert source[0..] == source;
    assert Chunks(source, m)[0..] == Chunks(source, m);
  }

  lemma ChunkStep(recs: seq<Bytes>, m: int)
    requires m >= 1 && recs != []
    ensures Chunks(recs, m) == [First(recs, m)] + Chunks(recs[|First(recs, m)|..], m)
  {
  }

  lemma LeftStep(source: seq<Bytes>, pos: nat, m: int, fileStatus: Status, n: nat)
    requires m >= 1 && LeftAt(source, pos, m, fileStatus, n) && pos < |source| && fileStatus == OK &&
             Readable(First(source[pos..], m))
    ensures LeftAt(source, pos + |First(source[pos..], m)|, m, fileStatus, n + 1) &&
            Chunks(source, m)[n] == First(source[pos..], m)
  {
    hide Readable, Chunks;
    var b, cs := First(source[pos..], m), Chunks(source, m);
    ChunkStep(source[pos..], m);
    assert source[pos..][|b|..] == source[pos + |b|..];
    assert cs[n] == cs[n..][0] == b;
    assert cs[n + 1..] == cs[n..][1..];
  }

  lemma SplitStep(key: SortKey, source: seq<Bytes>, pos: nat, m: int, fileStatus: Status, rs: Runs, run: seq<Bytes>)
    requires m >= 1 && SplitUpTo(key, source, pos, m, fileStatus, rs) && pos < |source| && fileStatus == OK
    requires Readable(First(source[pos..], m)) && SortedCopy(key, First(source[pos..], m), run)
    ensures SplitUpTo(key, source, pos + |First(source[pos..], m)|, m, fileStatus, rs + [run])
  {
    hide SortedCopy, Readable, LeftAt, Chunks, First;
    LeftStep(source, pos, m, fileStatus, |rs|);
    LeftBounds(source, pos, m, fileStatus, |rs|);
    LeftBounds(source, pos + |First(source[pos..], m)|, m, fileStatus, |rs| + 1);
  }

  lemma LeftBounds(source: seq<Bytes>, pos: nat, m: int, fileStatus: Status, n: nat)
    requires m >= 1 && LeftAt(source, pos, m, fileStatus, n)
    ensures pos <= |source| && n <= |Chunks(source, m)| && (pos < |source| ==> n < |Chunks(source, m)|)
  {
    hide SortStatus;
  }

  lemma SplitEnds(key: SortKey, source: seq<Bytes>, m: int, fileStatus: Status, rs: Runs)
    requires m >= 1 && SplitUpTo(key, source, |source|, m, fileStatus, rs)
    ensures SortStatus(source, m, fileStatus) == OK && Generated(key, Chunks(source, m), rs)
  {
    hide SortedCopy, Chunks;
    assert source[|source|..] == [];
    NoChunks(m);
  }

  lemma NoChunks(m: int)
    requires m >= 1
    ensures Chunks([], m) == []
  {
  }

  lemma SplitFails(key: SortKey, source: seq<Bytes>, pos: nat, m: int, fileStatus: Status, rs: Runs)
    requires m >= 1 && SplitUpTo(key, source, pos, m, fileStatus, rs) && pos < |source|
    ensures |rs| < |Chunks(source, m)|
    ensures !Readable(First(source[pos..], m)) ==> SortStatus(source, m, fileStatus) == INVALIDSLOTNO
    ensures Readable(First(source[pos..], m)) && fileStatus != OK ==> SortStatus(source, m, fileStatus) == fileStatus
  {
    hide SortedCopy, Readable, Chunks;
    LeftBounds(source, pos, m, fileStatus, |rs|);
  }

  // ----- reading the source

  /** An unfiltered scan steps from record to record; only an empty one stops it. */
  lemma NextInOrder(c: Cursor, c': Cursor, pages: seq<PageImage>, st: Status, rid: RID)
    requires Found(st, rid, Skip(Ahead(c, pages), Filtering(NoFilter)), c', pages)
    ensures var es := Ahead(c, pages);
            if es == [] then st == FILEEOF && Ahead(c', pages) == []
            else
              && st == (if es[0].bytes == [] then INVALIDSLOTNO else OK) && Ahead(c', pages) == es[1..] && c'.pinned
              && c'.pos < |pages| && pages[c'.pos].Live(c'.slot) && pages[c'.pos].slots[c'.slot].bytes == es[0].bytes
              && es[0].rid == RID(pages[c'.pos].curPage, c'.slot) && (st == OK ==> rid == es[0].rid)
  {
    hide Ahead;
    var es := Ahead(c, pages);
    assert es != [] ==> Stops(es[0], Filtering(NoFilter));
  }

  /** The next record of a file that is read from beginning to end. */
  method NextRecord(hf: HeapFile, ghost chain: seq<int>, ghost pages: seq<PageImage>)
    returns (st: Status, rid: RID, rec: Bytes)
    requires hf.Valid(chain) && hf.Shows(chain, pages) && !hf.Full() && hf.filter == Unfiltered && hf.curPage
    modifies hf, hf.store.Repr(), hf.store.bm.db`files
    ensures hf.Valid(chain) && hf.ScanFrame() && hf.curPage
    ensures var es := Ahead(old(hf.Position()), pages);
            if es == [] then st == FILEEOF && Ahead(hf.Position(), pages) == []
            else
              && st == (if es[0].bytes == [] then INVALIDSLOTNO else OK) && Ahead(hf.Position(), pages) == es[1..]
              && hf.pos < |pages| && pages[hf.pos].Live(hf.curRec.slotNo) &&
                 pages[hf.pos].slots[hf.curRec.slotNo].bytes == es[0].bytes
              && es[0].rid == RID(pages[hf.pos].curPage, hf.curRec.slotNo) &&
                 (st == OK ==> rid == es[0].rid && rec == es[0].bytes)
  {
    hide HeapAt, HeapFile.Valid, HeapFile.Full, HeapFile.OtherPins, Exchanged, PagesOf, Ahead, Skip, Found, Filtering;
    ghost var c := hf.Position();
    rec := [];
    st, rid := hf.ScanNext(chain, pages);
    NextInOrder(c, hf.Position(), pages, st, rid);
    if st == OK {
      st, rec := hf.GetRecord(chain, pages);
    }
  }

  /** Fills the sort buffer with the next records of the source. */
  method Collect(hfs: HeapFile, key: SortKey, maxItems: int, ghost chain: seq<int>, ghost pages: seq<PageImage>)
    returns (st: Status, buffer: seq<SortRec>)
    requires hfs.Valid(chain) && hfs.Shows(chain, pages) && hfs.Others() < hfs.store.bm.numBufs &&
             hfs.filter == Unfiltered && hfs.curPage
    requires maxItems >= 0
    modifies hfs, hfs.store.Repr(), hfs.store.bm.db`files
    ensures hfs.Valid(chain) && hfs.ScanFrame() && hfs.curPage
    ensures var es := First(Ahead(old(hfs.Position()), pages), maxItems);
            && st == (if NoEmptyRecords(es) then OK else INVALIDSLOTNO)
            && (st == OK ==> Buffers(key, es, buffer) && |es| <= |Ahead(old(hfs.Position()), pages)|
                             && Ahead(hfs.Position(), pages) == Ahead(old(hfs.Position()), pages)[|es|..])
  {
    hide HeapAt, HeapFile.Valid, HeapFile.Core, HeapFile.Full, HeapFile.OtherPins, Exchanged, PagesOf, Ahead,
         NoEmptyRecords, Buffers, KeyField, First, HeapFile.Held;
    ghost var es := Ahead(hfs.Position(), pages);
    buffer := [];
    var numItems := 0;
    SameHold(hfs.store.view, hfs.Held());
    NothingCollected(key, es);
    while numItems < maxItems
      invariant 0 <= numItems <= maxItems && numItems <= |es|
      invariant hfs.Valid(chain) && hfs.ScanFrame() && hfs.curPage
      invariant Ahead(hfs.Position(), pages) == es[numItems..]
      invariant Buffers(key, es[..numItems], buffer) && NoEmptyRecords(es[..numItems])
    {
      ghost var v, o := hfs.store.view, hfs.Held();
      var rid, rec;
      hfs.CoreOf(chain);
      hfs.NotFull();
      st, rid, rec := NextRecord(hfs, chain, pages);
      ExchangedTwice(old(hfs.store.view), old(hfs.Held()), v, o, hfs.store.view, hfs.Held());
      if st == FILEEOF {
        break;
      }
      if st != OK {
        EmptyAmong(es, numItems, maxItems);
        return;
      }
      CollectedOne(key, es, numItems, buffer);
      buffer := buffer + [SortRec(KeyField(key, rec), rid)];
      numItems := numItems + 1;
    }
    AllCollected(es, numItems, maxItems);
    st := OK;
  }

  lemma NothingCollected(key: SortKey, es: seq<Entry>)
    ensures Buffers(key, es[..0], []) && NoEmptyRecords(es[..0]) && es[0..] == es
  {
  }

  lemma CollectedOne(key: SortKey, es: seq<Entry>, n: nat, b: seq<SortRec>)
    requires n < |es| && Buffers(key, es[..n], b) && NoEmptyRecords(es[..n])
    ensures Buffers(key, es[..n + 1], b + [SortRec(KeyField(key, es[n].bytes), es[n].rid)])
    ensures es[n].bytes != [] ==> NoEmptyRecords(es[..n + 1])
    ensures es[n..][1..] == es[n + 1..]
  {
    hide KeyField;
    assert es[..n + 1] == es[..n] + [es[n]];
  }

  lemma AllCollected(es: seq<Entry>, n: nat, m: int)
    requires n <= |es| && n <= m && (n == m || es[n..] == [])
    ensures First(es, m) == es[..n]
  {
  }

  lemma EmptyAmong(es: seq<Entry>, n: nat, m: int)
    requires n < |es| && n < m && es[n].bytes == []
    ensures !NoEmptyRecords(First(es, m))
  {
    assert First(es, m)[n] == es[n];
  }

  // ----- the records behind RIDs

  ghost function EntryMap(es: seq<Entry>): map<RID, Bytes> {
    if es == [] then map[] else EntryMap(es[..|es| - 1])[es[|es| - 1].rid := es[|es| - 1].bytes]
  }

  ghost predicate DistinctRids(es: seq<Entry>) {
    forall i, j :: 0 <= i < j < |es| ==> es[i].rid != es[j].rid
  }

  lemma {:induction false} EntryMapFinds(es: seq<Entry>)
    requires DistinctRids(es)
    ensures Finds(EntryMap(es), es)
  {
    if es != [] {
      EntryMapFinds(es[..|es| - 1]);
    }
  }

  lemma FileRids(v: View, x: HeapImage)
    requires Stored(v, x)
    ensures DistinctRids(AllEntries(x.pages)) && |x.pages| == |x.chain|
  {
    hide PagesOf, HeapAt;
    ChainDistinct(v.logical, x.file, x.chain);
    forall i, j | 0 <= i < j < |AllEntries(x.pages)| ensures AllEntries(x.pages)[i].rid != AllEntries(x.pages)[j].rid {
      Query.RidsDistinct(x.pages, 0, i, j);
    }
  }

  lemma ChainDistinct(l: Logical, f: int, chain: seq<int>)
    requires HeapAt(l, f, 1, chain)
    ensures Query.DistinctPages(PagesOf(l, f, chain))
  {
    hide PagesOf, AllEntries;
    forall i, j | 0 <= i < j < |chain| ensures PagesOf(l, f, chain)[i].curPage != PagesOf(l, f, chain)[j].curPage {
      PageOnChain(l, f, 1, chain, i);
      PageOnChain(l, f, 1, chain, j);
    }
  }

  /** Where a record of the file is: page, slot and length. */
  lemma PlaceOf(v: View, x: HeapImage, e: Entry) returns (i: nat)
    requires Stored(v, x) && e in AllEntries(x.pages)
    ensures i < |x.chain| == |x.pages| && e.rid.pageNo == x.chain[i] && e.rid.slotNo >= 0
    ensures x.pages[i].Live(e.rid.slotNo) && x.pages[i].slots[e.rid.slotNo].bytes == e.bytes && |e.bytes| <= MAX_RECORD
  {
    hide PagesOf, HeapAt;
    var n :| 0 <= n < |AllEntries(x.pages)| && AllEntries(x.pages)[n] == e;
    i := Query.EntryPage(x.pages, 0, n);
    PageFacts(v.logical, x.file, 1, x.chain, i);
    TotalSizeAtLeast(x.pages[i].slots, e.rid.slotNo);
  }

  lemma BufferedEntry(key: SortKey, es: seq<Entry>, b: seq<SortRec>, q: seq<SortRec>, i: nat) returns (e: Entry)
    requires Buffers(key, es, b) && multiset(q) == multiset(b) && i < |q|
    ensures e in es && q[i].rid == e.rid
  {
    hide KeyField;
    assert q[i] in multiset(q);
    assert q[i] in b;
    var j :| 0 <= j < |b| && b[j] == q[i];
    e := es[j];
  }

  // ----- writing a run

  /** The entry behind element `i` of the sorted buffer, and its page. */
  lemma FetchPlace(key: SortKey, v: View, src: HeapImage, all: map<RID, Bytes>, es: seq<Entry>, b: seq<SortRec>,
                   q: seq<SortRec>, i: nat) returns (j: nat)
    requires Stored(v, src) && Finds(all, AllEntries(src.pages)) && (forall e :: e in es ==> e in AllEntries(src.pages))
    requires Buffers(key, es, b) && multiset(q) == multiset(b) && NoEmptyRecords(es) && i < |q|
    ensures j < |src.chain| == |src.pages| && q[i].rid.pageNo == src.chain[j] && q[i].rid.slotNo >= 0
    ensures src.pages[j].Live(q[i].rid.slotNo) && src.pages[j].slots[q[i].rid.slotNo].bytes == Records(all, q)[i]
    ensures Records(all, q)[i] != [] && |Records(all, q)[i]| <= MAX_RECORD
  {
    hide Stored, Buffers, AllEntries;
    var e := BufferedEntry(key, es, b, q, i);
    j := PlaceOf(v, src, e);
  }

  /** What is known about the sorted buffer `q` while a run is being written. */
  ghost predicate Fetchable(key: SortKey, src: HeapImage, all: map<RID, Bytes>, es: seq<Entry>, b: seq<SortRec>,
                            q: seq<SortRec>) {
    && Finds(all, AllEntries(src.pages)) && (forall e :: e in es ==> e in AllEntries(src.pages))
    && Buffers(key, es, b) && multiset(q) == multiset(b) && NoEmptyRecords(es)
  }

  /** Copies one record from the source to the end of the run. */
  method CopyRecord(hfile: HeapFile, out: HeapFile, rid: RID, ghost b: Base, ghost pre: seq<Hold>, ghost src: HeapImage,
                    ghost j: nat, ghost run: HeapImage)
    returns (ghost run': HeapImage)
    requires hfile != out && hfile.store == out.store && hfile.filePtr == src.file && out.filePtr == run.file &&
             src.file != run.file
    requires hfile.Valid(src.chain) && hfile.Shows(src.chain, src.pages) && hfile.curPage
    requires out.Valid(run.chain) && out.Shows(run.chain, run.pages) && out.inserting && out.curPage &&
             out.pos == |run.chain| - 1
    requires Over(b, out.store.view, pre + [out.Held(), hfile.Held()]) && |out.store.view.pins| < out.store.bm.numBufs
    requires j < |src.chain| == |src.pages| && rid.pageNo == src.chain[j] && rid.slotNo >= 0 &&
             src.pages[j].Live(rid.slotNo)
    requires 0 < |src.pages[j].slots[rid.slotNo].bytes| <= MAX_RECORD
    modifies hfile, out, out.store.Repr(), out.store.bm.db`files
    ensures hfile.Valid(src.chain) && hfile.Shows(src.chain, src.pages) && hfile.curPage
    ensures run'.file == run.file && out.Valid(run'.chain) && out.Shows(run'.chain, run'.pages) && out.curPage &&
            out.pos == |run'.chain| - 1
    ensures Over(b, out.store.view, pre + [out.Held(), hfile.Held()]) &&
            |out.store.view.pins| == |old(out.store.view.pins)|
    ensures OthersSame(old(out.store.view), out.store.view, out.filePtr)
    ensures run.pages != [] && run'.pages == InsertPages(run.pages, src.pages[j].slots[rid.slotNo].bytes, out.curPageNo)
  {
    hide HeapAt, HeapFile.Valid, HeapFile.Core, HeapFile.Shows, HeapFile.Fields, OthersSame, Over, PagesOf, InsertPages,
         Store.Valid, Holding;
    ghost var v := out.store.view;
    var st, record := FetchByRid(hfile, out, b, pre, src.chain, src.pages, run.chain, run.pages, j, rid);
    ghost var v1 := out.store.view;
    OthersSameNow(v, out.filePtr);
    OthersSameTwice(v, v, v1, v1, out.filePtr);
    ghost var chain', pages' := Emit(hfile, out, b, pre, src.chain, src.pages, run.chain, run.pages, record);
    run' := HeapImage(run.file, chain', pages');
    OthersSameTwice(v, v1, v1, out.store.view, out.filePtr);
  }

  /** Writes the records of the sorted buffer to the run, each fetched again by its RID. */
  method WriteRun(hfile: HeapFile, out: HeapFile, q: seq<SortRec>, ghost key: SortKey, ghost b: Base,
                  ghost pre: seq<Hold>, ghost src: HeapImage,
                  ghost run: HeapImage, ghost all: map<RID, Bytes>, ghost es: seq<Entry>, ghost buffer: seq<SortRec>)
    returns (ghost run': HeapImage, ghost nos: seq<int>)
    requires hfile != out && hfile.store == out.store && hfile.filePtr == src.file && out.filePtr == run.file &&
             src.file != run.file
    requires hfile.Valid(src.chain) && hfile.Shows(src.chain, src.pages) && hfile.curPage && hfile.headerPageNo == 1
    requires out.Valid(run.chain) && out.Shows(run.chain, run.pages) && out.inserting && out.curPage &&
             out.pos == |run.chain| - 1
    requires Over(b, out.store.view, pre + [out.Held(), hfile.Held()]) &&
             |out.store.view.pins| < out.store.bm.numBufs && run.pages != []
    requires Fetchable(key, src, all, es, buffer, q)
    modifies hfile, out, out.store.Repr(), out.store.bm.db`files
    ensures hfile.Valid(src.chain) && hfile.Shows(src.chain, src.pages) && hfile.curPage
    ensures run'.file == run.file && out.Valid(run'.chain) && out.Shows(run'.chain, run'.pages) && out.curPage
    ensures Over(b, out.store.view, pre + [out.Held(), hfile.Held()]) &&
            |out.store.view.pins| == |old(out.store.view.pins)|
    ensures OthersSame(old(out.store.view), out.store.view, out.filePtr)
    ensures |nos| == |q| && run'.pages == InsertAll(run.pages, Records(all, q), nos)
  {
    hide HeapAt, HeapFile.Core, HeapFile.Shows, HeapFile.Fields, HeapFile.Valid, OthersSame, Over, PagesOf, InsertPages,
         InsertAll, Store.Valid, Holding, Records, Fetchable, Stored;
    run', nos := run, [];
    ghost var recs := Records(all, q);
    ghost var done: seq<Bytes> := [];
    OthersSameNow(out.store.view, out.filePtr);
    NoneInserted(run.pages);
    RecordCount(all, q);
    for i := 0 to |q|
      invariant hfile.Valid(src.chain) && hfile.Shows(src.chain, src.pages) && hfile.curPage
      invariant run'.file == run.file && out.Valid(run'.chain) && out.Shows(run'.chain, run'.pages) && out.curPage &&
                out.pos == |run'.chain| - 1
      invariant Over(b, out.store.view, pre + [out.Held(), hfile.Held()]) &&
                |out.store.view.pins| == |old(out.store.view.pins)|
      invariant OthersSame(old(out.store.view), out.store.view, out.filePtr)
      invariant done == recs[..i] && |nos| == i && run'.pages == InsertAll(run.pages, done, nos)
    {
      ghost var v := out.store.view;
      ShownIsStored(hfile, src);
      ghost var j := RecordPlace(key, v, src, all, es, buffer, q, i);
      run' := CopyRecord(hfile, out, q[i].rid, b, pre, src, j, run');
      OthersSameTwice(old(out.store.view), v, v, out.store.view, out.filePtr);
      InsertOne(run.pages, done, nos, recs[i], out.curPageNo);
      done, nos := done + [recs[i]], nos + [out.curPageNo];
    }
    assert recs[..|q|] == recs;
  }

  lemma RecordPlace(key: SortKey, v: View, src: HeapImage, all: map<RID, Bytes>, es: seq<Entry>, b: seq<SortRec>,
                    q: seq<SortRec>, i: nat) returns (j: nat)
    requires Stored(v, src) && Fetchable(key, src, all, es, b, q) && i < |q|
    ensures j < |src.chain| == |src.pages| && q[i].rid.pageNo == src.chain[j] && q[i].rid.slotNo >= 0 &&
            src.pages[j].Live(q[i].rid.slotNo)
    ensures i < |Records(all, q)| && src.pages[j].slots[q[i].rid.slotNo].bytes == Records(all, q)[i] &&
            0 < |Records(all, q)[i]| <= MAX_RECORD
  {
    hide Stored, Finds, Buffers;
    j := FetchPlace(key, v, src, all, es, b, q, i);
  }

  lemma RecordCount(all: map<RID, Bytes>, q: seq<SortRec>)
    ensures |Records(all, q)| == |q|
  {
  }

  lemma NoneInserted(pages: seq<PageImage>)
    requires pages != []
    ensures InsertAll(pages, [], []) == pages
  {
  }

  lemma ShownIsStored(hf: HeapFile, x: HeapImage)
    requires hf.Valid(x.chain) && hf.Shows(x.chain, x.pages) && hf.filePtr == x.file && hf.headerPageNo == 1
    ensures Stored(hf.store.view, x)
  {
    hide HeapAt, PagesOf, Holding, Store.Valid;
  }

  /** In an empty file the records inserted are all there is, in the order of insertion. */
  lemma RunContents(pages: seq<PageImage>, recs: seq<Bytes>, nos: seq<int>)
    requires pages != [] && AllEntries(pages) == [] && |recs| == |nos| &&
             forall i :: 0 <= i < |recs| ==> |recs[i]| <= MAX_RECORD
    ensures BytesOf(AllEntries(InsertAll(pages, recs, nos))) == recs
  {
    hide InsertAll, Entries;
    var all := Filtering(NoFilter);
    LastIsEmpty(pages, 0);
    InsertedInOrder(pages, recs, nos, all, 0);
    AllMatch(AllEntries(pages));
    AllMatch(AllEntries(InsertAll(pages, recs, nos)));
  }

  lemma {:induction false} LastIsEmpty(pages: seq<PageImage>, i: nat)
    requires i < |pages| && Entries(pages, i) == []
    ensures PageEntries(pages[|pages| - 1], 0) == []
    decreases |pages| - i
  {
    if i < |pages| - 1 {
      LastIsEmpty(pages, i + 1);
    }
  }

  /** The run is in its file: `recs` are its records in scan order. */
  ghost predicate RunStored(v: View, x: HeapImage, f: int, recs: seq<Bytes>) {
    Stored(v, x) && x.file == f && BytesOf(AllEntries(x.pages)) == recs
  }

  /** Opens the source, copies the records to the run, and closes the source again. */
  method CopyRecords(s: Store, f: int, out: HeapFile, q: seq<SortRec>, ghost key: SortKey, ghost b: Base,
                     ghost pre: seq<Hold>, ghost src: HeapImage,
                     ghost run: HeapImage, ghost all: map<RID, Bytes>, ghost es: seq<Entry>, ghost buffer: seq<SortRec>)
    returns (ghost run': HeapImage, ghost nos: seq<int>)
    requires s.Valid() && Stored(s.view, src) && src.file == f && out.store == s && out.filePtr == run.file != f &&
             run.pages != []
    requires f in s.bm.db.openCnt && s.bm.db.openCnt[f] >= 0
    requires out.Valid(run.chain) && out.Shows(run.chain, run.pages) && out.inserting && out.curPage &&
             out.pos == |run.chain| - 1
    requires Over(b, s.view, pre + [out.Held()]) && |s.view.pins| + 3 <= s.bm.numBufs
    requires Fetchable(key, src, all, es, buffer, q)
    modifies out, s.Repr(), s.bm.db
    ensures run'.file == run.file && out.Valid(run'.chain) && out.Shows(run'.chain, run'.pages) && out.curPage
    ensures Over(b, s.view, pre + [out.Held()]) && |s.view.pins| == |old(s.view.pins)| &&
            s.bm.db.openCnt == old(s.bm.db.openCnt)
    ensures OthersSame(old(s.view), s.view, run.file)
    ensures |nos| == |Records(all, q)| && run'.pages == InsertAll(run.pages, Records(all, q), nos)
  {
    hide HeapAt, HeapFile.Core, HeapFile.Valid, HeapFile.Shows, HeapFile.Fields, OthersSame, Over, PagesOf, InsertAll,
         Store.Valid, Holding, Records, Fetchable;
    ghost var v := s.view;
    OthersSameNow(v, run.file);
    RecordCount(all, q);
    var hfile := OpenReader(s, f, out, b, pre, src.chain, run.chain, run.pages);
    ShowsSame(hfile, src.chain, src.pages, v);
    ghost var v0 := s.view;
    OthersSameTwice(v, v, v0, v0, run.file);
    run', nos := WriteRun(hfile, out, q, key, b, pre, src, run, all, es, buffer);
    ghost var v1 := s.view;
    OthersSameTwice(v, v0, v0, v1, run.file);
    hfile.CoreOf(src.chain);
    CloseReader(hfile, out, b, pre, run'.chain, run'.pages);
    OthersSameTwice(v, v1, s.view, s.view, run.file);
    OpenThenClose(old(s.bm.db.openCnt), f);
  }

  /** Opens the run's file, writes the run, and closes the file again. */
  method FillRun(s: Store, f: int, file: int, q: seq<SortRec>, ghost key: SortKey, ghost b: Base, ghost pre: seq<Hold>,
                 ghost src: HeapImage,
                 ghost run: HeapImage, ghost all: map<RID, Bytes>, ghost es: seq<Entry>, ghost buffer: seq<SortRec>)
    returns (ghost run': HeapImage)
    requires s.Valid() && Stored(s.view, src) && src.file == f && RunStored(s.view, run, file, []) && f != file
    requires f in s.bm.db.openCnt && s.bm.db.openCnt[f] >= 0 && file in s.bm.db.openCnt && s.bm.db.openCnt[file] >= 0
    requires Over(b, s.view, pre) && |s.view.pins| + 5 <= s.bm.numBufs
    requires Fetchable(key, src, all, es, buffer, q)
    modifies s.Repr(), s.bm.db
    ensures s.Valid() && Over(b, s.view, pre) && |s.view.pins| == |old(s.view.pins)| &&
            s.bm.db.openCnt == old(s.bm.db.openCnt)
    ensures OthersSame(old(s.view), s.view, file) && RunStored(s.view, run', file, Records(all, q))
  {
    hide HeapAt, HeapFile.Core, HeapFile.Valid, HeapFile.Shows, HeapFile.Fields, OthersSame, Over, PagesOf, InsertAll,
         Store.Valid, Holding, Records, Fetchable, AllEntries, BytesOf, Durable, Query.NoPins, Stored, RunStored;
    ghost var v := s.view;
    RunParts(v, run, file, []);
    OthersSameNow(v, file);
    var out := OpenForInsert(s, file, b, pre, run.chain, run.pages);
    out.ValidParts(run.chain);
    ghost var v0, nos := s.view, [];
    OthersSameTwice(v, v, v0, v0, file);
    SameStored(v, v0, src);
    run', nos := CopyRecords(s, f, out, q, key, b, pre, src, run, all, es, buffer);
    ghost var v1 := s.view;
    OthersSameTwice(v, v0, v0, v1, file);
    out.CoreOf(run'.chain);
    ShownIsStored(out, run');
    CloseLast(out, b, pre);
    OthersSameTwice(v, v1, s.view, s.view, file);
    SameStored(v1, s.view, run');
    WrittenRun(key, v, src, run, run', all, es, buffer, q, nos);
    RunParts(s.view, run', file, Records(all, q));
    OpenThenClose(old(s.bm.db.openCnt), file);
  }

  lemma RunParts(v: View, x: HeapImage, f: int, recs: seq<Bytes>)
    ensures RunStored(v, x, f, recs) <==> Stored(v, x) && x.file == f && BytesOf(AllEntries(x.pages)) == recs
    ensures Stored(v, x) <==>
              x.file in v.free && HeapAt(v.logical, x.file, 1, x.chain) &&
              x.pages == PagesOf(v.logical, x.file, x.chain)
    ensures RunStored(v, x, f, []) ==> AllEntries(x.pages) == []
  {
    hide AllEntries, HeapAt, PagesOf;
  }

  lemma WrittenRun(key: SortKey, v: View, src: HeapImage, run: HeapImage, run': HeapImage, all: map<RID, Bytes>,
                   es: seq<Entry>, buffer: seq<SortRec>, q: seq<SortRec>, nos: seq<int>)
    requires Stored(v, src) && Fetchable(key, src, all, es, buffer, q) && run.pages != [] && AllEntries(run.pages) == []
    requires |nos| == |Records(all, q)| && run'.pages == InsertAll(run.pages, Records(all, q), nos)
    ensures BytesOf(AllEntries(run'.pages)) == Records(all, q)
  {
    hide Stored, Fetchable, AllEntries, BytesOf, InsertAll, Records;
    RecordCount(all, q);
    forall i | 0 <= i < |q| ensures |Records(all, q)[i]| <= MAX_RECORD {
      var j := RecordPlace(key, v, src, all, es, buffer, q, i);
    }
    RunContents(run.pages, Records(all, q), nos);
  }

  /**
   Sorts the buffer and writes it out as a run, if the run's file can be opened. The scan of the source stays where it
   is.
   */
  method GenerateRun(hfs: HeapFile, key: SortKey, buffer: seq<SortRec>, file: int,
                     qsort: (SortKey, seq<SortRec>) -> seq<SortRec>, fileStatus: Status,
                     ghost b: Base, ghost src: HeapImage, ghost run: HeapImage, ghost all: map<RID, Bytes>,
                       ghost es: seq<Entry>)
    returns (st: Status, ghost run': HeapImage, ghost recs: seq<Bytes>)
    requires hfs.Valid(src.chain) && hfs.Shows(src.chain, src.pages) && hfs.filePtr == src.file &&
             hfs.headerPageNo == 1 && src.file != file
    requires RunStored(hfs.store.view, run, file, []) && Over(b, hfs.store.view, [hfs.Held()]) &&
             |hfs.store.view.pins| + 5 <= hfs.store.bm.numBufs
    requires src.file in hfs.store.bm.db.openCnt && hfs.store.bm.db.openCnt[src.file] >= 0
    requires file in hfs.store.bm.db.openCnt && hfs.store.bm.db.openCnt[file] >= 0
    requires Finds(all, AllEntries(src.pages)) && (forall e :: e in es ==> e in AllEntries(src.pages)) &&
             NoEmptyRecords(es) && Buffers(key, es, buffer)
    requires GoodScan(key.offset, key.length, key.kind) && SortedBuffer(Alone(key), buffer, qsort(Alone(key), buffer))
    modifies hfs.store.Repr(), hfs.store.bm.db
    ensures hfs.Valid(src.chain) && hfs.Shows(src.chain, src.pages)
    ensures Over(b, hfs.store.view, [hfs.Held()]) && |hfs.store.view.pins| == |old(hfs.store.view.pins)|
    ensures hfs.store.bm.db.openCnt == old(hfs.store.bm.db.openCnt) &&
            OthersSame(old(hfs.store.view), hfs.store.view, file)
    ensures st == fileStatus
    ensures st == OK ==> RunStored(hfs.store.view, run', file, recs) && SortedCopy(key, BytesOf(es), recs)
  {
    hide HeapAt, HeapFile.Valid, HeapFile.Core, HeapFile.Fields, HeapFile.Shows, OthersSame, Over, PagesOf, Store.Valid,
         Holding, RunStored, Records, Buffers, SortedBuffer, SortedCopy, Fetchable, AllEntries, BytesOf, NoEmptyRecords,
         Finds, Alone;
    ghost var v := hfs.store.view;
    OthersSameNow(v, file);
    run', recs := run, [];
    st := fileStatus;
    if fileStatus == OK {
      var q := qsort(Alone(key), buffer);
      hfs.ValidParts(src.chain);
      ShownIsStored(hfs, src);
      SortedIsFetchable(key, src, all, es, buffer, q);
      run' := FillRun(hfs.store, hfs.filePtr, file, q, key, b, [hfs.Held()], src, run, all, es, buffer);
      recs := Records(all, q);
      BufferSorted(key, all, es, buffer, q);
      StaysOpen(hfs, src, v, file, b);
    }
  }

  lemma SortedIsFetchable(key: SortKey, src: HeapImage, all: map<RID, Bytes>, es: seq<Entry>, buffer: seq<SortRec>,
                          q: seq<SortRec>)
    requires Finds(all, AllEntries(src.pages)) && (forall e :: e in es ==> e in AllEntries(src.pages)) &&
             NoEmptyRecords(es) && Buffers(key, es, buffer)
    requires SortedBuffer(Alone(key), buffer, q)
    ensures Fetchable(key, src, all, es, buffer, q) && Finds(all, es)
  {
    hide KeyField, AllEntries, RunSorted, AllOrdered;
    forall i | 0 <= i < |es| ensures es[i].rid in all && all[es[i].rid] == es[i].bytes {
      assert es[i] in AllEntries(src.pages);
    }
  }

  lemma StaysOpen(hfs: HeapFile, src: HeapImage, v: View, file: int, b: Base)
    requires hfs.store.Valid() && Stored(v, src) && hfs.filePtr == src.file != file && hfs.headerPageNo == 1 &&
             hfs.Fields(src.chain)
    requires OthersSame(v, hfs.store.view, file) && Over(b, hfs.store.view, [hfs.Held()])
    ensures hfs.Valid(src.chain) && hfs.Shows(src.chain, src.pages)
  {
    hide HeapAt, PagesOf, Over, OthersSame, Store.Valid, HeapFile.Fields, HeapFile.Valid, HeapFile.Shows;
    Revalidated(hfs, src.chain, src.pages, v, file, b, [hfs.Held()], 0);
  }

  // ----- all runs

  /** The files of the runs hold `contents`. */
  ghost predicate AllStored(v: View, files: seq<int>, xs: seq<HeapImage>, contents: Runs) {
    |xs| == |contents| <= |files| && forall k :: 0 <= k < |xs| ==> RunStored(v, xs[k], files[k], contents[k])
  }

  /** The source and the files of the runs are different files. */
  predicate DistinctFiles(files: seq<int>, f: int) {
    f !in files && NoTwice(files)
  }

  predicate NoTwice(files: seq<int>) {
    forall i, j :: 0 <= i < j < |files| ==> files[i] != files[j]
  }

  lemma StoredTwice(v: View, w: View, files: seq<int>, xs: seq<HeapImage>, contents: Runs)
    requires AllStored(v, files, xs, contents) && w.logical == v.logical && w.free == v.free
    ensures AllStored(w, files, xs, contents)
  {
    hide Stored;
    forall k | 0 <= k < |xs| ensures RunStored(w, xs[k], files[k], contents[k]) {
      SameStored(v, w, xs[k]);
    }
  }

  lemma RunAdded(v: View, w: View, files: seq<int>, f: int, xs: seq<HeapImage>, contents: Runs, n: nat, x: HeapImage,
                 recs: seq<Bytes>)
    requires AllStored(v, files, xs, contents) && DistinctFiles(files, f) && n < |xs|
    requires OthersSame(v, w, files[n]) && RunStored(w, x, files[n], recs)
    ensures AllStored(w, files, xs[n := x], contents[n := recs])
  {
    hide Stored, OthersSame;
    forall k | 0 <= k < |xs| ensures RunStored(w, xs[n := x][k], files[k], contents[n := recs][k]) {
      if k != n {
        assert files[k] != files[n] by {
          if k < n {
          } else {
          }
        }
        StoredSame(v, w, files[n], xs[k]);
      }
    }
  }

  /** The first `n` files hold the runs made so far, the others are empty. */
  ghost predicate Written(v: View, files: seq<int>, xs: seq<HeapImage>, contents: Runs, rs: Runs) {
    && AllStored(v, files, xs, contents) && |xs| == |files|
    && |rs| <= |contents| && contents[..|rs|] == rs && forall k :: |rs| <= k < |contents| ==> contents[k] == []
  }

  lemma WrittenOne(v: View, w: View, files: seq<int>, f: int, xs: seq<HeapImage>, contents: Runs, rs: Runs,
                   x: HeapImage, recs: seq<Bytes>)
    requires Written(v, files, xs, contents, rs) && DistinctFiles(files, f) && |rs| < |files|
    requires OthersSame(v, w, files[|rs|]) && RunStored(w, x, files[|rs|], recs)
    ensures Written(w, files, xs[|rs| := x], contents[|rs| := recs], rs + [recs])
  {
    hide AllStored, OthersSame, RunStored, DistinctFiles;
    WrittenLength(v, files, xs, contents, rs);
    RunAdded(v, w, files, f, xs, contents, |rs|, x, recs);
  }

  lemma WrittenLength(v: View, files: seq<int>, xs: seq<HeapImage>, contents: Runs, rs: Runs)
    requires Written(v, files, xs, contents, rs)
    ensures |xs| == |contents| == |files| >= |rs|
  {
  }

  lemma NextIsEmpty(v: View, files: seq<int>, xs: seq<HeapImage>, contents: Runs, rs: Runs)
    requires Written(v, files, xs, contents, rs) && |rs| < |files|
    ensures |rs| < |xs| == |contents| && RunStored(v, xs[|rs|], files[|rs|], [])
  {
    hide RunStored;
  }

  lemma WrittenTwice(v: View, w: View, files: seq<int>, xs: seq<HeapImage>, contents: Runs, rs: Runs)
    requires Written(v, files, xs, contents, rs) && w.logical == v.logical && w.free == v.free
    ensures Written(w, files, xs, contents, rs)
  {
    hide AllStored;
    StoredTwice(v, w, files, xs, contents);
  }

  lemma PieceBytes(es: seq<Entry>, a: nat, b: nat)
    requires a <= b <= |es|
    ensures |BytesOf(es)| == |es| && BytesOf(es[a..b]) == BytesOf(es)[a..b]
    ensures NoEmptyRecords(es[a..b]) <==> Readable(BytesOf(es[a..b]))
  {
    hide BytesOf;
    BytesOfEach(es);
    BytesOfEach(es[a..b]);
    assert BytesOf(es[a..b]) == BytesOf(es)[a..b];
  }

  lemma FirstSlice<T>(s: seq<T>, pos: nat, m: int)
    requires pos <= |s| && m >= 0
    ensures First(s[pos..], m) == s[pos..if |s| - pos <= m then |s| else pos + m]
  {
  }

  /** The records collected are the next piece of the source. */
  lemma NextPiece(all: seq<Entry>, pos: nat, m: int)
    requires pos <= |all| && m >= 0
    ensures |BytesOf(all)| == |all|
    ensures var es := First(all[pos..], m);
            && BytesOf(es) == First(BytesOf(all)[pos..], m) &&
               (NoEmptyRecords(es) <==> Readable(First(BytesOf(all)[pos..], m)))
            && (forall e :: e in es ==> e in all) && pos + |es| <= |all| && all[pos..][|es|..] == all[pos + |es|..]
  {
    hide BytesOf, NoEmptyRecords, Readable, First;
    var b := if |all| - pos <= m then |all| else pos + m;
    PieceBytes(all, pos, b);
    FirstSlice(all, pos, m);
    FirstSlice(BytesOf(all), pos, m);
  }

  /** The files that are open here have counts. */
  predicate Counted(counts: map<int, int>, files: seq<int>, f: int) {
    f in counts && counts[f] >= 0 && forall k :: 0 <= k < |files| ==> files[k] in counts && counts[files[k]] >= 0
  }

  /** The source is being read: its scan is the only object on top of `b`, and it has come to record `pos`. */
  ghost predicate Reading(hfs: HeapFile, src: HeapImage, b: Base, pos: nat)
    reads hfs, hfs.store, hfs.store.bm, hfs.store.bm.db, hfs.store.bm.hashTable, hfs.store.bm.hashTable.ht,
          hfs.store.bm.bufTable, hfs.store.bm.bufPool
  {
    && hfs.Valid(src.chain) && hfs.Shows(src.chain, src.pages) && hfs.filePtr == src.file && hfs.headerPageNo == 1
    && hfs.curPage && hfs.filter == Unfiltered && Over(b, hfs.store.view, [hfs.Held()])
    && pos <= |AllEntries(src.pages)| && Ahead(hfs.Position(), src.pages) == AllEntries(src.pages)[pos..]
  }

  /** Fills the buffer while nothing else is going on. */
  method Fill(hfs: HeapFile, key: SortKey, maxItems: int, ghost b: Base, ghost src: HeapImage, ghost pos: nat)
    returns (st: Status, buffer: seq<SortRec>)
    requires Reading(hfs, src, b, pos) && |hfs.store.view.pins| <= hfs.store.bm.numBufs && maxItems >= 0
    modifies hfs, hfs.store.Repr(), hfs.store.bm.db`files
    ensures hfs.Valid(src.chain) && Over(b, hfs.store.view, [hfs.Held()]) &&
            |hfs.store.view.pins| == |old(hfs.store.view.pins)|
    ensures hfs.store.view.logical == old(hfs.store.view.logical) && hfs.store.view.free == old(hfs.store.view.free)
    ensures pos <= |AllEntries(src.pages)| && pos <= |BytesOf(AllEntries(src.pages))|
    ensures var piece := First(BytesOf(AllEntries(src.pages))[pos..], maxItems);
            && st == (if Readable(piece) then OK else INVALIDSLOTNO)
            && (st == OK ==>
                |buffer| == |piece| && Buffers(key, First(AllEntries(src.pages)[pos..], maxItems), buffer) &&
                Reading(hfs, src, b, pos + |piece|))
  {
    hide HeapAt, HeapFile.Valid, Over, PagesOf, Ahead, AllEntries, NoEmptyRecords, Readable, Buffers, Store.Valid,
         Holding, First, BytesOf, Exchanged;
    ghost var v, o, all := hfs.store.view, hfs.Held(), AllEntries(src.pages);
    NextPiece(all, pos, maxItems);
    st, buffer := Collect(hfs, key, maxItems, src.chain, src.pages);
    hfs.ValidParts(src.chain);
    WorkOver(b, v, [o], 0, hfs.store.view, hfs.Held());
    assert [o][0 := hfs.Held()] == [hfs.Held()];
    if st == OK {
      BufferLength(key, First(all[pos..], maxItems), buffer);
    }
  }

  lemma BufferLength(key: SortKey, es: seq<Entry>, b: seq<SortRec>)
    requires Buffers(key, es, b)
    ensures |b| == |es| == |BytesOf(es)|
  {
    hide BytesOf, KeyField;
    BytesOfEach(es);
  }

  lemma ReadingParts(hfs: HeapFile, src: HeapImage, b: Base, pos: nat)
    ensures Reading(hfs, src, b, pos) <==>
              && hfs.Valid(src.chain) && hfs.Shows(src.chain, src.pages) && hfs.filePtr == src.file &&
                 hfs.headerPageNo == 1
              && hfs.curPage && hfs.filter == Unfiltered && Over(b, hfs.store.view, [hfs.Held()])
              && pos <= |AllEntries(src.pages)| && Ahead(hfs.Position(), src.pages) == AllEntries(src.pages)[pos..]
  {
    hide HeapAt, HeapFile.Valid, Over, PagesOf, Ahead, AllEntries;
  }

  /** Writes the buffer out as the next run. */
  method AddRun(hfs: HeapFile, key: SortKey, buffer: seq<SortRec>, files: seq<int>, n: nat,
                qsort: (SortKey, seq<SortRec>) -> seq<SortRec>, fileStatus: Status,
                ghost b: Base, ghost src: HeapImage, ghost pos: nat, ghost es: seq<Entry>, ghost xs: seq<HeapImage>,
                  ghost contents: Runs, ghost rs: Runs)
    returns (st: Status, ghost xs': seq<HeapImage>, ghost contents': Runs, ghost recs: seq<Bytes>)
    requires Reading(hfs, src, b, pos) && |hfs.store.view.pins| + 5 <= hfs.store.bm.numBufs
    requires Written(hfs.store.view, files, xs, contents, rs) && n == |rs| < |files| && DistinctFiles(files, src.file)
    requires Counted(hfs.store.bm.db.openCnt, files, src.file)
    requires (forall e :: e in es ==> e in AllEntries(src.pages)) && NoEmptyRecords(es) && Buffers(key, es, buffer)
    requires GoodScan(key.offset, key.length, key.kind) && SortedBuffer(Alone(key), buffer, qsort(Alone(key), buffer))
    modifies hfs.store.Repr(), hfs.store.bm.db
    ensures Reading(hfs, src, b, pos) && |hfs.store.view.pins| == |old(hfs.store.view.pins)| &&
            hfs.store.bm.db.openCnt == old(hfs.store.bm.db.openCnt)
    ensures st == fileStatus && OthersSame(old(hfs.store.view), hfs.store.view, files[n])
    ensures st == OK ==>
              SortedCopy(key, BytesOf(es), recs) && Written(hfs.store.view, files, xs', contents', rs + [recs])
  {
    hide HeapAt, HeapFile.Valid, HeapFile.Shows, Over, PagesOf, Ahead, AllEntries, NoEmptyRecords, Buffers, Store.Valid,
         Holding, BytesOf, Written, SortedBuffer, SortedCopy, OthersSame, Reading, DistinctFiles, RunStored, Alone,
         Finds, Stored;
    ghost var v := hfs.store.view;
    ReadingParts(hfs, src, b, pos);
    ShownIsStored(hfs, src);
    FileRids(v, src);
    EntryMapFinds(AllEntries(src.pages));
    NextIsEmpty(v, files, xs, contents, rs);
    Apart(files, n, src.file);
    ghost var x;
    xs', contents' := xs, contents;
    st, x, recs := GenerateRun(hfs, key, buffer, files[n], qsort, fileStatus, b, src, xs[n],
                               EntryMap(AllEntries(src.pages)), es);
    ReadingParts(hfs, src, b, pos);
    if st == OK {
      WrittenOne(v, hfs.store.view, files, src.file, xs, contents, rs, x, recs);
      xs', contents' := xs[n := x], contents[n := recs];
    }
  }

  lemma Apart(files: seq<int>, n: nat, f: int)
    requires DistinctFiles(files, f) && n < |files|
    ensures files[n] != f
  {
    assert files[n] in files;
  }

  ghost function SourceOf(src: HeapImage): seq<Bytes> {
    BytesOf(AllEntries(src.pages))
  }

  /** The loop of sortFile: collects and writes runs until the source is exhausted. */
  method SplitLoop(hfs: HeapFile, key: SortKey, maxItems: int, files: seq<int>,
                   qsort: (SortKey, seq<SortRec>) -> seq<SortRec>, fileStatus: Status,
                   ghost b: Base, ghost src: HeapImage, ghost xs: seq<HeapImage>)
    returns (st: Status, n: nat, ghost xs': seq<HeapImage>, ghost contents: Runs, ghost rs: Runs)
    requires Reading(hfs, src, b, 0) && |hfs.store.view.pins| + 5 <= hfs.store.bm.numBufs && maxItems >= 1
    requires Written(hfs.store.view, files, xs, Blank(|files|), []) && DistinctFiles(files, src.file)
    requires Counted(hfs.store.bm.db.openCnt, files, src.file) && |Chunks(SourceOf(src), maxItems)| <= |files|
    requires GoodScan(key.offset, key.length, key.kind) && forall q :: SortedBuffer(Alone(key), q, qsort(Alone(key), q))
    modifies hfs, hfs.store.Repr(), hfs.store.bm.db
    ensures hfs.Valid(src.chain) && Over(b, hfs.store.view, [hfs.Held()]) &&
            |hfs.store.view.pins| == |old(hfs.store.view.pins)|
    ensures hfs.store.bm.db.openCnt == old(hfs.store.bm.db.openCnt) &&
            OutsideSame(old(hfs.store.view), hfs.store.view, files)
    ensures st == SortStatus(SourceOf(src), maxItems, fileStatus)
    ensures st == OK ==>
              n == |rs| <= |files| && Written(hfs.store.view, files, xs', contents, rs) &&
              Generated(key, Chunks(SourceOf(src), maxItems), rs)
  {
    hide HeapAt, HeapFile.Valid, HeapFile.Shows, Over, PagesOf, Ahead, AllEntries, Readable, Buffers, NoEmptyRecords,
         Store.Valid, Holding, BytesOf, Written, SortedBuffer, SortedCopy, OthersSame, OutsideSame, Reading,
         DistinctFiles, Alone, SplitUpTo, SortStatus, Generated, Chunks, First;
    ghost var source, pos, es := SourceOf(src), 0, AllEntries(src.pages);
    n, xs', contents, rs := 0, xs, Blank(|files|), [];
    SplitStarts(key, source, maxItems, fileStatus);
    OutsideNow(hfs.store.view, files);
    while true
      invariant Reading(hfs, src, b, pos) && |hfs.store.view.pins| == |old(hfs.store.view.pins)|
      invariant hfs.store.bm.db.openCnt == old(hfs.store.bm.db.openCnt) &&
                OutsideSame(old(hfs.store.view), hfs.store.view, files)
      invariant n == |rs| && Written(hfs.store.view, files, xs', contents, rs)
      invariant pos <= |source| && SplitUpTo(key, source, pos, maxItems, fileStatus, rs)
      decreases |source| - pos
    {
      ghost var v := hfs.store.view;
      ReadingParts(hfs, src, b, pos);
      NextPiece(es, pos, maxItems);
      ghost var piece := First(source[pos..], maxItems);
      PieceSize(source, pos, maxItems);
      var buffer;
      st, buffer := Fill(hfs, key, maxItems, b, src, pos);
      OutsideStill(old(hfs.store.view), v, hfs.store.view, files);
      WrittenTwice(v, hfs.store.view, files, xs', contents, rs);
      WrittenLength(v, files, xs', contents, rs);
      if pos < |source| {
        SplitFails(key, source, pos, maxItems, fileStatus, rs);
      }
      if st != OK {
        return;
      }
      if |buffer| == 0 {
        SplitEnds(key, source, maxItems, fileStatus, rs);
        return;
      }
      ghost var v1, recs := hfs.store.view, [];
      st, xs', contents, recs := AddRun(hfs, key, buffer, files, n, qsort, fileStatus, b, src, pos + |piece|,
                                        First(es[pos..], maxItems), xs', contents, rs);
      OutsideTwice(old(hfs.store.view), v1, hfs.store.view, files, n);
      if st != OK {
        ReadingParts(hfs, src, b, pos + |piece|);
        return;
      }
      SplitStep(key, source, pos, maxItems, fileStatus, rs, recs);
      n, rs, pos := n + 1, rs + [recs], pos + |piece|;
    }
  }

  function Blank(n: nat): Runs {
    seq(n, i => [])
  }

  lemma PieceSize(source: seq<Bytes>, pos: nat, m: int)
    requires pos <= |source| && m >= 1
    ensures var piece := First(source[pos..], m); pos + |piece| <= |source| && (|piece| == 0 <==> pos == |source|)
    ensures pos == |source| ==> Readable(First(source[pos..], m))
  {
  }

  /** Opens the source and starts an unfiltered scan of it. */
  method OpenSource(s: Store, f: int, ghost src: HeapImage, ghost b: Base) returns (hfs: HeapFile)
    requires s.Valid() && Stored(s.view, src) && src.file == f && f in s.bm.db.openCnt &&
             |s.view.pins| + 2 <= s.bm.numBufs && Over(b, s.view, [])
    modifies s.Repr(), s.bm.db
    ensures fresh(hfs) && hfs.store == s && Reading(hfs, src, b, 0) && |s.view.pins| == |old(s.view.pins)| + 2 &&
            hfs.filePtr == f
    ensures s.view.logical == old(s.view.logical) && s.view.free == old(s.view.free)
    ensures s.bm.db.openCnt == old(s.bm.db.openCnt)[f := old(s.bm.db.openCnt)[f] + 1]
  {
    hide HeapAt, HeapFile.Valid, HeapFile.Fields, HeapFile.Shows, Over, PagesOf, Store.Valid, Holding, Opened, Reading,
         Stored, FramesFor, KeepsSaved;
    ghost var v := s.view;
    RunParts(v, src, f, []);
    HeaderFacts(v.logical, f, 1, src.chain);
    OpenFits(v.pins, f, src.chain, s.bm.numBufs);
    hfs := new HeapFile.Open(s, f, false, src.chain);
    hfs.ValidParts(src.chain);
    OpenOver(b, v, [], s.view, hfs.Held());
    assert [] + [hfs.Held()] == [hfs.Held()];
    var ignored := hfs.StartScan(src.chain, 0, 0, STRING, Null, EQ);
    StartReading(hfs, src, v, b);
  }

  /**
   Splits the source file into sorted runs. On success the scan of the source has been closed and all pins
   are back; on failure it is lost, and with it two pins and an open of the source.
   */
  method SplitFile(s: Store, f: int, key: SortKey, maxItems: int, files: seq<int>,
                   qsort: (SortKey, seq<SortRec>) -> seq<SortRec>, fileStatus: Status,
                   ghost src: HeapImage, ghost xs: seq<HeapImage>)
    returns (st: Status, n: nat, ghost xs': seq<HeapImage>, ghost rs: Runs, ghost lost: Hold)
    requires s.Valid() && Stored(s.view, src) && src.file == f && AllStored(s.view, files, xs, Blank(|files|)) &&
             DistinctFiles(files, f)
    requires maxItems >= 1 && Counted(s.bm.db.openCnt, files, f) && |Chunks(SourceOf(src), maxItems)| <= |files|
    requires |s.view.pins| + 7 <= s.bm.numBufs
    requires GoodScan(key.offset, key.length, key.kind) && forall q :: SortedBuffer(Alone(key), q, qsort(Alone(key), q))
    modifies s.Repr(), s.bm.db
    ensures s.Valid() && OutsideSame(old(s.view), s.view, files)
    ensures st == SortStatus(SourceOf(src), maxItems, fileStatus)
    ensures st == OK ==>
              s.view.pins == old(s.view.pins) && s.view.owed == old(s.view.owed) &&
              s.bm.db.openCnt == old(s.bm.db.openCnt)
    ensures st == OK ==>
              n == |rs| && AllStored(s.view, files, xs', rs) && Generated(key, Chunks(SourceOf(src), maxItems), rs)
    ensures st != OK ==> Over(Base(old(s.view.pins), old(s.view.owed)), s.view, [lost])
    ensures st != OK ==> s.bm.db.openCnt == old(s.bm.db.openCnt)[f := old(s.bm.db.openCnt)[f] + 1]
  {
    hide HeapAt, HeapFile.Valid, HeapFile.Core, HeapFile.Shows, Over, PagesOf, Ahead, AllEntries, Store.Valid, Holding,
         BytesOf, Written, AllStored, Opened, SortedBuffer, OutsideSame, Reading, DistinctFiles, Alone, SortStatus,
         Generated, Chunks, Stored, Closed, Durable, Query.NoPins, SourceOf, Counted;
    ghost var v, b := s.view, Base(s.view.pins, s.view.owed);
    s.DebtsWithinPins();
    OverItself(v);
    Counting(s.bm.db.openCnt, files, f);
    var hfs := OpenSource(s, f, src, b);
    BlankStored(v, s.view, files, xs);
    ReadingParts(hfs, src, b, 0);
    ghost var v0, contents := s.view, [];
    OutsideNow(v, files);
    OutsideStill(v, v, v0, files);
    st, n, xs', contents, rs := SplitLoop(hfs, key, maxItems, files, qsort, fileStatus, b, src, xs);
    OutsideAgain(v, v0, s.view, files);
    lost := hfs.Held();
    if st == OK {
      ghost var v1 := s.view;
      xs' := MadeRuns(v1, files, xs', contents, rs);
      hfs.CoreOf(src.chain);
      assert [] + [hfs.Held()] == [hfs.Held()];
      CloseLast(hfs, b, []);
      NothingOver(b, s.view);
      OutsideStill(v, v1, s.view, files);
      StoredTwice(v1, s.view, files, xs', rs);
      OpenThenClose(old(s.bm.db.openCnt), f);
    } else {
      hfs.ValidParts(src.chain);
    }
  }

  lemma StartReading(hfs: HeapFile, src: HeapImage, v: View, b: Base)
    requires Stored(v, src) && hfs.store.view.logical == v.logical && hfs.Valid(src.chain) && hfs.filePtr == src.file &&
             hfs.headerPageNo == 1
    requires hfs.curPage && hfs.pos == 0 && hfs.curRec == NULLRID && hfs.filter == Unfiltered &&
             Over(b, hfs.store.view, [hfs.Held()])
    ensures Reading(hfs, src, b, 0)
  {
    hide HeapAt, PagesOf, AllEntries, Over, Ahead, Store.Valid, Holding;
    HeaderFacts(v.logical, src.file, 1, src.chain);
    ChainFacts(v.logical, src.file, 1, src.chain, 0);
    Query.FreshScan(hfs.Position(), src.pages);
    assert AllEntries(src.pages)[0..] == AllEntries(src.pages);
  }

  lemma BlankStored(v: View, w: View, files: seq<int>, xs: seq<HeapImage>)
    requires AllStored(v, files, xs, Blank(|files|)) && w.logical == v.logical && w.free == v.free
    ensures Written(w, files, xs, Blank(|files|), [])
  {
    hide RunStored;
    StoredTwice(v, w, files, xs, Blank(|files|));
  }

  lemma Counting(counts: map<int, int>, files: seq<int>, f: int)
    requires Counted(counts, files, f)
    ensures f in counts && counts[f] >= 0 && Counted(counts[f := counts[f] + 1], files, f)
  {
  }

  lemma MadeRuns(v: View, files: seq<int>, xs: seq<HeapImage>, contents: Runs, rs: Runs) returns (made: seq<HeapImage>)
    requires Written(v, files, xs, contents, rs)
    ensures AllStored(v, files, made, rs)
  {
    hide RunStored;
    made := xs[..|rs|];
  }
}
