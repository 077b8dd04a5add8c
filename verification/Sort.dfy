/** Sorted files: the runs are scanned together and merged, and the merge can go back to a mark. */
module Sort {
  import opened Common
  import opened Compare
  import opened PageSpec
  import opened BufHash
  import opened BufRefine
  import opened BufRuns
  import opened HeapSpec
  import opened Chain
  import opened Storage
  import opened HeapFile
  import opened Session
  import opened SortSpec
  import opened SortRuns
  import Query

  // ----- where a run stands

  /**
   A run as a sequence of records. The scan has passed `scanned` of them. `rid` is the place of the current
   record, -1 for none; `valid` says that it is in memory and has not been given out.
   */
  datatype Standing = Standing(recs: seq<Bytes>, scanned: nat, valid: bool, rid: int, marked: bool, markScanned: nat,
                               mark: int) {
    /** The scan stands on the current record, if there is one. */
    predicate Ok() {
      && scanned <= |recs| && (rid == -1 || (rid == scanned - 1 && rid >= 0))
      && markScanned <= |recs| && (mark == -1 || (mark == markScanned - 1 && mark >= 0))
    }

    /** The number of records that next() will not return any more. */
    function Cursor(): nat
      requires Ok()
    {
      if !valid then scanned else if rid < 0 then |recs| else rid
    }

    /** Where the run stands if the current record is to be given out again. */
    function Current(): nat
      requires Ok()
    {
      if rid < 0 then |recs| else rid
    }

    function Marked(): nat
      requires Ok()
    {
      if mark < 0 then |recs| else mark
    }

    /** After its current record has been marked. */
    function WithMark(): Standing {
      this.(marked := true, markScanned := scanned, mark := rid)
    }

    /** Back at its mark. */
    function AtMark(): Standing {
      this.(scanned := markScanned, rid := mark, valid := true)
    }

    /** After the next record has been brought into memory. */
    function Loaded(): Standing {
      if valid then this
      else if scanned == |recs| then this.(rid := -1, valid := true)
      else this.(rid := scanned, scanned := scanned + 1, valid := true)
    }
  }

  predicate AllOk(abs: seq<Standing>) {
    forall k :: 0 <= k < |abs| ==> abs[k].Ok()
  }

  predicate AllMarked(abs: seq<Standing>) {
    forall k :: 0 <= k < |abs| ==> abs[k].marked
  }

  function RecsOf(abs: seq<Standing>): (rs: Runs)
    ensures |rs| == |abs| && forall k :: 0 <= k < |abs| ==> rs[k] == abs[k].recs
  {
    seq(|abs|, k requires 0 <= k < |abs| => abs[k].recs)
  }

  function CursorsOf(abs: seq<Standing>): (c: seq<nat>)
    requires AllOk(abs)
    ensures |c| == |abs| && forall k :: 0 <= k < |abs| ==> c[k] == abs[k].Cursor()
    ensures Cursors(RecsOf(abs), c)
  {
    seq(|abs|, k requires 0 <= k < |abs| => abs[k].Cursor())
  }

  function CurrentOf(abs: seq<Standing>): (c: seq<nat>)
    requires AllOk(abs)
    ensures |c| == |abs| && forall k :: 0 <= k < |abs| ==> c[k] == abs[k].Current()
    ensures Cursors(RecsOf(abs), c)
  {
    seq(|abs|, k requires 0 <= k < |abs| => abs[k].Current())
  }

  function MarksOf(abs: seq<Standing>): (c: seq<nat>)
    requires AllOk(abs)
    ensures |c| == |abs| && forall k :: 0 <= k < |abs| ==> c[k] == abs[k].Marked()
    ensures Cursors(RecsOf(abs), c)
  {
    seq(|abs|, k requires 0 <= k < |abs| => abs[k].Marked())
  }

  function NewRun(recs: seq<Bytes>): Standing {
    Standing(recs, 0, false, -1, false, 0, -1)
  }

  /** The records, marks and cursors after a step. */
  ghost predicate SameButCursors(abs: seq<Standing>, abs': seq<Standing>)
    requires AllOk(abs) && AllOk(abs')
  {
    RecsOf(abs') == RecsOf(abs) && MarksOf(abs') == MarksOf(abs) && (AllMarked(abs) ==> AllMarked(abs'))
  }

  lemma SameTwice(a: seq<Standing>, b: seq<Standing>, c: seq<Standing>)
    requires AllOk(a) && AllOk(b) && AllOk(c) && SameButCursors(a, b) && SameButCursors(b, c)
    ensures SameButCursors(a, c)
  {
  }

  lemma LoadedOne(abs: seq<Standing>, i: nat)
    requires AllOk(abs) && i < |abs|
    ensures var abs' := abs[i := abs[i].Loaded()];
            && AllOk(abs') && SameButCursors(abs, abs') && CursorsOf(abs') == CursorsOf(abs) && abs'[i].valid
            && abs'[i].Current() == CursorsOf(abs')[i]
  {
    var abs' := abs[i := abs[i].Loaded()];
    assert AllOk(abs');
    assert RecsOf(abs') == RecsOf(abs) && MarksOf(abs') == MarksOf(abs) && CursorsOf(abs') == CursorsOf(abs);
  }

  lemma PickNone(key: SortKey, rs: Runs, c: seq<nat>)
    requires Cursors(rs, c)
    ensures Pick(key, rs, c, 0) == -1
  {
  }

  /** One more run is looked at. */
  lemma PickNext(key: SortKey, abs: seq<Standing>, i: nat)
    requires AllOk(abs) && i < |abs| && forall k :: 0 <= k <= i ==> abs[k].valid
    ensures var p := Pick(key, RecsOf(abs), CursorsOf(abs), i);
            && (p >= 0 ==> p < i && 0 <= abs[p].rid < |abs[p].recs|) && (abs[i].rid >= 0 ==> abs[i].rid < |abs[i].recs|)
            && Pick(key, RecsOf(abs), CursorsOf(abs), i + 1) ==
               if abs[i].rid < 0 then p
               else if p < 0 then i
               else if CodeCompare(key, abs[p].recs[abs[p].rid], abs[i].recs[abs[i].rid]) == Greater then i else p
  {
    hide CodeCompare;
  }

  lemma AllCurrent(abs: seq<Standing>)
    requires AllOk(abs) && forall k :: 0 <= k < |abs| ==> abs[k].valid
    ensures CurrentOf(abs) == CursorsOf(abs)
  {
  }

  lemma WaitingRun(abs: seq<Standing>, i: nat)
    requires AllOk(abs) && i < |abs| && abs[i].valid && Waiting(RecsOf(abs), CursorsOf(abs), i)
    ensures 0 <= abs[i].rid < |abs[i].recs| && abs[i].recs[abs[i].rid] == Head(RecsOf(abs), CursorsOf(abs), i)
  {
  }

  lemma MoreOk(abs: seq<Standing>, recs: seq<Bytes>)
    requires AllOk(abs)
    ensures AllOk(abs + [NewRun(recs)])
  {
  }

  lemma MarkedOk(abs: seq<Standing>, i: nat)
    requires AllOk(abs) && i < |abs|
    ensures AllOk(abs[i := abs[i].WithMark()]) && AllOk(abs[i := abs[i].AtMark()])
  {
  }

  lemma EachMarked(abs: seq<Standing>)
    requires AllMarked(abs)
    ensures forall k :: 0 <= k < |abs| ==> abs[k].marked
  {
  }

  lemma Marking(a: seq<Standing>, b: seq<Standing>)
    requires AllOk(a) && AllOk(b) && |b| == |a| && forall k :: 0 <= k < |a| ==> b[k] == a[k].WithMark()
    ensures RecsOf(b) == RecsOf(a) && CursorsOf(b) == CursorsOf(a) && CurrentOf(b) == CurrentOf(a) &&
            MarksOf(b) == CurrentOf(b) && AllMarked(b)
  {
  }

  lemma Resetting(a: seq<Standing>, b: seq<Standing>)
    requires AllOk(a) && AllOk(b) && AllMarked(a) && |b| == |a| && forall k :: 0 <= k < |a| ==> b[k] == a[k].AtMark()
    ensures SameButCursors(a, b) && CursorsOf(b) == MarksOf(b)
  {
  }

  lemma TakenOne(abs: seq<Standing>, i: nat)
    requires AllOk(abs) && i < |abs| && abs[i].valid && abs[i].rid >= 0
    ensures var abs' := abs[i := abs[i].(valid := false)];
            && AllOk(abs') && SameButCursors(abs, abs') && CurrentOf(abs') == CurrentOf(abs)
            && CursorsOf(abs') == CursorsOf(abs)[i := CursorsOf(abs)[i] + 1]
  {
    var abs' := abs[i := abs[i].(valid := false)];
    assert AllOk(abs');
    assert RecsOf(abs') == RecsOf(abs) && MarksOf(abs') == MarksOf(abs) && CurrentOf(abs') == CurrentOf(abs);
    assert CursorsOf(abs') == CursorsOf(abs)[i := CursorsOf(abs)[i] + 1];
  }

  // ----- where its scan stands

  /** A cursor on the run's file that has passed `scanned` records and is on record `rid`. */
  ghost predicate StandsAt(pages: seq<PageImage>, c: Cursor, recs: seq<Bytes>, scanned: nat, rid: int) {
    && scanned <= |AllEntries(pages)| && Ahead(c, pages) == AllEntries(pages)[scanned..]
    && (rid >= 0 ==>
        rid < |recs| && c.pinned && c.pos < |pages| && pages[c.pos].Live(c.slot) &&
        pages[c.pos].slots[c.slot].bytes == recs[rid])
  }

  /** A run: its file, the scan of it, and its current and its marked record. */
  datatype Run = Run(file: int, inFile: HeapFile, valid: bool, rec: RecordPtr, rid: RID, mark: RID)

  /** The scan of a run on store `s`, seen as a sequence of records. */
  ghost predicate Tracks(s: Store, r: Run, x: HeapImage, a: Standing, h: Hold)
    reads r.inFile
  {
    && r.inFile.store == s && r.inFile.filePtr == r.file == x.file && r.inFile.headerPageNo == 1
    && r.inFile.Fields(x.chain) && r.inFile.curPage && r.inFile.filter == Unfiltered && h == r.inFile.Held()
    && BytesOf(AllEntries(x.pages)) == a.recs && Readable(a.recs)
    && StandsAt(x.pages, r.inFile.Position(), a.recs, a.scanned, a.rid)
    && r.valid == a.valid && (r.rid.pageNo >= 0 <==> a.rid >= 0) &&
       (a.valid && a.rid >= 0 ==> r.rec == r.inFile.Under())
    && (a.marked ==>
        OnChain(r.inFile.MarkedPosition(), x.chain) &&
        StandsAt(x.pages, r.inFile.MarkedPosition(), a.recs, a.markScanned, a.mark)
                     && (r.mark.pageNo >= 0 <==> a.mark >= 0))
  }

  /** What a scan is valid for, whatever else is known about the run. */
  lemma ScanValid(s: Store, r: Run, x: HeapImage, a: Standing, h: Hold)
    requires Tracks(s, r, x, a, h) && s.Valid() && Stored(s.view, x) && Holding(s.view, h)
    ensures r.inFile.Valid(x.chain) && r.inFile.Shows(x.chain, x.pages) && |x.pages| == |x.chain|
  {
    hide HeapAt, PagesOf, StandsAt, Store.Valid, Holding, HeapFile.Fields, BytesOf, AllEntries;
    r.inFile.ValidParts(x.chain);
  }

  /** The current record of a run can be read where the pointer leads. */
  lemma RecordThere(s: Store, r: Run, x: HeapImage, a: Standing, h: Hold)
    requires Tracks(s, r, x, a, h) && s.Valid() && Stored(s.view, x) && Holding(s.view, h) && a.valid && a.rid >= 0
    ensures a.rid < |a.recs| && Pointed(s.view, r.rec)
    ensures Chain.RecordAt(s.view.logical, r.rec) == a.recs[a.rid]
  {
    hide HeapAt, PagesOf, Store.Valid, Holding, BytesOf, AllEntries, Ahead;
    PinnedByHolder(s.view, h);
    PageFacts(s.view.logical, x.file, 1, x.chain, r.inFile.pos);
  }

  /** Opens the scan of a run, if the pool has two frames for it; nothing has been fetched yet. */
  method OpenRun(s: Store, file: int, ghost x: HeapImage, ghost recs: seq<Bytes>) returns (st: Status, r: Run)
    requires s.Valid() && RunStored(s.view, x, file, recs) && Readable(recs) && file in s.bm.db.openCnt
    modifies s.Repr(), s.bm.db
    ensures s.Valid() && s.view.logical == old(s.view.logical) && s.view.free == old(s.view.free)
    ensures x.chain != [] && (st == OK <==> FramesFor(old(s.view.pins), FirstPages(file, x.chain), s.bm.numBufs)) &&
            (st == OK || st == BUFFEREXCEEDED)
    ensures st == OK ==> fresh(r.inFile) && r.file == file && Tracks(s, r, x, NewRun(recs), r.inFile.Held())
    ensures st == OK ==> Opened(old(s.view), s.view, r.inFile.Held()) && Holding(s.view, r.inFile.Held())
    ensures st == OK ==> s.view.pins == old(s.view.pins) + multiset{Key(file, 1)} + multiset{Key(file, x.chain[0])}
    ensures s.bm.db.openCnt == old(s.bm.db.openCnt)[file := old(s.bm.db.openCnt)[file] + 1]
  {
    hide Store.Valid, Stored, RunStored, Tracks, Holding, Opened, HeapAt, PagesOf, HeapFile.Valid, HeapFile.Fields,
         Readable, AllEntries, BytesOf, FramesFor;
    ghost var v := s.view;
    RunParts(v, x, file, recs);
    var hf := new HeapFile.Open(s, file, false, x.chain);
    st := hf.outcome;
    r := Run(file, hf, false, RecordPtr(0, Key(file, 0), -1), RID(-1, -1), NULLRID);
    if st == OK {
      st := hf.StartScan(x.chain, 0, 0, STRING, Null, EQ);
      hf.ValidParts(x.chain);
      SameStored(v, s.view, x);
      NewTracks(s, r, x, recs);
    }
  }

  /** Brings the next record of a run into memory unless it is there. */
  method LoadRun(s: Store, r: Run, ghost x: HeapImage, ghost a: Standing, ghost h: Hold)
    returns (r': Run, ghost h': Hold)
    requires Tracks(s, r, x, a, h) && s.Valid() && Stored(s.view, x) && Holding(s.view, h) && a.Ok() && !r.inFile.Full()
    modifies r.inFile, s.Repr(), s.bm.db`files
    ensures s.Valid() && s.view.logical == old(s.view.logical) && s.view.free == old(s.view.free) &&
            |s.view.pins| == |old(s.view.pins)|
    ensures Exchanged(old(s.view), h, s.view, h') && Holding(s.view, h')
    ensures r'.inFile == r.inFile && r'.file == r.file && Tracks(s, r', x, a.Loaded(), h')
  {
    hide HeapAt, PagesOf, Store.Valid, Holding, HeapFile.Valid, HeapFile.Shows, HeapFile.Full, HeapFile.OtherPins,
         BytesOf, AllEntries, Ahead, Exchanged, StandsAt, Readable, Stored, OnChain;
    ScanValid(s, r, x, a, h);
    SameHold(s.view, h);
    r', h' := r, h;
    if !r.valid {
      ghost var c, v := r.inFile.Position(), s.view;
      var st, rid, rec := NextRecord(r.inFile, x.chain, x.pages);
      h' := r.inFile.Held();
      r.inFile.ValidParts(x.chain);
      SameStored(v, s.view, x);
      LoadStep(s.view, x, c, r.inFile.Position(), a, st, rid);
      if st == FILEEOF {
        r' := r'.(rid := r.rid.(pageNo := -1));
      } else {
        r' := r'.(rid := rid, rec := r.inFile.Under());
      }
      r' := r'.(valid := true);
    }
  }

  lemma LoadStep(v: View, x: HeapImage, c: Cursor, c': Cursor, a: Standing, st: Status, rid: RID)
    requires Stored(v, x) && BytesOf(AllEntries(x.pages)) == a.recs && Readable(a.recs) && a.Ok() && !a.valid &&
             StandsAt(x.pages, c, a.recs, a.scanned, a.rid)
    requires var es := Ahead(c, x.pages);
             if es == [] then st == FILEEOF && Ahead(c', x.pages) == []
             else
               && st == (if es[0].bytes == [] then INVALIDSLOTNO else OK) && Ahead(c', x.pages) == es[1..]
               && c'.pinned && c'.pos < |x.pages| && x.pages[c'.pos].Live(c'.slot) &&
                  x.pages[c'.pos].slots[c'.slot].bytes == es[0].bytes
               && es[0].rid == RID(x.pages[c'.pos].curPage, c'.slot) && (st == OK ==> rid == es[0].rid)
    ensures StandsAt(x.pages, c', a.recs, a.Loaded().scanned, a.Loaded().rid)
    ensures st == if a.scanned == |a.recs| then FILEEOF else OK
    ensures st == OK ==> rid.pageNo >= 0
  {
    hide Ahead, AllEntries, BytesOf, PagesOf, HeapAt;
    var es := AllEntries(x.pages);
    BytesOfEach(es);
    if a.scanned < |es| {
      assert es[a.scanned..][0] == es[a.scanned] && es[a.scanned..][1..] == es[a.scanned + 1..];
      PageFacts(v.logical, x.file, 1, x.chain, c'.pos);
    }
  }

  /** Marks the current record of a run. */
  method MarkRun(s: Store, r: Run, ghost x: HeapImage, ghost a: Standing, ghost h: Hold) returns (r': Run)
    requires Tracks(s, r, x, a, h) && s.Valid() && Stored(s.view, x) && Holding(s.view, h) && a.Ok()
    modifies r.inFile
    ensures r'.inFile == r.inFile && r'.file == r.file && Tracks(s, r', x, a.WithMark(), h)
  {
    hide HeapAt, PagesOf, Store.Valid, Holding, HeapFile.Core, BytesOf, AllEntries, Ahead, Readable, Stored;
    ScanValid(s, r, x, a, h);
    r.inFile.MarkScan(x.chain);
    r' := r.(mark := r.rid);
  }

  /** Puts a run back to its mark; the record there is taken as not given out. */
  method ResetRun(s: Store, r: Run, ghost x: HeapImage, ghost a: Standing, ghost h: Hold)
    returns (st: Status, r': Run, ghost h': Hold)
    requires Tracks(s, r, x, a, h) && s.Valid() && Stored(s.view, x) && Holding(s.view, h) && a.Ok() &&
             !r.inFile.Full() && a.marked
    modifies r.inFile, s.Repr(), s.bm.db`files
    ensures s.Valid() && s.view.logical == old(s.view.logical) && s.view.free == old(s.view.free) &&
            |s.view.pins| == |old(s.view.pins)|
    ensures Exchanged(old(s.view), h, s.view, h') && Holding(s.view, h')
    ensures st == OK && r'.inFile == r.inFile && r'.file == r.file && Tracks(s, r', x, a.AtMark(), h')
  {
    hide HeapAt, PagesOf, Store.Valid, Holding, HeapFile.Valid, HeapFile.Full, HeapFile.OtherPins, BytesOf, AllEntries,
         Ahead, Exchanged, Stored;
    ScanValid(s, r, x, a, h);
    st := r.inFile.ResetScan(x.chain);
    r.inFile.ValidParts(x.chain);
    h' := r.inFile.Held();
    r' := r.(rid := r.mark);
    if r'.rid.pageNo >= 0 {
      var rec;
      st, rec := r.inFile.GetRecord(x.chain, x.pages);
      r' := r'.(rec := r.inFile.Under());
    }
    r' := r'.(valid := true);
  }

  // ----- the runs together

  function FilesOf(runs: seq<Run>): (fs: seq<int>)
    ensures |fs| == |runs| && forall k :: 0 <= k < |runs| ==> fs[k] == runs[k].file
  {
    seq(|runs|, k requires 0 <= k < |runs| => runs[k].file)
  }

  ghost function ScansOf(runs: seq<Run>): set<HeapFile> {
    set r | r in runs :: r.inFile
  }

  predicate DistinctScans(runs: seq<Run>) {
    forall i, j :: 0 <= i < j < |runs| ==> runs[i].inFile != runs[j].inFile
  }

  /** The scans of the runs, one for each, are all that is open on top of `b`. */
  ghost predicate AllTracked(s: Store, runs: seq<Run>, xs: seq<HeapImage>, abs: seq<Standing>, holds: seq<Hold>)
    reads ScansOf(runs)
  {
    && |xs| == |abs| == |holds| == |runs| && AllOk(abs) && DistinctScans(runs)
    && forall k :: 0 <= k < |runs| ==> Tracks(s, runs[k], xs[k], abs[k], holds[k])
  }

  lemma TrackedRun(s: Store, runs: seq<Run>, xs: seq<HeapImage>, abs: seq<Standing>, holds: seq<Hold>, i: nat)
    requires AllTracked(s, runs, xs, abs, holds) && i < |runs|
    ensures |xs| == |abs| == |holds| == |runs| && AllOk(abs) && abs[i].Ok() &&
            Tracks(s, runs[i], xs[i], abs[i], holds[i]) && runs[i].inFile in ScansOf(runs)
  {
    hide Tracks, Standing.Ok;
    ScanOf(runs, i);
  }

  lemma TrackedParts(s: Store, runs: seq<Run>, xs: seq<HeapImage>, abs: seq<Standing>, holds: seq<Hold>)
    ensures AllTracked(s, runs, xs, abs, holds) <==>
              && |xs| == |abs| == |holds| == |runs| && AllOk(abs) && DistinctScans(runs)
              && forall k :: 0 <= k < |runs| ==> Tracks(s, runs[k], xs[k], abs[k], holds[k])
  {
    hide Tracks, AllOk, DistinctScans;
  }

  ghost predicate AllThere(v: View, xs: seq<HeapImage>) {
    forall k :: 0 <= k < |xs| ==> Stored(v, xs[k])
  }

  lemma IsThere(v: View, xs: seq<HeapImage>, i: nat)
    requires AllThere(v, xs) && i < |xs|
    ensures Stored(v, xs[i])
  {
    hide Stored;
  }

  lemma OneMoreThere(v: View, xs: seq<HeapImage>, x: HeapImage)
    requires AllThere(v, xs) && Stored(v, x)
    ensures AllThere(v, xs + [x])
  {
    hide Stored;
  }

  lemma AllThereRest(v: View, xs: seq<HeapImage>)
    requires AllThere(v, xs) && xs != []
    ensures AllThere(v, xs[1..])
  {
    hide Stored;
  }

  lemma RunCore(s: Store, r: Run, x: HeapImage, a: Standing, h: Hold)
    requires Tracks(s, r, x, a, h) && s.Valid() && Stored(s.view, x) && Holding(s.view, h)
    ensures r.inFile.Core() && r.inFile.store == s && r.inFile.Held() == h && r.inFile.filePtr == r.file
  {
    hide Stored, Holding, Store.Valid, StandsAt, HeapFile.Core;
    ScanValid(s, r, x, a, h);
    r.inFile.CoreOf(x.chain);
  }

  lemma StillThere(v: View, w: View, xs: seq<HeapImage>)
    requires AllThere(v, xs) && w.logical == v.logical && w.free == v.free
    ensures AllThere(w, xs)
  {
    hide Stored;
    forall k | 0 <= k < |xs| ensures Stored(w, xs[k]) {
      SameStored(v, w, xs[k]);
    }
  }

  /** The files of the runs are different, and nobody else has a page of theirs pinned. */
  ghost predicate OwnFiles(b: Base, files: seq<int>) {
    NoTwice(files) && forall k: Key :: k.file in files ==> b.pins[k] == 0
  }

  lemma SameFile(files: seq<int>, i: nat, j: nat)
    requires NoTwice(files) && i < |files| && j < |files| && i != j
    ensures files[i] != files[j]
  {
  }

  // ----- open counts

  /** The counts are `counts` and one more for each of the files. */
  predicate CountsAre(now: map<int, int>, counts: map<int, int>, files: seq<int>) {
    now.Keys == counts.Keys && forall f :: f in counts ==> now[f] == counts[f] + if f in files then 1 else 0
  }

  /** Files that were not open a negative number of times. */
  predicate Openable(counts: map<int, int>, files: seq<int>) {
    forall k :: 0 <= k < |files| ==> files[k] in counts && counts[files[k]] >= 0
  }

  lemma CountOpen(now: map<int, int>, counts: map<int, int>, files: seq<int>, f: int)
    requires CountsAre(now, counts, files) && f in counts && f !in files
    ensures CountsAre(now[f := now[f] + 1], counts, files + [f])
  {
  }

  lemma CountClose(now: map<int, int>, counts: map<int, int>, files: seq<int>)
    requires files != [] && NoTwice(files) && CountsAre(now, counts, files) && Openable(counts, files)
    ensures files[0] in counts && counts[files[0]] >= 0 && files[0] in now && now[files[0]] == counts[files[0]] + 1
    ensures CountsAre(now[files[0] := CountAfterClose(now[files[0]])], counts, files[1..])
    ensures NoTwice(files[1..]) && Openable(counts, files[1..])
  {
    hide NoTwice;
    TailFiles(files);
    assert files[0] in files && files[0] in counts;
    var next := now[files[0] := CountAfterClose(now[files[0]])];
    KeysAfter(now, files[0], CountAfterClose(now[files[0]]));
    assert CountsAre(next, counts, files[1..]);
    assert Openable(counts, files[1..]) by {
      assert forall k :: 0 <= k < |files[1..]| ==> files[1..][k] == files[k + 1];
    }
  }

  lemma TailFiles(files: seq<int>)
    requires files != [] && NoTwice(files)
    ensures NoTwice(files[1..]) && files[0] !in files[1..]
    ensures forall f :: f in files <==> f == files[0] || f in files[1..]
  {
    assert files == [files[0]] + files[1..];
  }

  /** The files among these that nobody else has open. */
  ghost function Unshared(counts: map<int, int>, files: seq<int>): set<int> {
    set f | f in files && f in counts && counts[f] == 0
  }

  lemma NoneUnshared(counts: map<int, int>)
    ensures Unshared(counts, []) == {}
  {
  }

  lemma FirstUnshared(counts: map<int, int>, files: seq<int>)
    requires files != [] && files[0] in counts
    ensures Unshared(counts, files[..1]) == if counts[files[0]] == 0 then {files[0]} else {}
  {
    assert files[..1] == [files[0]];
  }

  /** What is removed with the first file, and what with the rest. */
  lemma UnsharedSplit(counts: map<int, int>, gone: set<int>, files: seq<int>)
    requires files != [] && files[0] in counts - gone
    ensures gone + Unshared(counts - gone, files[..1]) + Unshared(counts, files[1..]) == gone + Unshared(counts, files)
  {
    assert files == files[..1] + files[1..] && files[..1] == [files[0]];
  }

  lemma CountRemoved(before: map<int, int>, left: map<int, int>, files: seq<int>, gone: set<int>)
    requires files != [] && NoTwice(files) && files[0] in left && left[files[0]] >= 0 && Openable(left, files[1..])
    requires gone == if left[files[0]] == 0 then {files[0]} else {}
    requires CountsAre(before, left, files[1..])
    ensures CountsAre(before - gone, left - gone, files[1..]) && Openable(left - gone, files[1..])
  {
    assert forall k :: 0 <= k < |files[1..]| ==> files[1..][k] == files[k + 1] != files[0];
  }

  lemma KeptMore(v: View, v1: View, w: View, a: set<int>, b: set<int>)
    requires PagesKept(v, v1, a) && PagesKept(v1, w, b)
    ensures PagesKept(v, w, a + b)
  {
  }

  class SortedFile {
    const store: Store
    const key: SortKey
    var runs: seq<Run>
    /** The outcome of the construction. */
    var status: Status
    /** The pins of everybody else. */
    ghost const base: Base
    ghost var xs: seq<HeapImage>
    ghost var abs: seq<Standing>
    ghost var holds: seq<Hold>

    ghost predicate Valid()
      reads this, ScansOf(runs), store, store.bm, store.bm.db, store.bm.hashTable, store.bm.hashTable.ht,
            store.bm.bufTable, store.bm.bufPool
    {
      && store.Valid() && Over(base, store.view, holds) && OwnFiles(base, FilesOf(runs))
      && AllTracked(store, runs, xs, abs, holds) && AllThere(store.view, xs)
    }

    /**
     Sorts a file. The runs are written to the files given, which are empty. If that succeeds, a scan is open
     on each run, so that there are two pins for every run, and next() will return a sorted permutation of the
     source, provided the attributes can be compared.
     */
    constructor (s: Store, f: int, offset: int, length: int, kind: Datatype, maxItems: int, files: seq<int>,
                 qsort: (SortKey, seq<SortRec>) -> seq<SortRec>, fileStatus: Status, ghost src: HeapImage,
                   ghost empty: seq<HeapImage>)
      requires s.Valid() && Stored(s.view, src) && src.file == f && AllStored(s.view, files, empty, Blank(|files|)) &&
               DistinctFiles(files, f)
      requires Counted(s.bm.db.openCnt, files, f) && forall k, q :: SortedBuffer(k, q, qsort(k, q))
      requires Enough(offset, length, kind, maxItems, |SourceOf(src)|, |files|, |s.view.pins|, s.bm.numBufs)
      requires OwnFiles(Base(s.view.pins, s.view.owed), files)
      modifies s.Repr(), s.bm.db
      ensures store == s && s.Valid() && OutsideSame(old(s.view), s.view, files)
      ensures status == Outcome(offset, length, kind, maxItems, SourceOf(src), fileStatus,
                                |PinnedPages(old(s.view.pins))|, s.bm.numBufs)
      ensures !GoodScan(offset, length, kind) || maxItems < 2 ==>
                s.view == old(s.view) && s.bm.db.openCnt == old(s.bm.db.openCnt)
      ensures status == OK ==>
                && Valid() && fresh(ScansOf(runs)) && base == Base(old(s.view.pins), old(s.view.owed)) &&
                   key == SortKey(offset, length, kind)
                && Prepared(key, SourceOf(src), maxItems, files, runs, abs) &&
                   |s.view.pins| == |old(s.view.pins)| + 2 * |runs|
                && CountsAre(s.bm.db.openCnt, old(s.bm.db.openCnt), FilesOf(runs))
      ensures status == OK && AllOrdered(key, SourceOf(src)) ==>
                AllOk(abs) && var out := Output(key, RecsOf(abs), CursorsOf(abs));
                  multiset(out) == multiset(SourceOf(src)) && RunSorted(key, out)
    {
      hide Store.Valid, Over, Stored, AllStored, DistinctFiles, SortedBuffer, OutsideSame, SortStatus, SourceOf, Tracks,
           Generated, AllOrdered, Output, RunSorted, Chunks, AllThere, CountsAre, ScansOf, OwnFiles, PinnedPages,
           Prepared, Valid, Counted, Blank;
      store := s;
      key := if offset >= 0 && length >= 0 then SortKey(offset, length, kind) else SortKey(0, 0, kind);
      runs, status, base := [], OK, Base(s.view.pins, s.view.owed);
      xs, abs, holds := [], [], [];
      new;
      OutsideNow(s.view, files);
      if offset < 0 || length < 1 || (kind == INTEGER && length != 4) || (kind == FLOAT && length != 4) {
        status := BADSORTPARM;
      } else if maxItems < 2 {
        status := INSUFMEM;
      } else {
        ghost var v := s.view;
        var st := SortFile(f, maxItems, files, qsort, fileStatus, src, empty);
        status := st;
        if st == OK && AllOrdered(key, SourceOf(src)) {
          PreparedSorts(key, SourceOf(src), maxItems, files, runs, abs);
        }
      }
    }

    /** Splits the source into sorted runs and prepares their scans. */
    method SortFile(f: int, maxItems: int, files: seq<int>, qsort: (SortKey, seq<SortRec>) -> seq<SortRec>,
                    fileStatus: Status,
                    ghost src: HeapImage, ghost empty: seq<HeapImage>) returns (st: Status)
      requires store.Valid() && Stored(store.view, src) && src.file == f &&
               AllStored(store.view, files, empty, Blank(|files|)) && DistinctFiles(files, f)
      requires Counted(store.bm.db.openCnt, files, f) && base == Base(store.view.pins, store.view.owed) && maxItems >= 2
      requires GoodScan(key.offset, key.length, key.kind) &&
               forall q :: SortedBuffer(Alone(key), q, qsort(Alone(key), q))
      requires Enough(key.offset, key.length, key.kind, maxItems, |SourceOf(src)|, |files|, |store.view.pins|,
                      store.bm.numBufs)
      requires OwnFiles(base, files)
      requires runs == [] && xs == [] && abs == [] && holds == []
      modifies this`runs, this`xs, this`abs, this`holds, store.Repr(), store.bm.db
      ensures store.Valid() && OutsideSame(old(store.view), store.view, files)
      ensures st == Outcome(key.offset, key.length, key.kind, maxItems, SourceOf(src), fileStatus,
                            |PinnedPages(old(store.view.pins))|, store.bm.numBufs)
      ensures st == OK ==>
                && Valid() && fresh(ScansOf(runs)) && Prepared(key, SourceOf(src), maxItems, files, runs, abs)
                && |store.view.pins| == |old(store.view.pins)| + 2 * |runs| &&
                   CountsAre(store.bm.db.openCnt, old(store.bm.db.openCnt), FilesOf(runs))
    {
      hide Store.Valid, Over, Stored, AllStored, DistinctFiles, SortedBuffer, OutsideSame, SortStatus, SourceOf, Tracks,
           Generated, Chunks, AllThere, CountsAre, ScansOf, Alone, OwnFiles, PinnedPages, FramesFor, RunPages;
      ghost var v, n := store.view, RunCount(|SourceOf(src)|, maxItems);
      Pieces(SourceOf(src), maxItems);
      var made;
      ghost var rs, images, lost;
      st, made, images, rs, lost := SplitFile(store, f, key, maxItems, files, qsort, fileStatus, src, empty);
      if st == OK {
        ghost var v1 := store.view;
        RunsReadable(key, SourceOf(src), maxItems, fileStatus, rs);
        store.DebtsWithinPins();
        OverItself(v1);
        FilesApart(files, f);
        FramesForRuns(v1, images, files, rs, base, store.bm.numBufs);
        st := StartScans(made, files, f, images, rs);
        OutsideStill(v, v1, store.view, files);
      }
    }

    /** Opens a scan on every run; that works exactly if the pool has two frames for each. */
    method StartScans(n: nat, files: seq<int>, ghost f: int, ghost images: seq<HeapImage>, ghost rs: Runs)
      returns (st: Status)
      requires store.Valid() && Over(base, store.view, []) && AllStored(store.view, files, images, rs) && n == |rs|
      requires DistinctFiles(files, f) && Counted(store.bm.db.openCnt, files, f) &&
               forall k :: 0 <= k < n ==> Readable(rs[k])
      requires OwnFiles(base, files) && runs == [] && xs == [] && abs == [] && holds == []
      modifies this`runs, this`xs, this`abs, this`holds, store.Repr(), store.bm.db
      ensures store.Valid() && store.view.logical == old(store.view.logical) && store.view.free == old(store.view.free)
      ensures |images| == n && (st == OK <==> FramesFor(old(store.view.pins), RunPages(images, n), store.bm.numBufs)) &&
              (st == OK || st == BUFFEREXCEEDED)
      ensures st == OK ==>
                Valid() && fresh(ScansOf(runs)) && |runs| == n <= |files| &&
                |store.view.pins| == |old(store.view.pins)| + 2 * n
      ensures st == OK ==>
                FilesOf(runs) == files[..n] && CountsAre(store.bm.db.openCnt, old(store.bm.db.openCnt), FilesOf(runs))
      ensures st == OK ==> RecsOf(abs) == rs && AllNew(abs)
    {
      hide Store.Valid, Over, Stored, RunStored, Tracks, AllTracked, AllThere, Readable, CountsAre, ScansOf, AllStored,
           OwnFiles, FramesFor, PinnedPages, RunPages;
      StoredLength(store.view, files, images, rs);
      NoScans(store, store.view, base);
      CountNone(store.bm.db.openCnt);
      NoPages(store.view.pins, images);
      assert FilesOf(runs) == files[..0];
      ghost var before := store.view.pins;
      st := OK;
      for i := 0 to n
        invariant Valid() && |runs| == i && |store.view.pins| == |before| + 2 * i && st == OK
        invariant fresh(ScansOf(runs)) && FilesOf(runs) == files[..i] &&
                  CountsAre(store.bm.db.openCnt, old(store.bm.db.openCnt), FilesOf(runs))
        invariant |abs| == i && AllNew(abs) && RecsOf(abs) == rs[..i]
        invariant store.view.logical == old(store.view.logical) && store.view.free == old(store.view.free)
        invariant PinnedPages(store.view.pins) == PinnedPages(before) + RunPages(images, i)
      {
        ghost var pins := store.view.pins;
        StoredRun(old(store.view), store.view, files, images, rs, i);
        NotYet(store.bm.db.openCnt, old(store.bm.db.openCnt), files, f, i);
        OwnMore(base, files, i);
        st := AddScan(files[i], images[i], rs[i]);
        MorePages(before, pins, images, i, files[i], store.bm.numBufs);
        if st != OK {
          MoreFrames(before, images, i + 1, n, store.bm.numBufs);
          return;
        }
        assert files[..i + 1] == files[..i] + [files[i]] && rs[..i + 1] == rs[..i] + [rs[i]];
        assert RecsOf(abs) == rs[..i + 1];
      }
      assert rs[..n] == rs;
      store.PagesFit();
      AllFit(before, store.view.pins, images, store.bm.numBufs);
    }

    /** Opens a scan on one more run. */
    method AddScan(file: int, ghost x: HeapImage, ghost recs: seq<Bytes>) returns (st: Status)
      requires Valid() && RunStored(store.view, x, file, recs) && Readable(recs) && file in store.bm.db.openCnt
      requires OwnFiles(base, FilesOf(runs) + [file])
      modifies this`runs, this`xs, this`abs, this`holds, store.Repr(), store.bm.db
      ensures store.Valid() && store.view.logical == old(store.view.logical) && store.view.free == old(store.view.free)
      ensures x.chain != [] && (st == OK <==>
                                FramesFor(old(store.view.pins), FirstPages(file, x.chain), store.bm.numBufs)) &&
                                (st == OK || st == BUFFEREXCEEDED)
      ensures st == OK ==>
                Valid() && |runs| == |old(runs)| + 1 && runs[..|old(runs)|] == old(runs) &&
                fresh(runs[|old(runs)|].inFile)
      ensures st == OK ==>
                ScansOf(runs) == old(ScansOf(runs)) + {runs[|old(runs)|].inFile} &&
                FilesOf(runs) == old(FilesOf(runs)) + [file]
      ensures st == OK ==> abs == old(abs) + [NewRun(recs)]
      ensures st == OK ==>
                store.view.pins == old(store.view.pins) + multiset{Key(file, 1)} + multiset{Key(file, x.chain[0])}
      ensures store.bm.db.openCnt == old(store.bm.db.openCnt)[file := old(store.bm.db.openCnt)[file] + 1]
    {
      hide Store.Valid, Over, Stored, RunStored, Tracks, AllTracked, AllThere, Holding, Opened, Readable, ScansOf,
           FilesOf, DistinctScans, FramesFor, OwnFiles, AllOk, Standing.Ok;
      ghost var v := store.view;
      TrackedParts(store, runs, xs, abs, holds);
      RunParts(v, x, file, recs);
      var run;
      st, run := OpenRun(store, file, x, recs);
      if st != OK {
        return;
      }
      assert store.view.pins == v.pins + multiset{Key(file, 1)} + multiset{Key(file, x.chain[0])};
      ghost var h := run.inFile.Held();
      OpenOver(base, v, holds, store.view, h);
      StillThere(v, store.view, xs);
      SameStored(v, store.view, x);
      OneMoreThere(store.view, xs, x);
      MoreScans(runs, run);
      MoreOk(abs, recs);
      assert forall k :: 0 <= k < |runs| ==> runs[k].inFile != run.inFile;
      TrackedParts(store, runs + [run], xs + [x], abs + [NewRun(recs)], holds + [h]);
      runs, xs, abs, holds := runs + [run], xs + [x], abs + [NewRun(recs)], holds + [h];
    }

    /** Brings the next record of run `i` into memory unless it is there. */
    method Load(i: nat)
      requires Valid() && i < |runs|
      modifies this`runs, this`abs, this`holds, ScansOf(runs), store.Repr(), store.bm.db`files
      ensures Valid() && ScansOf(runs) == old(ScansOf(runs)) && FilesOf(runs) == old(FilesOf(runs))
      ensures abs == old(abs)[i := old(abs)[i].Loaded()]
      ensures store.view.logical == old(store.view.logical) && store.view.free == old(store.view.free) &&
              |store.view.pins| == |old(store.view.pins)|
    {
      hide Store.Valid, Over, Tracks, AllTracked, AllThere, Stored, Exchanged, Holding, ScansOf, FilesOf,
           Standing.Loaded, Standing.Ok, DistinctScans, AllOk, OwnFiles, HeapFile.Full;
      ghost var v := store.view;
      TrackedRun(store, runs, xs, abs, holds, i);
      TrackedParts(store, runs, xs, abs, holds);
      OtherScans(runs, i);
      IsThere(v, xs, i);
      EachHolds(base, v, holds, i);
      LoadedOne(abs, i);
      NeverFull(i);
      var run;
      ghost var h;
      run, h := LoadRun(store, runs[i], xs[i], abs[i], holds[i]);
      WorkOver(base, v, holds, i, store.view, h);
      StillThere(v, store.view, xs);
      SameScans(runs, i, run);
      TrackedParts(store, runs[i := run], xs, abs[i := abs[i].Loaded()], holds[i := h]);
      runs := runs[i := run];
      abs := abs[i := abs[i].Loaded()];
      holds := holds[i := h];
    }

    /** What a movement of the scans leaves alone. */
    twostate predicate Moved()
      requires old(AllOk(abs)) && AllOk(abs)
      reads this`runs, this`abs, store`view
    {
      && ScansOf(runs) == old(ScansOf(runs)) && FilesOf(runs) == old(FilesOf(runs)) && SameButCursors(old(abs), abs)
      && store.view.logical == old(store.view.logical) && store.view.free == old(store.view.free) &&
         |store.view.pins| == |old(store.view.pins)|
    }

    lemma Facts()
      requires Valid()
      ensures |runs| == |abs| && AllOk(abs)
      ensures forall k :: 0 <= k < |abs| ==> (runs[k].rid.pageNo >= 0 <==> abs[k].rid >= 0)
    {
      hide Store.Valid, Over, AllThere, StandsAt, HeapFile.Fields, AllEntries, BytesOf, Readable;
    }

    /** Looks at the next record of run `i`; `best` is the run picked among those before it. */
    method Look(i: nat, best: int) returns (smallest: int)
      requires Valid() && i < |abs| && AllOk(abs) && (forall k :: 0 <= k < i ==> abs[k].valid) &&
               best == Pick(key, RecsOf(abs), CursorsOf(abs), i)
      modifies this`runs, this`abs, this`holds, ScansOf(runs), store.Repr(), store.bm.db`files
      ensures old(AllOk(abs)) && AllOk(abs) && Valid() && Moved() && |abs| == |old(abs)|
      ensures CursorsOf(abs) == old(CursorsOf(abs)) && forall k :: 0 <= k <= i ==> abs[k].valid
      ensures smallest == Pick(key, RecsOf(abs), CursorsOf(abs), i + 1)
    {
      hide Store.Valid, Valid, ScansOf, FilesOf, RecsOf, CursorsOf, CurrentOf, MarksOf, AllOk, AllMarked, CodeCompare,
           Pick, Standing.Loaded, Cursors;
      Facts();
      Load(i);
      Facts();
      LoadedOne(old(abs), i);
      PickNext(key, abs, i);
      smallest := best;
      if runs[i].rid.pageNo < 0 {
        return;
      }
      if smallest < 0 {
        smallest := i;
      } else {
        var greater := Exceeds(smallest, i);
        if greater {
          smallest := i;
        }
      }
    }

    /** Looks at the next record of every run and picks the smallest, the first of equal ones. */
    method FindSmallest() returns (smallest: int)
      requires Valid()
      modifies this`runs, this`abs, this`holds, ScansOf(runs), store.Repr(), store.bm.db`files
      ensures old(AllOk(abs)) && AllOk(abs) && Valid() && Moved() && |abs| == |old(abs)|
      ensures CursorsOf(abs) == old(CursorsOf(abs)) && (forall k :: 0 <= k < |abs| ==> abs[k].valid) &&
              CurrentOf(abs) == CursorsOf(abs)
      ensures smallest == Pick(key, RecsOf(abs), CursorsOf(abs), |abs|)
    {
      hide Store.Valid, Valid, ScansOf, FilesOf, RecsOf, CursorsOf, CurrentOf, MarksOf, AllOk, AllMarked, Pick, Cursors;
      Facts();
      smallest := -1;
      PickNone(key, RecsOf(abs), CursorsOf(abs));
      var n := |runs|;
      for i := 0 to n
        invariant Valid() && |abs| == n && AllOk(abs) && Moved() && CursorsOf(abs) == old(CursorsOf(abs))
        invariant forall k :: 0 <= k < i ==> abs[k].valid
        invariant smallest == Pick(key, RecsOf(abs), CursorsOf(abs), i)
      {
        ghost var before := abs;
        smallest := Look(i, smallest);
        SameTwice(old(abs), before, abs);
      }
      AllCurrent(abs);
    }

    /** Is the current record of run `i` greater than that of run `j`? Both are read where they are, in the pool. */
    method Exceeds(i: nat, j: nat) returns (b: bool)
      requires Valid() && i < |abs| && j < |abs| && abs[i].valid && abs[j].valid && abs[i].rid >= 0 && abs[j].rid >= 0
      ensures Valid() && abs[i].rid < |abs[i].recs| && abs[j].rid < |abs[j].recs|
      ensures b == (CodeCompare(key, abs[i].recs[abs[i].rid], abs[j].recs[abs[j].rid]) == Greater)
    {
      hide Store.Valid, Over, Tracks, AllThere, Stored, Holding, CodeCompare;
      CurrentThere(i);
      CurrentThere(j);
      var x := ReadRecord(store, runs[i].rec);
      var y := ReadRecord(store, runs[j].rec);
      b := CodeCompare(key, x, y) == Greater;
    }

    /** Gives out the current record of run `i`: a pointer that is good until the run is loaded again. */
    method Take(i: nat) returns (rec: RecordPtr)
      requires Valid() && i < |abs| && abs[i].valid && abs[i].rid >= 0
      modifies this`runs, this`abs
      ensures AllOk(old(abs)) && AllOk(abs) && Valid() && Moved()
      ensures abs == old(abs)[i := old(abs)[i].(valid := false)]
      ensures old(abs)[i].rid < |old(abs)[i].recs| &&
              Chain.RecordAt(store.view.logical, rec) == old(abs)[i].recs[old(abs)[i].rid]
      ensures Pointed(store.view, rec)
    {
      hide Store.Valid, Over, AllThere, RecsOf, CursorsOf, CurrentOf, MarksOf, AllMarked, StandsAt, Readable,
           HeapFile.Fields, BytesOf, AllEntries, ScansOf, FilesOf, AllTracked, DistinctScans, AllOk, Standing.Ok;
      CurrentThere(i);
      TrackedParts(store, runs, xs, abs, holds);
      TakenOne(abs, i);
      rec := runs[i].rec;
      var run := runs[i].(valid := false);
      ghost var a := abs[i].(valid := false);
      SameScans(runs, i, run);
      assert Tracks(store, run, xs[i], a, holds[i]);
      TrackedParts(store, runs[i := run], xs, abs[i := a], holds);
      runs := runs[i := run];
      abs := abs[i := a];
    }

    /** The next record in sorted order, or FILEEOF. */
    method Next() returns (st: Status, rec: RecordPtr)
      requires Valid()
      modifies this`runs, this`abs, this`holds, ScansOf(runs), store.Repr(), store.bm.db`files
      ensures AllOk(old(abs)) && AllOk(abs) && Valid() && Moved()
      ensures st == OK || st == FILEEOF
      ensures st == OK ==>
                && Output(key, RecsOf(abs), old(CursorsOf(abs))) ==
                   [Chain.RecordAt(store.view.logical, rec)] + Output(key, RecsOf(abs), CursorsOf(abs))
                && CurrentOf(abs) == old(CursorsOf(abs)) && Pointed(store.view, rec)
      ensures st == FILEEOF ==>
                Output(key, RecsOf(abs), old(CursorsOf(abs))) == [] && CursorsOf(abs) == old(CursorsOf(abs))
    {
      hide Store.Valid, Valid, Output, Pick, Left, RecsOf, CursorsOf, CurrentOf, MarksOf, AllOk, AllMarked, Standing.Ok,
           ScansOf, FilesOf, Waiting;
      Facts();
      rec := RecordPtr(0, Key(0, 0), -1);
      OutputStep(key, RecsOf(abs), CursorsOf(abs));
      if |runs| <= 0 {
        return FILEEOF, rec;
      }
      var smallest := FindSmallest();
      if smallest < 0 {
        return FILEEOF, rec;
      }
      ghost var a := abs;
      Facts();
      WaitingRun(a, smallest);
      TakenOne(a, smallest);
      rec := Take(smallest);
      SameTwice(old(abs), a, abs);
      st := OK;
    }

    method MarkAt(i: nat)
      requires Valid() && i < |runs|
      modifies this`runs, this`abs, ScansOf(runs)
      ensures Valid() && ScansOf(runs) == old(ScansOf(runs)) && FilesOf(runs) == old(FilesOf(runs)) &&
              |abs| == |runs| == |old(runs)|
      ensures abs == old(abs)[i := old(abs)[i].WithMark()]
    {
      hide Store.Valid, Over, Tracks, AllTracked, AllThere, Stored, Holding, ScansOf, FilesOf, DistinctScans,
           Standing.WithMark;
      TrackedRun(store, runs, xs, abs, holds, i);
      TrackedParts(store, runs, xs, abs, holds);
      OtherScans(runs, i);
      IsThere(store.view, xs, i);
      EachHolds(base, store.view, holds, i);
      var run := MarkRun(store, runs[i], xs[i], abs[i], holds[i]);
      SameScans(runs, i, run);
      MarkedOk(abs, i);
      TrackedParts(store, runs[i := run], xs, abs[i := abs[i].WithMark()], holds);
      runs := runs[i := run];
      abs := abs[i := abs[i].WithMark()];
    }

    /** Marks the current record of every run. */
    method SetMark()
      requires Valid()
      modifies this`runs, this`abs, ScansOf(runs)
      ensures AllOk(old(abs)) && AllOk(abs) && Valid() && ScansOf(runs) == old(ScansOf(runs)) &&
              FilesOf(runs) == old(FilesOf(runs))
      ensures RecsOf(abs) == old(RecsOf(abs)) && CursorsOf(abs) == old(CursorsOf(abs)) &&
              CurrentOf(abs) == old(CurrentOf(abs))
      ensures AllMarked(abs) && MarksOf(abs) == CurrentOf(abs)
    {
      hide Store.Valid, Valid, RecsOf, CursorsOf, CurrentOf, MarksOf, AllOk, AllMarked, Standing.Ok, ScansOf, FilesOf,
           Standing.WithMark;
      Facts();
      var n := |runs|;
      for i := 0 to n
        invariant Valid() && |abs| == |runs| == n && ScansOf(runs) == old(ScansOf(runs)) &&
                  FilesOf(runs) == old(FilesOf(runs))
        invariant forall k :: 0 <= k < n ==> abs[k] == if k < i then old(abs)[k].WithMark() else old(abs)[k]
      {
        MarkAt(i);
      }
      Facts();
      Marking(old(abs), abs);
    }

    method ResetAt(i: nat) returns (st: Status)
      requires Valid() && i < |abs| && abs[i].marked
      modifies this`runs, this`abs, this`holds, ScansOf(runs), store.Repr(), store.bm.db`files
      ensures st == OK && Valid() && ScansOf(runs) == old(ScansOf(runs)) && FilesOf(runs) == old(FilesOf(runs)) &&
              |abs| == |runs| == |old(runs)|
      ensures abs == old(abs)[i := old(abs)[i].AtMark()]
      ensures store.view.logical == old(store.view.logical) && store.view.free == old(store.view.free) &&
              |store.view.pins| == |old(store.view.pins)|
    {
      hide Store.Valid, Over, Tracks, AllTracked, AllThere, Stored, Exchanged, Holding, ScansOf, FilesOf, DistinctScans,
           Standing.AtMark, AllOk, Standing.Ok, OwnFiles, HeapFile.Full;
      ghost var v := store.view;
      TrackedParts(store, runs, xs, abs, holds);
      TrackedRun(store, runs, xs, abs, holds, i);
      OtherScans(runs, i);
      IsThere(v, xs, i);
      EachHolds(base, v, holds, i);
      NeverFull(i);
      var run;
      ghost var h;
      st, run, h := ResetRun(store, runs[i], xs[i], abs[i], holds[i]);
      WorkOver(base, v, holds, i, store.view, h);
      StillThere(v, store.view, xs);
      SameScans(runs, i, run);
      MarkedOk(abs, i);
      TrackedParts(store, runs[i := run], xs, abs[i := abs[i].AtMark()], holds[i := h]);
      runs := runs[i := run];
      abs := abs[i := abs[i].AtMark()];
      holds := holds[i := h];
    }

    /** Goes back to the marked records, which are taken as not given out. */
    method GotoMark() returns (st: Status)
      requires Valid() && AllMarked(abs)
      modifies this`runs, this`abs, this`holds, ScansOf(runs), store.Repr(), store.bm.db`files
      ensures AllOk(old(abs)) && AllOk(abs) && Valid() && Moved()
      ensures st == OK && CursorsOf(abs) == MarksOf(abs)
    {
      hide Store.Valid, Valid, RecsOf, CursorsOf, CurrentOf, MarksOf, AllOk, AllMarked, Standing.Ok, ScansOf, FilesOf;
      Facts();
      EachMarked(abs);
      var n := |runs|;
      st := OK;
      for i := 0 to n
        invariant Valid() && |abs| == |runs| == n && ScansOf(runs) == old(ScansOf(runs)) &&
                  FilesOf(runs) == old(FilesOf(runs)) && st == OK
        invariant store.view.logical == old(store.view.logical) && store.view.free == old(store.view.free) &&
                  |store.view.pins| == |old(store.view.pins)|
        invariant forall k :: 0 <= k < n ==> abs[k] == if k < i then old(abs)[k].AtMark() else old(abs)[k]
      {
        st := ResetAt(i);
        if st != OK {
          return;
        }
      }
      Facts();
      Resetting(old(abs), abs);
    }

    /** Closes the scan of the first run; if that was the last object on its file, no page of the file is in a frame. */
    method CloseFirst()
      requires Valid() && runs != [] && runs[0].file in store.bm.db.openCnt
      modifies this`runs, this`xs, this`abs, this`holds, ScansOf(runs), store.Repr(), store.bm.db
      ensures Valid() && runs == old(runs)[1..]
      ensures store.view.logical == old(store.view.logical) && store.view.free == old(store.view.free)
      ensures var f, n := old(runs)[0].file, old(store.bm.db.openCnt)[old(runs)[0].file];
              && store.bm.db.openCnt == old(store.bm.db.openCnt)[f := CountAfterClose(n)]
              && (n == 1 ==> forall k :: k in store.bm.pool.table ==> k.file != f)
    {
      hide Store.Valid, Over, Tracks, AllTracked, AllThere, Stored, Closed, Holding, ScansOf, DistinctScans, Durable,
           HeapFile.Core, OwnFiles, FilesOf, OwnHolds;
      ghost var v := store.view;
      var f := runs[0].file;
      FilesRest(runs);
      TrackedParts(store, runs, xs, abs, holds);
      TrackedRun(store, runs, xs, abs, holds, 0);
      OtherScans(runs, 0);
      IsThere(v, xs, 0);
      EachHolds(base, v, holds, 0);
      RunCore(store, runs[0], xs[0], abs[0], holds[0]);
      EachOwn();
      runs[0].inFile.Close();
      CloseOver(base, v, holds, 0, store.view);
      assert Without(holds, 0) == holds[1..];
      NoneLeft(base, store.view, FilesOf(runs), holds);
      NoFrames(store, f);
      StillThere(v, store.view, xs);
      AllThereRest(store.view, xs);
      FewerScans(runs);
      OwnFewer(base, runs);
      TrackedParts(store, runs[1..], xs[1..], abs[1..], holds[1..]);
      runs, xs, abs, holds := runs[1..], xs[1..], abs[1..], holds[1..];
    }

    /** Removes the file of a run whose scan has been closed, unless somebody else has it open. */
    method RemoveRun(f: int)
      requires Valid() && f in store.bm.db.openCnt && f in store.view.free && f !in FilesOf(runs)
      requires store.bm.db.openCnt[f] <= 0 ==> forall k :: k in store.bm.pool.table ==> k.file != f
      modifies store, store.bm`pool, store.bm.db
      ensures Valid()
      ensures var gone := if old(store.bm.db.openCnt)[f] <= 0 then {f} else {};
              && store.bm.db.openCnt == old(store.bm.db.openCnt) - gone &&
                 store.view.free.Keys == old(store.view.free.Keys) - gone
              && PagesKept(old(store.view), store.view, gone)
    {
      hide Store.Valid, Over, Tracks, AllTracked, AllThere, Stored, OwnFiles, FilesOf, ScansOf;
      ghost var v := store.view;
      KeptNow(v, {});
      TrackedParts(store, runs, xs, abs, holds);
      EachOwn();
      assert store.bm.db.openCnt - {} == store.bm.db.openCnt;
      assert v.free.Keys - {} == v.free.Keys;
      var st := store.DestroyFile(f);
      if st == OK {
        RemovedOver(base, v, holds, f);
        RemovedThere(v, xs, FilesOf(runs), f);
      }
      TrackedParts(store, runs, xs, abs, holds);
    }

    /** Closes the scan of the first run and removes its file; the counts without these scans are `left`. */
    method DropFirst(ghost left: map<int, int>) returns (ghost gone: set<int>)
      requires Valid() && runs != [] && CountsAre(store.bm.db.openCnt, left, FilesOf(runs)) &&
               Openable(left, FilesOf(runs))
      modifies this`runs, this`xs, this`abs, this`holds, ScansOf(runs), store.Repr(), store.bm.db
      ensures Valid() && runs == old(runs)[1..] && gone == Unshared(left, old(FilesOf(runs))[..1])
      ensures CountsAre(store.bm.db.openCnt, left - gone, FilesOf(runs)) && Openable(left - gone, FilesOf(runs))
      ensures store.view.free.Keys == old(store.view.free.Keys) - gone && PagesKept(old(store.view), store.view, gone)
    {
      hide Store.Valid, Over, Tracks, AllTracked, AllThere, CountsAre, NoTwice, Openable, FilesOf, Unshared, PagesKept,
           ScansOf;
      ghost var files := FilesOf(runs);
      var f := runs[0].file;
      FilesRest(runs);
      OwnApart(base, files);
      CountClose(store.bm.db.openCnt, left, files);
      FirstThere();
      CloseFirst();
      ghost var before, v := store.bm.db.openCnt, store.view;
      RemoveRun(f);
      gone := Unshared(left, files[..1]);
      FirstUnshared(left, files);
      KeptStart(old(store.view), v, store.view, gone);
      CountRemoved(before, left, files, gone);
    }

    lemma FirstThere()
      requires Valid() && runs != []
      ensures runs[0].file in store.view.free && runs[0].file !in FilesOf(runs[1..])
    {
      hide Store.Valid, Over, Tracks, AllTracked, AllThere;
      TrackedParts(store, runs, xs, abs, holds);
      TrackedFile(store, runs[0], xs[0], abs[0], holds[0]);
      IsThere(store.view, xs, 0);
      FilesRest(runs);
      OwnApart(base, FilesOf(runs));
    }

    /**
     The destructor: every scan is closed and all pins come back. The files of the runs are removed, except those that
     somebody else has open.
     */
    method Close(ghost counts: map<int, int>)
      requires Valid() && CountsAre(store.bm.db.openCnt, counts, FilesOf(runs)) && Openable(counts, FilesOf(runs))
      modifies this`runs, this`xs, this`abs, this`holds, ScansOf(runs), store.Repr(), store.bm.db
      ensures store.Valid() && store.view.pins == base.pins && store.view.owed == base.owed
      ensures var gone := Unshared(counts, old(FilesOf(runs)));
              && store.bm.db.openCnt == counts - gone && store.view.free.Keys == old(store.view.free.Keys) - gone
              && PagesKept(old(store.view), store.view, gone)
    {
      hide Store.Valid, Over, Tracks, AllTracked, AllThere, CountsAre, Openable, FilesOf, Unshared, PagesKept, OwnFiles;
      ghost var gone: set<int>, all := {}, FilesOf(runs);
      KeptNow(store.view, {});
      assert counts - {} == counts;
      while runs != []
        invariant Valid() && ScansOf(runs) <= old(ScansOf(runs))
        invariant CountsAre(store.bm.db.openCnt, counts - gone, FilesOf(runs)) && Openable(counts - gone, FilesOf(runs))
        invariant gone + Unshared(counts, FilesOf(runs)) == Unshared(counts, all)
        invariant store.view.free.Keys == old(store.view.free.Keys) - gone &&
                  PagesKept(old(store.view), store.view, gone)
        decreases |runs|
      {
        ghost var v, files := store.view, FilesOf(runs);
        FilesRest(runs);
        OwnApart(base, files);
        CountClose(store.bm.db.openCnt, counts - gone, files);
        ghost var one := DropFirst(counts - gone);
        KeptMore(old(store.view), v, store.view, gone, one);
        UnsharedSplit(counts, gone, files);
        assert counts - gone - one == counts - (gone + one);
        gone := gone + one;
      }
      TrackedParts(store, runs, xs, abs, holds);
      NothingOver(base, store.view);
      assert FilesOf(runs) == [];
      NoneUnshared(counts);
      CountNoMore(store.bm.db.openCnt, counts - gone);
    }

    lemma EachOwn()
      requires Valid()
      ensures OwnHolds(holds, FilesOf(runs)) && |xs| == |runs| &&
              forall j :: 0 <= j < |runs| ==> xs[j].file == FilesOf(runs)[j]
    {
      hide Store.Valid, Tracks, AllTracked, AllThere, Over;
      TrackedParts(store, runs, xs, abs, holds);
      forall j | 0 <= j < |runs| ensures HoldsOwn(holds[j], runs[j].file) && xs[j].file == FilesOf(runs)[j] {
        TrackedHold(store, runs[j], xs[j], abs[j], holds[j]);
        TrackedFile(store, runs[j], xs[j], abs[j], holds[j]);
      }
    }

    /**
     The page a scan is on is pinned by that scan alone, so that a scan that leaves its page always finds a frame for
     the next.
     */
    lemma NeverFull(i: nat)
      requires Valid() && i < |runs|
      ensures !runs[i].inFile.Full()
    {
      hide Store.Valid, Tracks, AllTracked, AllThere, Over, PinnedPages;
      TrackedParts(store, runs, xs, abs, holds);
      EachOwn();
      TrackedHold(store, runs[i], xs[i], abs[i], holds[i]);
      OwnPage(base, store.view, FilesOf(runs), holds, i);
      store.PagesFit();
      PinnedOnce(store.view.pins, holds[i].c);
    }

    lemma CurrentThere(i: nat)
      requires Valid() && i < |abs| && abs[i].valid && abs[i].rid >= 0
      ensures i < |runs| && abs[i].rid < |abs[i].recs|
      ensures Pointed(store.view, runs[i].rec) &&
              Chain.RecordAt(store.view.logical, runs[i].rec) == abs[i].recs[abs[i].rid]
    {
      hide Store.Valid, Over, Tracks, AllTracked, AllThere, Stored, Holding;
      TrackedParts(store, runs, xs, abs, holds);
      IsThere(store.view, xs, i);
      EachHolds(base, store.view, holds, i);
      RecordThere(store, runs[i], xs[i], abs[i], holds[i]);
    }
  }

  /** The object has pages of file `f` pinned only. */
  ghost predicate HoldsOwn(o: Hold, f: int) {
    o.h.file == f && o.c.file == f
  }

  lemma TrackedHold(s: Store, r: Run, x: HeapImage, a: Standing, h: Hold)
    requires Tracks(s, r, x, a, h)
    ensures HoldsOwn(h, r.file) && h.pinned && h.c != h.h && h.c == Key(r.inFile.filePtr, r.inFile.curPageNo) &&
            r.inFile.curPage && r.inFile.store == s
  {
    hide StandsAt, AllEntries, BytesOf, Readable;
  }

  /** Each object is on the file of its run. */
  ghost predicate OwnHolds(hs: seq<Hold>, files: seq<int>) {
    |hs| == |files| && forall j :: 0 <= j < |hs| ==> HoldsOwn(hs[j], files[j])
  }

  lemma OwnPage(b: Base, v: View, files: seq<int>, hs: seq<Hold>, i: nat)
    requires OwnFiles(b, files) && OwnHolds(hs, files) && i < |hs| && Over(b, v, hs) && hs[i].pinned &&
             hs[i].c != hs[i].h
    ensures v.pins[hs[i].c] == 1
  {
    var k := hs[i].c;
    assert HoldsOwn(hs[i], files[i]) && k.file in files;
    forall j | 0 <= j < |hs| && j != i ensures hs[j].Mine(k) == 0 {
      assert HoldsOwn(hs[j], files[j]);
      SameFile(files, i, j);
    }
    OnlyOne(hs, i, k);
    assert OverAt(b, v, hs, k);
  }

  lemma PinnedOnce(pins: multiset<Key>, k: Key)
    requires pins[k] == 1
    ensures |PinnedPages(pins - multiset{k})| == |PinnedPages(pins)| - 1
  {
    assert PinnedPages(pins - multiset{k}) == PinnedPages(pins) - {k};
  }

  lemma ScanOf(runs: seq<Run>, i: nat)
    requires i < |runs|
    ensures runs[i].inFile in ScansOf(runs)
  {
    assert runs[i] in runs;
  }

  lemma OtherScans(runs: seq<Run>, i: nat)
    requires DistinctScans(runs) && i < |runs|
    ensures forall k :: 0 <= k < |runs| && k != i ==> runs[k].inFile != runs[i].inFile
  {
  }

  lemma FewerScans(runs: seq<Run>)
    requires runs != []
    ensures ScansOf(runs[1..]) <= ScansOf(runs) && (DistinctScans(runs) ==> DistinctScans(runs[1..]))
  {
  }

  lemma OwnFewer(b: Base, runs: seq<Run>)
    requires runs != [] && OwnFiles(b, FilesOf(runs))
    ensures OwnFiles(b, FilesOf(runs[1..]))
  {
    assert FilesOf(runs)[1..] == FilesOf(runs[1..]);
  }

  lemma OwnApart(b: Base, files: seq<int>)
    requires OwnFiles(b, files)
    ensures NoTwice(files) && (files != [] ==> files[0] !in files[1..])
  {
  }

  /** Once its scan is closed nobody has a page of the first run pinned. */
  lemma NoneLeft(b: Base, v: View, files: seq<int>, hs: seq<Hold>)
    requires OwnFiles(b, files) && files != [] && OwnHolds(hs, files) && Over(b, v, hs[1..])
    ensures forall k: Key :: k.file == files[0] ==> v.pins[k] == 0
  {
    OwnApart(b, files);
    forall k: Key | k.file == files[0] ensures v.pins[k] == 0 {
      forall j | 0 <= j < |hs[1..]| ensures hs[1..][j].Mine(k) == 0 {
        assert HoldsOwn(hs[j + 1], files[j + 1]);
        SameFile(files, 0, j + 1);
      }
      NoneOf(hs[1..], k);
      assert OverAt(b, v, hs[1..], k);
    }
  }

  lemma NoFrames(s: Store, f: int)
    ensures Durable(s.bm.pool, s.view, f) ==> forall k :: k in s.bm.pool.table ==> k.file != f
  {
  }

  lemma TrackedFile(s: Store, r: Run, x: HeapImage, a: Standing, h: Hold)
    requires Tracks(s, r, x, a, h)
    ensures x.file == r.file
  {
    hide StandsAt, AllEntries, BytesOf, Readable;
  }

  lemma RemovedOver(b: Base, v: View, hs: seq<Hold>, f: int)
    requires Over(b, v, hs)
    ensures Over(b, Removing(v, f), hs)
  {
    forall k ensures OverAt(b, Removing(v, f), hs, k) {
      assert OverAt(b, v, hs, k);
    }
  }

  lemma RemovedThere(v: View, xs: seq<HeapImage>, files: seq<int>, f: int)
    requires AllThere(v, xs) && |xs| == |files| && f !in files && forall j :: 0 <= j < |xs| ==> xs[j].file == files[j]
    ensures AllThere(Removing(v, f), xs) && PagesKept(v, Removing(v, f), {f})
  {
    hide HeapAt, PagesOf;
    forall j | 0 <= j < |xs| ensures Stored(Removing(v, f), xs[j]) {
      assert files[j] in files && Stored(v, xs[j]);
      SamePages(v.logical, xs[j].file, 1, xs[j].chain, Removing(v, f).logical);
    }
  }

  lemma FilesRest(runs: seq<Run>)
    requires runs != []
    ensures FilesOf(runs)[1..] == FilesOf(runs[1..]) && FilesOf(runs)[0] == runs[0].file &&
            ScansOf(runs[1..]) <= ScansOf(runs)
  {
  }

  lemma SameScans(runs: seq<Run>, i: nat, run: Run)
    requires i < |runs| && run.inFile == runs[i].inFile && run.file == runs[i].file
    ensures var runs' := runs[i := run]; ScansOf(runs') == ScansOf(runs) && FilesOf(runs') == FilesOf(runs)
    ensures DistinctScans(runs) ==> DistinctScans(runs[i := run])
  {
    var runs' := runs[i := run];
    forall f | f in ScansOf(runs) ensures f in ScansOf(runs') {
      var k :| 0 <= k < |runs| && runs[k].inFile == f;
      ScanOf(runs', k);
    }
    forall f | f in ScansOf(runs') ensures f in ScansOf(runs) {
      var k :| 0 <= k < |runs'| && runs'[k].inFile == f;
      ScanOf(runs, k);
    }
    assert FilesOf(runs') == FilesOf(runs);
  }

  /** How many runs are made of `n` records: n over m, rounded up. */
  function RunCount(n: nat, m: int): nat
    requires m >= 1
  {
    (n + m - 1) / m
  }

  /**
   What a sort needs to write its runs if its parameters are accepted: a file for each run and seven frames, two for
   each of the scan of the source, the run and the source again, and one for a new page of the run.
   */
  predicate Enough(offset: int, length: int, kind: Datatype, maxItems: int, records: nat, files: nat, pins: nat,
                   frames: int) {
    GoodScan(offset, length, kind) && maxItems >= 2 ==> RunCount(records, maxItems) <= files && pins + 7 <= frames
  }

  /** The status of a sort: in the end there must be two frames for every run besides the `taken` ones. */
  function Outcome(offset: int, length: int, kind: Datatype, maxItems: int, source: seq<Bytes>, fileStatus: Status,
                   taken: nat, frames: int): Status {
    if !GoodScan(offset, length, kind) then BADSORTPARM
    else if maxItems < 2 then INSUFMEM
    else if SortStatus(source, maxItems, fileStatus) != OK then SortStatus(source, maxItems, fileStatus)
    else if taken + 2 * RunCount(|source|, maxItems) <= frames then OK else BUFFEREXCEEDED
  }

  /**
   A sort whose parameters are accepted and whose run files can be opened succeeds if and only if the source has no
   empty
   record and the pool has two frames for every run.
   */
  lemma SortWorksIff(offset: int, length: int, kind: Datatype, maxItems: int, source: seq<Bytes>, taken: nat,
                     frames: int)
    requires GoodScan(offset, length, kind) && maxItems >= 2
    ensures Outcome(offset, length, kind, maxItems, source, OK, taken, frames) == OK <==>
              Readable(source) && taken + 2 * RunCount(|source|, maxItems) <= frames
  {
    SortSucceedsIff(source, maxItems);
  }

  /** With 100 frames and two records in a run, 102 records are too many. */
  lemma TooManyRuns(offset: int, length: int, kind: Datatype, source: seq<Bytes>)
    requires GoodScan(offset, length, kind) && Readable(source) && |source| == 102
    ensures Outcome(offset, length, kind, 2, source, OK, 0, 100) == BUFFEREXCEEDED
  {
    SortSucceedsIff(source, 2);
  }

  // ----- the frames the runs take

  /** The pages that are pinned when scans are open on the first `n` runs. */
  ghost function RunPages(images: seq<HeapImage>, n: nat): set<Key>
    requires n <= |images|
  {
    if n == 0 then {}
    else RunPages(images, n - 1) + if images[n - 1].chain == [] then {}
         else FirstPages(images[n - 1].file, images[n - 1].chain)
  }

  lemma NoPages(pins: multiset<Key>, images: seq<HeapImage>)
    ensures PinnedPages(pins) == PinnedPages(pins) + RunPages(images, 0)
  {
  }

  lemma MorePages(before: multiset<Key>, pins: multiset<Key>, images: seq<HeapImage>, i: nat, f: int, frames: int)
    requires i < |images| && images[i].chain != [] && images[i].file == f &&
             PinnedPages(pins) == PinnedPages(before) + RunPages(images, i)
    ensures FramesFor(pins, FirstPages(f, images[i].chain), frames) <==>
              FramesFor(before, RunPages(images, i + 1), frames)
    ensures PinnedPages(pins + multiset{Key(f, 1)} + multiset{Key(f, images[i].chain[0])}) ==
            PinnedPages(before) + RunPages(images, i + 1)
  {
    var a, c := Key(f, 1), Key(f, images[i].chain[0]);
    PagesPinned(pins, a);
    PagesPinned(pins + multiset{a}, c);
    assert PinnedPages(pins) + {a, c} == PinnedPages(before) + RunPages(images, i + 1);
    assert PinnedPages(pins) + {a} + {c} == PinnedPages(pins) + {a, c};
  }

  lemma {:induction false} PagesGrow(images: seq<HeapImage>, i: nat, n: nat)
    requires i <= n <= |images|
    ensures RunPages(images, i) <= RunPages(images, n)
  {
    if i < n {
      PagesGrow(images, i, n - 1);
    }
  }

  lemma MoreFrames(pins: multiset<Key>, images: seq<HeapImage>, i: nat, n: nat, frames: int)
    requires i <= n <= |images|
    ensures FramesFor(pins, RunPages(images, n), frames) ==> FramesFor(pins, RunPages(images, i), frames)
  {
    PagesGrow(images, i, n);
    SubsetFew(PinnedPages(pins) + RunPages(images, i), PinnedPages(pins) + RunPages(images, n));
  }

  lemma AllFit(before: multiset<Key>, pins: multiset<Key>, images: seq<HeapImage>, frames: int)
    requires PinnedPages(pins) == PinnedPages(before) + RunPages(images, |images|) && |PinnedPages(pins)| <= frames
    ensures FramesFor(before, RunPages(images, |images|), frames)
  {
  }

  lemma {:induction false} RunPagesAre(images: seq<HeapImage>, files: seq<int>, n: nat, k: Key)
    requires n <= |images| == |files| && k in RunPages(images, n) &&
             forall i :: 0 <= i < n ==> images[i].file == files[i]
    ensures k.file in files[..n]
  {
    if n > 0 {
      assert files[..n] == files[..n - 1] + [files[n - 1]];
      if k in RunPages(images, n - 1) {
        RunPagesAre(images, files, n - 1, k);
      }
    }
  }

  lemma {:induction false} RunPagesCount(images: seq<HeapImage>, files: seq<int>, n: nat)
    requires n <= |images| == |files| && NoTwice(files)
    requires forall i :: 0 <= i < n ==> images[i].file == files[i] && images[i].chain != [] && images[i].chain[0] != 1
    ensures |RunPages(images, n)| == 2 * n
  {
    if n > 0 {
      RunPagesCount(images, files, n - 1);
      var f, ks := files[n - 1], RunPages(images, n - 1);
      forall k | k in ks ensures k.file != f {
        RunPagesAre(images, files, n - 1, k);
        var j :| 0 <= j < n - 1 && files[j] == k.file;
      }
      var two := FirstPages(f, images[n - 1].chain);
      assert ks !! two;
      assert |two| == 2;
    }
  }

  /**
   If nobody has pages of the runs pinned, the scans need two frames for every run besides those of the pages that are
   pinned.
   */
  lemma FramesForRuns(v: View, images: seq<HeapImage>, files: seq<int>, rs: Runs, b: Base, frames: int)
    requires AllStored(v, files, images, rs) && NoTwice(files) && OwnFiles(b, files)
    ensures FramesFor(b.pins, RunPages(images, |images|), frames) <==> |PinnedPages(b.pins)| + 2 * |images| <= frames
  {
    hide HeapAt, PagesOf, BytesOf, AllEntries;
    var n := |images|;
    forall i | 0 <= i < n ensures images[i].file == files[i] && images[i].chain != [] && images[i].chain[0] != 1 {
      assert RunStored(v, images[i], files[i], rs[i]);
      HeaderFacts(v.logical, files[i], 1, images[i].chain);
      ChainFacts(v.logical, files[i], 1, images[i].chain, 0);
    }
    assert NoTwice(files[..n]);
    RunPagesCount(images, files[..n], n);
    forall k | k in RunPages(images, n) ensures k !in PinnedPages(b.pins) {
      RunPagesAre(images, files[..n], n, k);
    }
    assert PinnedPages(b.pins) !! RunPages(images, n);
  }

  lemma OwnMore(b: Base, files: seq<int>, i: nat)
    requires OwnFiles(b, files) && i < |files|
    ensures OwnFiles(b, files[..i] + [files[i]])
  {
    assert files[..i] + [files[i]] == files[..i + 1];
  }

  lemma NewTracks(s: Store, r: Run, x: HeapImage, recs: seq<Bytes>)
    requires Stored(s.view, x) && BytesOf(AllEntries(x.pages)) == recs && Readable(recs)
    requires r.inFile.store == s && r.inFile.filePtr == r.file == x.file && r.inFile.headerPageNo == 1 &&
             r.inFile.Fields(x.chain)
    requires r.inFile.curPage && r.inFile.pos == 0 && r.inFile.curRec == NULLRID && r.inFile.filter == Unfiltered &&
             !r.valid && r.rid == RID(-1, -1)
    ensures Tracks(s, r, x, NewRun(recs), r.inFile.Held())
  {
    hide HeapAt, PagesOf, AllEntries, BytesOf, Readable, Ahead;
    HeaderFacts(s.view.logical, x.file, 1, x.chain);
    ChainFacts(s.view.logical, x.file, 1, x.chain, 0);
    Query.FreshScan(r.inFile.Position(), x.pages);
    assert AllEntries(x.pages)[0..] == AllEntries(x.pages);
  }

  lemma MoreScans(runs: seq<Run>, run: Run)
    ensures ScansOf(runs + [run]) == ScansOf(runs) + {run.inFile} && FilesOf(runs + [run]) == FilesOf(runs) + [run.file]
    ensures DistinctScans(runs) && (forall k :: 0 <= k < |runs| ==> runs[k].inFile != run.inFile) ==>
              DistinctScans(runs + [run])
  {
    forall i | 0 <= i < |runs| ensures runs[i].inFile in ScansOf(runs) {
      ScanOf(runs, i);
    }
    ScanOf(runs + [run], |runs|);
  }

  lemma FilesApart(files: seq<int>, f: int)
    requires DistinctFiles(files, f)
    ensures NoTwice(files)
  {
  }

  lemma StoredLength(v: View, files: seq<int>, images: seq<HeapImage>, rs: Runs)
    requires AllStored(v, files, images, rs)
    ensures |images| == |rs| <= |files|
  {
  }

  lemma StoredRun(v: View, w: View, files: seq<int>, images: seq<HeapImage>, rs: Runs, i: nat)
    requires AllStored(v, files, images, rs) && w.logical == v.logical && w.free == v.free && i < |images|
    ensures i < |rs| <= |files| && RunStored(w, images[i], files[i], rs[i]) && images[i].file == files[i]
  {
    hide RunStored;
    StoredTwice(v, w, files, images, rs);
    RunParts(w, images[i], files[i], rs[i]);
  }

  lemma NoScans(s: Store, v: View, b: Base)
    ensures AllTracked(s, [], [], [], []) && AllThere(v, []) && ScansOf([]) == {} && OwnFiles(b, FilesOf([]))
  {
  }

  lemma CountNoMore(now: map<int, int>, counts: map<int, int>)
    ensures CountsAre(now, counts, []) ==> now == counts
  {
    if CountsAre(now, counts, []) {
      assert forall f :: f in now ==> now[f] == counts[f];
      assert now == counts;
    }
  }

  lemma CountNone(counts: map<int, int>)
    ensures CountsAre(counts, counts, [])
  {
  }

  lemma NotYet(now: map<int, int>, counts: map<int, int>, files: seq<int>, f: int, i: nat)
    requires DistinctFiles(files, f) && Counted(counts, files, f) && i < |files| && CountsAre(now, counts, files[..i])
    ensures files[i] in now && CountsAre(now[files[i] := now[files[i]] + 1], counts, files[..i] + [files[i]])
  {
    CountOpen(now, counts, files[..i], files[i]);
  }

  /** Nothing has been fetched of any run. */
  predicate AllNew(abs: seq<Standing>) {
    forall k :: 0 <= k < |abs| ==> abs[k] == NewRun(abs[k].recs)
  }

  /**
   The runs of a sort before anything is fetched: sorted copies of the pieces of the source, in the first of the
   files.
   */
  ghost predicate Prepared(key: SortKey, source: seq<Bytes>, m: int, files: seq<int>, runs: seq<Run>,
                           abs: seq<Standing>) {
    && m >= 1 && |runs| == |abs| == RunCount(|source|, m) <= |files| && FilesOf(runs) == files[..|runs|]
    && AllNew(abs) && Generated(key, Chunks(source, m), RecsOf(abs))
  }

  lemma PreparedSorts(key: SortKey, source: seq<Bytes>, m: int, files: seq<int>, runs: seq<Run>, abs: seq<Standing>)
    requires Prepared(key, source, m, files, runs, abs) && AllOrdered(key, source)
    ensures AllOk(abs) && var out := Output(key, RecsOf(abs), CursorsOf(abs));
            multiset(out) == multiset(source) && RunSorted(key, out)
  {
    hide Output, Generated, AllOrdered, RunSorted, Chunks;
    FreshRuns(abs);
    ExternalSort(key, source, m, RecsOf(abs));
  }

  lemma FreshRuns(abs: seq<Standing>)
    requires AllNew(abs)
    ensures AllOk(abs) && CursorsOf(abs) == Zeros(|abs|)
  {
    assert AllOk(abs);
    assert CursorsOf(abs) == Zeros(|abs|);
  }

  lemma Pieces(source: seq<Bytes>, m: int)
    requires m >= 1
    ensures |Chunks(source, m)| == RunCount(|source|, m)
  {
    ChunkCount(source, m);
  }

  lemma {:induction false} StatusReadable(source: seq<Bytes>, m: int, fileStatus: Status)
    requires m >= 1 && SortStatus(source, m, fileStatus) == OK
    ensures Readable(source)
    decreases |source|
  {
    if source != [] {
      var n := |First(source, m)|;
      StatusReadable(source[n..], m, fileStatus);
      assert source == First(source, m) + source[n..];
    }
  }

  /** After a successful sort no run has an empty record. */
  lemma RunsReadable(key: SortKey, source: seq<Bytes>, m: int, fileStatus: Status, rs: Runs)
    requires m >= 1 && SortStatus(source, m, fileStatus) == OK && Generated(key, Chunks(source, m), rs)
    ensures |rs| == RunCount(|source|, m) && forall k :: 0 <= k < |rs| ==> Readable(rs[k])
  {
    hide Chunks, SortStatus, AllOrdered, RunSorted;
    StatusReadable(source, m, fileStatus);
    Pieces(source, m);
    forall k, i | 0 <= k < |rs| && 0 <= i < |rs[k]| ensures rs[k][i] != [] {
      assert SortedCopy(key, Chunks(source, m)[k], rs[k]);
      var p := SortSpec.PlaceIn(Chunks(source, m)[k], rs[k], i);
      var x := SourcePlace(source, m, k, p);
      assert source[x] == rs[k][i];
    }
  }

  // ----- reading a sorted file

  /** The next record in sorted order, read where next() points. */
  method NextBytes(sf: SortedFile) returns (st: Status, rec: Bytes)
    requires sf.Valid()
    modifies sf`runs, sf`abs, sf`holds, ScansOf(sf.runs), sf.store.Repr(), sf.store.bm.db`files
    ensures AllOk(old(sf.abs)) && AllOk(sf.abs) && sf.Valid() && sf.Moved()
    ensures st == OK || st == FILEEOF
    ensures st == OK ==>
              && Output(sf.key, RecsOf(sf.abs), old(CursorsOf(sf.abs))) ==
                 [rec] + Output(sf.key, RecsOf(sf.abs), CursorsOf(sf.abs))
              && CurrentOf(sf.abs) == old(CursorsOf(sf.abs))
    ensures st == FILEEOF ==>
              Output(sf.key, RecsOf(sf.abs), old(CursorsOf(sf.abs))) == [] &&
              CursorsOf(sf.abs) == old(CursorsOf(sf.abs))
  {
    hide Output, AllOk, RecsOf, CursorsOf, CurrentOf, MarksOf, AllMarked, ScansOf, FilesOf, Store.Valid, Over, Tracks,
         AllThere, Pointed;
    rec := [];
    var p;
    st, p := sf.Next();
    if st == OK {
      rec := ReadRecord(sf.store, p);
    }
  }

  /** Reads a sorted file to its end. */
  method ReadAll(sf: SortedFile) returns (out: seq<Bytes>)
    requires sf.Valid()
    modifies sf`runs, sf`abs, sf`holds, ScansOf(sf.runs), sf.store.Repr(), sf.store.bm.db`files
    ensures AllOk(old(sf.abs)) && AllOk(sf.abs) && sf.Valid() && sf.Moved()
    ensures out == Output(sf.key, RecsOf(sf.abs), old(CursorsOf(sf.abs)))
  {
    hide SortedFile.Valid, Output, AllOk, RecsOf, CursorsOf, CurrentOf, MarksOf, AllMarked, ScansOf, FilesOf;
    sf.Facts();
    out := [];
    ghost var all := Output(sf.key, RecsOf(sf.abs), CursorsOf(sf.abs));
    while true
      invariant sf.Valid() && AllOk(sf.abs) && sf.Moved()
      invariant out + Output(sf.key, RecsOf(sf.abs), CursorsOf(sf.abs)) == all
      decreases |Output(sf.key, RecsOf(sf.abs), CursorsOf(sf.abs))|
    {
      ghost var before := sf.abs;
      var st, rec := NextBytes(sf);
      SameTwice(old(sf.abs), before, sf.abs);
      if st != OK {
        return;
      }
      ghost var rest := Output(sf.key, RecsOf(sf.abs), CursorsOf(sf.abs));
      assert out + ([rec] + rest) == out + [rec] + rest;
      out := out + [rec];
    }
  }

  /** A mark set after next() has returned a record leads back to that record, wherever the runs have come to. */
  method Replay(sf: SortedFile, n: nat) returns (st: Status, rec: Bytes, again: Bytes)
    requires sf.Valid()
    modifies sf`runs, sf`abs, sf`holds, ScansOf(sf.runs), sf.store.Repr(), sf.store.bm.db`files
    ensures AllOk(old(sf.abs)) && AllOk(sf.abs) && sf.Valid() && RecsOf(sf.abs) == old(RecsOf(sf.abs))
    ensures st == OK <==> Output(sf.key, RecsOf(sf.abs), old(CursorsOf(sf.abs))) != []
    ensures st == OK ==>
              rec == again && [rec] + Output(sf.key, RecsOf(sf.abs), CursorsOf(sf.abs)) ==
                Output(sf.key, RecsOf(sf.abs), old(CursorsOf(sf.abs)))
  {
    hide SortedFile.Valid, Output, AllOk, RecsOf, CursorsOf, CurrentOf, MarksOf, AllMarked, ScansOf, FilesOf;
    sf.Facts();
    st, rec := NextBytes(sf);
    again := rec;
    if st == OK {
      sf.SetMark();
      for i := 0 to n
        invariant sf.Valid() && AllOk(sf.abs) && RecsOf(sf.abs) == old(RecsOf(sf.abs)) &&
                  MarksOf(sf.abs) == old(CursorsOf(sf.abs)) && AllMarked(sf.abs)
        invariant ScansOf(sf.runs) == old(ScansOf(sf.runs))
      {
        var further, r := sf.Next();
      }
      st := sf.GotoMark();
      ghost var out := Output(sf.key, RecsOf(sf.abs), CursorsOf(sf.abs));
      assert out[0] == rec;
      st, again := NextBytes(sf);
      assert out[0] == again;
    }
  }

  /** A mark set before the first next() leads to the end: nothing is returned any more. */
  method EarlyMark(sf: SortedFile, n: nat) returns (st: Status, rec: RecordPtr)
    requires sf.Valid() && AllNew(sf.abs)
    modifies sf`runs, sf`abs, sf`holds, ScansOf(sf.runs), sf.store.Repr(), sf.store.bm.db`files
    ensures sf.Valid() && st == FILEEOF
  {
    hide SortedFile.Valid, Output, AllOk, RecsOf, CursorsOf, CurrentOf, MarksOf, AllMarked, ScansOf, FilesOf;
    sf.Facts();
    MarksAtEnd(sf.key, sf.abs);
    sf.SetMark();
    for i := 0 to n
      invariant sf.Valid() && AllOk(sf.abs) && RecsOf(sf.abs) == old(RecsOf(sf.abs)) &&
                MarksOf(sf.abs) == old(CurrentOf(sf.abs)) && AllMarked(sf.abs)
      invariant ScansOf(sf.runs) == old(ScansOf(sf.runs))
    {
      var further, r := sf.Next();
    }
    st := sf.GotoMark();
    st, rec := sf.Next();
  }

  lemma MarksAtEnd(key: SortKey, abs: seq<Standing>)
    requires AllOk(abs) && forall k :: 0 <= k < |abs| ==> abs[k].rid == -1
    ensures Output(key, RecsOf(abs), CurrentOf(abs)) == []
  {
    OutputStep(key, RecsOf(abs), CurrentOf(abs));
  }
}
