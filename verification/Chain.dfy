/** The pages of a heap file in the storage clients see, and the pins its objects hold. */
module Chain {
  import opened Common
  import opened Compare
  import opened PageSpec
  import opened DiskSpec
  import opened BufHash
  import opened BufRefine
  import opened BufRuns
  import opened HeapSpec

  type Logical = map<Key, Block>

  /** Page `i` of the chain: a well-formed data page that knows its own number and points to the next. */
  ghost predicate PageAt(l: Logical, f: int, chain: seq<int>, i: nat)
    requires i < |chain|
  {
    var k := Key(f, chain[i]);
    && chain[i] >= 1 && k in l && l[k].DataPage?
    && l[k].page.WellFormed() && l[k].page.curPage == chain[i] && l[k].page.nextPage == Nth(chain, i + 1)
  }

  ghost predicate ChainAt(l: Logical, f: int, chain: seq<int>) {
    && |chain| >= 1 && Distinct(chain)
    && (forall i :: 0 <= i < |chain| ==> PageAt(l, f, chain, i))
  }

  ghost function PagesOf(l: Logical, f: int, chain: seq<int>): (pages: seq<PageImage>)
    requires forall i :: 0 <= i < |chain| ==> PageAt(l, f, chain, i)
    ensures |pages| == |chain|
  {
    PagesBefore(l, f, chain, |chain|)
  }

  ghost function PagesBefore(l: Logical, f: int, chain: seq<int>, n: nat): (pages: seq<PageImage>)
    requires n <= |chain| && forall i :: 0 <= i < |chain| ==> PageAt(l, f, chain, i)
    ensures |pages| == n
  {
    if n == 0 then []
    else
      assert PageAt(l, f, chain, n - 1);
      PagesBefore(l, f, chain, n - 1) + [l[Key(f, chain[n - 1])].page]
  }

  lemma {:induction false} PageBefore(l: Logical, f: int, chain: seq<int>, n: nat, i: nat)
    requires i < n <= |chain| && forall j :: 0 <= j < |chain| ==> PageAt(l, f, chain, j)
    ensures PageAt(l, f, chain, i) && l[Key(f, chain[i])] == DataPage(PagesBefore(l, f, chain, n)[i])
  {
    assert PageAt(l, f, chain, n - 1);
    if i < n - 1 {
      PageBefore(l, f, chain, n - 1, i);
    }
  }

  function HeaderFor(chain: seq<int>, recCnt: int): Block
    requires chain != []
  {
    HeapHeader(FileHdr(chain[0], chain[|chain| - 1], |chain|, recCnt))
  }

  /**
   The heap-file invariant: from the header's first page the chain visits pageCnt distinct pages
   and ends at its last page, and recCnt is the number of records on them.
   */
  ghost predicate HeapAt(l: Logical, f: int, h: int, chain: seq<int>) {
    && ChainAt(l, f, chain) && h >= 1 && h !in chain
    && Key(f, h) in l && l[Key(f, h)] == HeaderFor(chain, |AllEntries(PagesOf(l, f, chain))|)
  }

  lemma PageOnChain(l: Logical, f: int, h: int, chain: seq<int>, i: nat)
    requires HeapAt(l, f, h, chain) && i < |chain|
    ensures PageAt(l, f, chain, i) && l[Key(f, chain[i])] == DataPage(PagesOf(l, f, chain)[i]) && chain[i] != h &&
            chain[i] >= 1
    ensures PagesOf(l, f, chain)[i].curPage == chain[i] && PagesOf(l, f, chain)[i].nextPage == Nth(chain, i + 1)
    ensures PagesOf(l, f, chain)[i].WellFormed()
    ensures i == |chain| - 1 <==> PagesOf(l, f, chain)[i].nextPage == -1
  {
    hide PagesBefore;
    PageBefore(l, f, chain, |chain|, i);
    if i + 1 < |chain| {
      assert PageAt(l, f, chain, i + 1);
    }
  }

  lemma ChangeOnePage(l: Logical, f: int, chain: seq<int>, i: nat, q: PageImage, l': Logical, j: nat)
    requires i < |chain| && j < |chain| && Distinct(chain) && PageAt(l, f, chain, j)
    requires q.WellFormed() && q.curPage == chain[i] && q.nextPage == Nth(chain, i + 1)
    requires forall n :: n in chain && n != chain[i] && Key(f, n) in l ==>
               Key(f, n) in l' && l'[Key(f, n)] == l[Key(f, n)]
    requires chain[i] >= 1 && Key(f, chain[i]) in l' && l'[Key(f, chain[i])] == DataPage(q)
    ensures PageAt(l', f, chain, j) && l'[Key(f, chain[j])].page == if j == i then q else l[Key(f, chain[j])].page
  {
    hide PageImage.WellFormed;
  }

  /** Changing the slots of one page and the record count keeps the chain. */
  lemma ChangePage(l: Logical, f: int, h: int, chain: seq<int>, i: nat, q: PageImage, l': Logical)
    requires HeapAt(l, f, h, chain) && i < |chain|
    requires q.WellFormed() && q.curPage == chain[i] && q.nextPage == Nth(chain, i + 1)
    requires l' == l[Key(f, chain[i]) := DataPage(q)][Key(f, h) :=
                                                      HeaderFor(chain, |AllEntries(PagesOf(l, f, chain)[i := q])|)]
    ensures HeapAt(l', f, h, chain) && PagesOf(l', f, chain) == PagesOf(l, f, chain)[i := q]
  {
    hide AllEntries, PageImage.WellFormed, PagesBefore, PageAt;
    PageOnChain(l, f, h, chain, i);
    var pages := PagesOf(l, f, chain);
    forall j | 0 <= j < |chain| ensures PageAt(l', f, chain, j) {
      ChangeOnePage(l, f, chain, i, q, l', j);
    }
    var pages' := PagesOf(l', f, chain);
    forall j | 0 <= j < |chain| ensures pages'[j] == pages[i := q][j] {
      ChangeOnePage(l, f, chain, i, q, l', j);
      PageBefore(l, f, chain, |chain|, j);
      PageBefore(l', f, chain, |chain|, j);
    }
    assert pages' == pages[i := q];
  }

  /** A file is the same wherever its own pages are. */
  lemma SamePages(l: Logical, f: int, h: int, chain: seq<int>, l': Logical)
    requires HeapAt(l, f, h, chain)
    requires forall k :: k in l && k.file == f ==> k in l' && l'[k] == l[k]
    ensures HeapAt(l', f, h, chain) && PagesOf(l', f, chain) == PagesOf(l, f, chain)
  {
    hide AllEntries, PageImage.WellFormed, PagesBefore;
    forall j | 0 <= j < |chain| ensures PageAt(l', f, chain, j) {
      assert PageAt(l, f, chain, j);
    }
    var pages, pages' := PagesOf(l, f, chain), PagesOf(l', f, chain);
    forall j | 0 <= j < |chain| ensures pages'[j] == pages[j] {
      PageBefore(l, f, chain, |chain|, j);
      PageBefore(l', f, chain, |chain|, j);
    }
    assert pages' == pages;
  }

  /** The pages after a blank page `n` has been linked behind the chain. */
  lemma AppendedPage(l: Logical, f: int, h: int, chain: seq<int>, n: int, l': Logical, j: nat)
    requires HeapAt(l, f, h, chain) && Key(f, n) !in l && n >= 1
    requires l' == l[Key(f, n) := DataPage(EmptyPage(n))]
                    [Key(f, h) := HeaderFor(chain + [n], |AllEntries(PagesOf(l, f, chain))|)]
                    [Key(f, chain[|chain| - 1]) := DataPage(PagesOf(l, f, chain)[|chain| - 1].(nextPage := n))]
    requires j <= |chain|
    ensures PageAt(l', f, chain + [n], j) && n !in chain && n != h
    ensures l'[Key(f, (chain + [n])[j])] == DataPage(AppendBlank(PagesOf(l, f, chain), n)[j])
  {
    hide AllEntries, PagesBefore;
    forall i | 0 <= i < |chain| ensures chain[i] != n {
      PageOnChain(l, f, h, chain, i);
    }
    BlankWellFormed(n);
    PageOnChain(l, f, h, chain, |chain| - 1);
    LinkWellFormed(PagesOf(l, f, chain)[|chain| - 1], n);
    hide PageImage.WellFormed;
    if j < |chain| {
      PageOnChain(l, f, h, chain, j);
    }
  }

  lemma BlankWellFormed(n: int)
    ensures EmptyPage(n).WellFormed()
  {
  }

  lemma LinkWellFormed(p: PageImage, n: int)
    requires p.WellFormed()
    ensures p.(nextPage := n).WellFormed()
  {
  }

  lemma AppendChain(l: Logical, f: int, h: int, chain: seq<int>, n: int, l': Logical)
    requires HeapAt(l, f, h, chain) && Key(f, n) !in l && n >= 1
    requires l' == l[Key(f, n) := DataPage(EmptyPage(n))]
                    [Key(f, h) := HeaderFor(chain + [n], |AllEntries(PagesOf(l, f, chain))|)]
                    [Key(f, chain[|chain| - 1]) := DataPage(PagesOf(l, f, chain)[|chain| - 1].(nextPage := n))]
    ensures HeapAt(l', f, h, chain + [n]) && PagesOf(l', f, chain + [n]) == AppendBlank(PagesOf(l, f, chain), n) &&
            n !in chain
  {
    hide AllEntries, PageImage.WellFormed, PagesBefore, PageAt;
    var chain', pages := chain + [n], PagesOf(l, f, chain);
    PageOnChain(l, f, h, chain, |chain| - 1);
    forall j | 0 <= j < |chain'| ensures PageAt(l', f, chain', j) {
      AppendedPage(l, f, h, chain, n, l', j);
    }
    var pages' := PagesOf(l', f, chain');
    forall j | 0 <= j < |chain'| ensures pages'[j] == AppendBlank(pages, n)[j] {
      AppendedPage(l, f, h, chain, n, l', j);
      PageBefore(l', f, chain', |chain'|, j);
    }
    assert pages' == AppendBlank(pages, n);
    AppendBlankEntries(pages, n);
    AppendedPage(l, f, h, chain, n, l', 0);
  }

  // ----- files left alone

  /** A heap file: its number, its chain and its pages as clients see them. */
  datatype HeapImage = HeapImage(file: int, chain: seq<int>, pages: seq<PageImage>)

  ghost predicate Stored(v: View, x: HeapImage) {
    x.file in v.free && HeapAt(v.logical, x.file, 1, x.chain) && x.pages == PagesOf(v.logical, x.file, x.chain)
  }

  lemma SameStored(v: View, w: View, x: HeapImage)
    requires Stored(v, x) && w.logical == v.logical && w.free == v.free
    ensures Stored(w, x)
  {
    hide HeapAt, PagesOf;
  }

  /** All files but these are as before. */
  ghost predicate OutsideSame(v: View, w: View, files: seq<int>) {
    && w.free.Keys == v.free.Keys
    && (forall k :: k in v.logical && k.file !in files ==> k in w.logical && w.logical[k] == v.logical[k])
  }

  lemma OutsideTwice(v: View, w: View, x: View, files: seq<int>, n: nat)
    requires OutsideSame(v, w, files) && n < |files|
    ensures OthersSame(w, x, files[n]) ==> OutsideSame(v, x, files)
  {
    assert files[n] in files;
  }

  lemma OutsideNow(v: View, files: seq<int>)
    ensures OutsideSame(v, v, files)
  {
  }

  lemma OutsideStill(v: View, w: View, x: View, files: seq<int>)
    requires OutsideSame(v, w, files) && x.logical == w.logical && x.free == w.free
    ensures OutsideSame(v, x, files)
  {
  }

  lemma OutsideAgain(v: View, w: View, x: View, files: seq<int>)
    requires OutsideSame(v, w, files) && OutsideSame(w, x, files)
    ensures OutsideSame(v, x, files)
  {
  }

  /** The pages of all files but these are as before. */
  ghost predicate PagesKept(v: View, w: View, files: set<int>) {
    forall k :: k in v.logical && k.file !in files ==> k in w.logical && w.logical[k] == v.logical[k]
  }

  lemma KeptNow(v: View, files: set<int>)
    ensures PagesKept(v, v, files)
  {
  }

  lemma KeptStart(v: View, v1: View, w: View, files: set<int>)
    requires v1.logical == v.logical && PagesKept(v1, w, files)
    ensures PagesKept(v, w, files)
  {
  }

  lemma StoredSame(v: View, w: View, f: int, x: HeapImage)
    requires OthersSame(v, w, f) && x.file != f && Stored(v, x)
    ensures Stored(w, x)
  {
    hide HeapAt, PagesOf;
    SamePages(v.logical, x.file, 1, x.chain, w.logical);
  }

  /** Files other than `f` are as before. */
  ghost predicate OthersSame(v: View, w: View, f: int) {
    && w.free.Keys == v.free.Keys
    && (forall k :: k in v.logical && k.file != f ==> k in w.logical && w.logical[k] == v.logical[k])
  }

  lemma OthersSameTwice(v: View, v0: View, v1: View, v2: View, f: int)
    requires OthersSame(v, v0, f) && v1.logical == v0.logical && v1.free == v0.free
    ensures OthersSame(v, v1, f)
    ensures OthersSame(v1, v2, f) ==> OthersSame(v, v2, f)
  {
  }

  lemma OthersSameNow(v: View, f: int)
    ensures OthersSame(v, v, f)
  {
  }

  lemma OwnWrites(v: View, w: View, a: Key, x: Block, b: Key, y: Block, c: Key, z: Block)
    requires w.logical == v.logical[a := x][b := y][c := z] && w.free.Keys == v.free.Keys && a.file == b.file == c.file
    ensures OthersSame(v, w, a.file)
  {
  }

  lemma OnlyMore(v: View, w: View, f: int)
    requires (forall k :: k in v.logical ==> k in w.logical && w.logical[k] == v.logical[k]) &&
             w.free.Keys == v.free.Keys
    ensures OthersSame(v, w, f)
  {
  }

  // ----- pins of one object among those of all

  /**
   What a heap-file object holds: a pin on the header page `h` and, if `pinned`, one on the data page `c`,
   with pointers to the frames they are in. The flags say which of the two it has written and has to unpin dirty.
   */
  datatype Hold = Hold(h: Key, hdrFrame: int, hdrOwes: bool, pinned: bool, c: Key, curFrame: int, curOwes: bool) {
    function Mine(k: Key): int {
      (if k == h then 1 else 0) + (if pinned && k == c then 1 else 0)
    }

    function Pointer(k: Key): int {
      if k == h then hdrFrame else curFrame
    }

    function Due(k: Key): int {
      (if hdrOwes && k == h then 1 else 0) + (if pinned && curOwes && k == c then 1 else 0)
    }
  }

  /** The same object without a data page. */
  function NoPage(o: Hold): Hold {
    Hold(o.h, o.hdrFrame, o.hdrOwes, false, o.h, o.hdrFrame, false)
  }

  /**
   The object's pins and debts are among all pins and debts, the others keep within theirs, and the
   object's pointers are good.
   */
  ghost predicate Holding(v: View, o: Hold) {
    forall k :: HoldingAt(v, o, k)
  }

  ghost predicate HoldingAt(v: View, o: Hold, k: Key) {
    && o.Mine(k) <= v.pins[k] && o.Due(k) <= v.owed[k] && v.owed[k] - o.Due(k) <= v.pins[k] - o.Mine(k)
    && (o.Mine(k) > 0 ==> FrameOf(v, k) == o.Pointer(k))
  }

  /** Pinned pages are where they were. */
  ghost predicate KeepsFrames(v: View, w: View) {
    forall k :: v.pins[k] > 0 ==> FrameOf(w, k) == FrameOf(v, k)
  }

  /**
   The object went from `o` to `o'`; nobody else's pins and debts changed, and what others have pinned stayed in its
   frame.
   */
  ghost predicate Exchanged(v: View, o: Hold, v': View, o': Hold) {
    forall k :: ExchangedAt(v, o, v', o', k)
  }

  ghost predicate ExchangedAt(v: View, o: Hold, v': View, o': Hold, k: Key) {
    && v'.pins[k] - o'.Mine(k) == v.pins[k] - o.Mine(k) && v'.owed[k] - o'.Due(k) == v.owed[k] - o.Due(k)
    && (v.pins[k] > o.Mine(k) ==> FrameOf(v', k) == FrameOf(v, k))
  }

  lemma ExchangedTwice(v: View, o: Hold, v1: View, o1: Hold, v2: View, o2: Hold)
    requires Exchanged(v, o, v1, o1) && Exchanged(v1, o1, v2, o2)
    ensures Exchanged(v, o, v2, o2)
  {
    forall k ensures ExchangedAt(v, o, v2, o2, k) {
      assert ExchangedAt(v, o, v1, o1, k) && ExchangedAt(v1, o1, v2, o2, k);
    }
  }

  lemma UnpinCurrent(v: View, o: Hold)
    requires Holding(v, o) && o.pinned && o.h != o.c
    ensures v.pins[o.c] > 0 && (!o.curOwes ==> v.owed[o.c] < v.pins[o.c])
    ensures var v', o' := Unpinning(v, o.c, o.curOwes), NoPage(o);
            Holding(v', o') && Exchanged(v, o, v', o')
  {
    assert HoldingAt(v, o, o.c);
    var v', o' := Unpinning(v, o.c, o.curOwes), NoPage(o);
    forall k ensures HoldingAt(v', o', k) && ExchangedAt(v, o, v', o', k) {
      assert HoldingAt(v, o, k);
    }
  }

  lemma PinCurrent(v: View, o: Hold, c: Key, i: int)
    requires Holding(v, o) && !o.pinned && (v.pins[c] > 0 ==> FrameOf(v, c) == i)
    ensures var v', o' := Pinning(v, c, i), o.(pinned := true, c := c, curFrame := i, curOwes := false);
            Holding(v', o') && Exchanged(v, o, v', o')
  {
    var v', o' := Pinning(v, c, i), o.(pinned := true, c := c, curFrame := i, curOwes := false);
    forall k ensures HoldingAt(v', o', k) && ExchangedAt(v, o, v', o', k) {
      assert HoldingAt(v, o, k);
    }
  }

  lemma WriteCurrent(v: View, o: Hold, b: Block)
    requires Holding(v, o) && o.pinned && o.h != o.c
    ensures v.pins[o.c] > 0 && if o.curOwes then v.owed[o.c] > 0 else v.owed[o.c] < v.pins[o.c]
    ensures var v', o' := Writing(v, o.c, b, !o.curOwes), o.(curOwes := true);
            Holding(v', o') && Exchanged(v, o, v', o')
  {
    assert HoldingAt(v, o, o.c);
    var v', o' := Writing(v, o.c, b, !o.curOwes), o.(curOwes := true);
    forall k ensures HoldingAt(v', o', k) && ExchangedAt(v, o, v', o', k) {
      assert HoldingAt(v, o, k);
    }
  }

  lemma WriteHeader(v: View, o: Hold, b: Block)
    requires Holding(v, o) && (o.pinned ==> o.h != o.c)
    ensures v.pins[o.h] > 0 && if o.hdrOwes then v.owed[o.h] > 0 else v.owed[o.h] < v.pins[o.h]
    ensures var v', o' := Writing(v, o.h, b, !o.hdrOwes), o.(hdrOwes := true);
            Holding(v', o') && Exchanged(v, o, v', o')
  {
    assert HoldingAt(v, o, o.h);
    var v', o' := Writing(v, o.h, b, !o.hdrOwes), o.(hdrOwes := true);
    forall k ensures HoldingAt(v', o', k) && ExchangedAt(v, o, v', o', k) {
      assert HoldingAt(v, o, k);
    }
  }

  /** A new object took its pins on top of those of the others. */
  ghost predicate Opened(v: View, v': View, o': Hold) {
    forall k :: OpenedAt(v, v', o', k)
  }

  ghost predicate OpenedAt(v: View, v': View, o': Hold, k: Key) {
    && v'.pins[k] == v.pins[k] + o'.Mine(k) && v'.owed[k] == v.owed[k] + o'.Due(k)
    && (v.pins[k] > 0 ==> FrameOf(v', k) == FrameOf(v, k))
  }

  /** The header page and then the first data page are pinned. */
  lemma OpenHolding(v: View, h: Key, i: int, c: Key, j: int, v': View)
    requires forall k :: v.owed[k] <= v.pins[k]
    requires v'.pins == v.pins + multiset{h} + multiset{c} && v'.owed == v.owed && KeepsFrames(v, v') && h != c &&
             FrameOf(v', h) == i && FrameOf(v', c) == j
    ensures var o' := Hold(h, i, false, true, c, j, false); Holding(v', o') && Opened(v, v', o')
  {
    var o' := Hold(h, i, false, true, c, j, false);
    forall k ensures HoldingAt(v', o', k) && OpenedAt(v, v', o', k) {
    }
  }

  /** The object gave back its pins. */
  ghost predicate Closed(v: View, o: Hold, v': View) {
    forall k :: ClosedAt(v, o, v', k)
  }

  ghost predicate ClosedAt(v: View, o: Hold, v': View, k: Key) {
    && v'.pins[k] == v.pins[k] - o.Mine(k) && v'.owed[k] == v.owed[k] - o.Due(k)
    && (v.pins[k] > o.Mine(k) ==> FrameOf(v', k) == FrameOf(v, k))
  }

  lemma UnpinHeader(v: View, o: Hold)
    requires Holding(v, o) && !o.pinned
    ensures v.pins[o.h] > 0 && (!o.hdrOwes ==> v.owed[o.h] < v.pins[o.h])
    ensures Closed(v, o, Unpinning(v, o.h, o.hdrOwes))
  {
    assert HoldingAt(v, o, o.h);
    forall k ensures ClosedAt(v, o, Unpinning(v, o.h, o.hdrOwes), k) {
      assert HoldingAt(v, o, k);
    }
  }

  lemma ClosedAfter(v: View, o: Hold, v1: View, o1: Hold, v2: View)
    requires Exchanged(v, o, v1, o1) && Closed(v1, o1, v2)
    ensures Closed(v, o, v2)
  {
    forall k ensures ClosedAt(v, o, v2, k) {
      assert ExchangedAt(v, o, v1, o1, k) && ClosedAt(v1, o1, v2, k);
    }
  }

  /** A page just allocated is pinned and owed on top of what the object holds. */
  lemma NewPageHolding(v: View, o: Hold, v1: View, n: Key)
    requires Holding(v, o) && v1.pins == v.pins + multiset{n} && v1.owed == v.owed + multiset{n} && KeepsFrames(v, v1)
    ensures Holding(v1, o) && v1.pins[n] > 0 && v1.owed[n] > 0
  {
    forall k ensures HoldingAt(v1, o, k) {
      assert HoldingAt(v, o, k);
    }
  }

  lemma SamePins(v: View, v': View, o: Hold)
    requires Holding(v, o) && v'.pins == v.pins && v'.owed == v.owed && v'.frames == v.frames
    ensures Holding(v', o) && Exchanged(v, o, v', o)
  {
    forall k ensures HoldingAt(v', o, k) && ExchangedAt(v, o, v', o, k) {
      assert HoldingAt(v, o, k);
    }
  }

  /** The new page becomes the object's data page once the old one has been given back. */
  lemma ClaimPage(v: View, o: Hold, v1: View, v': View, o1: Hold, n: Key, i: int)
    requires Holding(v, o) && n != o.h && n != o.c && o1.h == o.h && o1 == NoPage(o1) && FrameOf(v', n) == i
    requires v1.pins == v.pins + multiset{n} && v1.owed == v.owed + multiset{n} && KeepsFrames(v, v1)
    requires Exchanged(v1, o, v', o1) && Holding(v', o1)
    ensures var o' := Hold(o.h, o1.hdrFrame, o1.hdrOwes, true, n, i, true);
            Holding(v', o') && Exchanged(v, o, v', o')
  {
    var o' := Hold(o.h, o1.hdrFrame, o1.hdrOwes, true, n, i, true);
    forall k ensures HoldingAt(v', o', k) && ExchangedAt(v, o, v', o', k) {
      assert HoldingAt(v, o, k) && HoldingAt(v', o1, k) && ExchangedAt(v1, o, v', o1, k);
    }
  }

  // ----- filters of scans

  /** A pointer to a record: slot `slot` of the page in frame `frame`, which is page `page`. */
  datatype RecordPtr = RecordPtr(frame: int, page: Key, slot: int)

  function RecordAt(l: Logical, r: RecordPtr): Bytes {
    if r.page in l && l[r.page].DataPage? && l[r.page].page.Live(r.slot) then l[r.page].page.slots[r.slot].bytes else []
  }

  /** What a scan compares a field with: nothing, a value, or the bytes at `at` of a record in the pool. */
  datatype Source = Null | Value(bytes: Bytes) | Pointer(rec: RecordPtr, at: int)

  /** The filter of a scan as it is kept. */
  datatype ScanFilter = Unfiltered | Filtered(offset: nat, length: nat, kind: Datatype, source: Source, op: Operator)

  /** What the filter means while storage is `l`. */
  function Meaning(f: ScanFilter, l: Logical): Filter {
    match f
    case Unfiltered => NoFilter
    case Filtered(offset, length, kind, source, op) =>
      match source
      case Null => NoFilter
      case Value(bytes) => Filter(offset, length, kind, bytes, op)
      case Pointer(rec, at) => Filter(offset, length, kind, Field(RecordAt(l, rec), at, length), op)
  }

  /** The pointer is good: the page is pinned, in that frame, and the record is there. */
  ghost predicate Pointed(v: View, r: RecordPtr) {
    && v.pins[r.page] > 0 && FrameOf(v, r.page) == r.frame
    && r.page in v.logical && v.logical[r.page].DataPage? && v.logical[r.page].page.Live(r.slot)
  }

  /** It is good for an object that holds `o`, whatever that object does: somebody else has the page pinned. */
  ghost predicate PointsAt(v: View, o: Hold, r: RecordPtr) {
    v.pins[r.page] > o.Mine(r.page) && Pointed(v, r)
  }

  ghost predicate Ready(v: View, o: Hold, f: ScanFilter) {
    f.Filtered? && f.source.Pointer? ==> PointsAt(v, o, f.source.rec)
  }

  /** A filter that does not point into the pool. */
  predicate Plain(f: ScanFilter) {
    f.Filtered? ==> !f.source.Pointer?
  }

  lemma PlainFilter(v: View, o: Hold, f: ScanFilter, l: Logical)
    requires Plain(f)
    ensures Ready(v, o, f) && Meaning(f, l) == Meaning(f, v.logical)
  {
  }

  /** Whatever the object does to its own pins, the pointer stays good. */
  lemma ReadyKept(v: View, o: Hold, v': View, o': Hold, f: ScanFilter)
    requires Ready(v, o, f) && Exchanged(v, o, v', o') && v'.logical == v.logical
    ensures Ready(v', o', f)
  {
    if f.Filtered? && f.source.Pointer? {
      assert ExchangedAt(v, o, v', o', f.source.rec.page);
    }
  }
}
