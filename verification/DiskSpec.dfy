/**
 The pages of a Unix file as the file layer sees them. Page 0 is the header; disposed pages
 form a linked list threaded through the pages themselves.
 */
module DiskSpec {
  import opened Common
  import opened PageSpec

  /** The header page of a heap file. */
  datatype FileHdr = FileHdr(firstPage: int, lastPage: int, pageCnt: int, recCnt: int)

  /** What the bytes of a page stand for. */
  datatype Block =
    | DbHeader(nextFree: int, firstPage: int, numPages: int)
    | FreeBlock(nextFree: int)
    | Zeroed
    | HeapHeader(hdr: FileHdr)
    | DataPage(page: PageImage)

  type Pages = seq<Block>

  function CreatedFile(): Pages {
    [DbHeader(-1, -1, 1)]
  }

  /** The nextFree field; it is read only from the header and from pages on the free list. */
  function NextFree(b: Block): int {
    match b
    case DbHeader(n, _, _) => n
    case FreeBlock(n) => n
    case _ => 0
  }

  // ----- the free list

  function Nth(l: seq<int>, i: nat): int {
    if i < |l| then l[i] else -1
  }

  ghost predicate Distinct(l: seq<int>) {
    forall i, j :: 0 <= i < j < |l| ==> l[i] != l[j]
  }

  /** Entry `i` of the list is a disposed page that points to entry `i + 1`. */
  ghost predicate LinkAt(pages: Pages, l: seq<int>, i: nat)
    requires i < |l|
  {
    2 <= l[i] < |pages| && pages[l[i]] == FreeBlock(Nth(l, i + 1))
  }

  /** The free list of `pages` is `l`: linked in this order, ended by -1, acyclic, without the first user page. */
  ghost predicate FreeList(pages: Pages, l: seq<int>) {
    && HeaderShape(pages)
    && pages[0] == DbHeader(Nth(l, 0), if |pages| == 1 then -1 else 1, |pages|)
    && Distinct(l)
    && (forall i :: 0 <= i < |l| ==> 2 <= l[i] < |pages|)
    && (forall i :: 0 <= i < |l| ==> LinkAt(pages, l, i))
  }

  /** The pages handed out and not disposed of. */
  ghost predicate Allocated(pages: Pages, l: seq<int>, p: int) {
    1 <= p < |pages| && p !in l
  }

  lemma {:induction false} FreeListFrom(pages: Pages, l: seq<int>, m: seq<int>, i: nat)
    requires FreeList(pages, l) && FreeList(pages, m)
    requires i <= |l| && i <= |m| && Nth(l, i) == Nth(m, i)
    requires forall j :: 0 <= j < i ==> l[j] == m[j]
    ensures l == m
    decreases |l| - i
  {
    assert i < |l| ==> LinkAt(pages, l, i);
    assert i < |m| ==> LinkAt(pages, m, i);
    if i < |l| {
      FreeListFrom(pages, l, m, i + 1);
    }
  }

  /** A file has at most one free list. */
  lemma FreeListUnique(pages: Pages, l: seq<int>, m: seq<int>)
    requires FreeList(pages, l) && FreeList(pages, m)
    ensures l == m
  {
    FreeListFrom(pages, l, m, 0);
  }

  /** Writing a page that is in use does not disturb the list. */
  lemma WriteKeepsList(pages: Pages, l: seq<int>, p: int, b: Block)
    requires FreeList(pages, l) && Allocated(pages, l, p)
    ensures FreeList(pages[p := b], l)
  {
    var pages' := pages[p := b];
    forall i | 0 <= i < |l| ensures LinkAt(pages', l, i) {
      assert LinkAt(pages, l, i);
    }
  }

  // ----- allocation

  /** Page 0 is a file header that knows the size of the file. */
  predicate HeaderShape(pages: Pages) {
    |pages| >= 1 && pages[0].DbHeader? && pages[0].numPages == |pages|
  }

  /** The status and page number allocatePage returns and the file afterwards. */
  function AllocatePage(pages: Pages): (r: (Status, int, Pages))
    requires HeaderShape(pages)
    ensures HeaderShape(r.2) && |r.2| >= |pages|
  {
    var h := pages[0];
    if h.nextFree != -1 then
      if 0 <= h.nextFree < |pages|
      then (OK, h.nextFree, pages[0 := h.(nextFree := NextFree(pages[h.nextFree]))])
      else (UNIXERR, h.nextFree, pages)
    else
      (OK, h.numPages,
       (pages + [Zeroed])[0 := DbHeader(h.nextFree, if h.firstPage == -1 then h.numPages else h.firstPage,
                                        h.numPages + 1)])
  }

  function DisposePage(pages: Pages, p: int): (r: (Status, Pages))
    requires HeaderShape(pages)
    ensures HeaderShape(r.1) && |r.1| == |pages|
  {
    if p < 1 || pages[0].firstPage == p || p >= pages[0].numPages then (BADPAGENO, pages)
    else (OK, pages[p := FreeBlock(pages[0].nextFree)][0 := pages[0].(nextFree := p)])
  }

  /** Allocation takes the head of the free list, or extends the file; it never returns a page in use. */
  lemma AllocateKeepsList(pages: Pages, l: seq<int>)
    requires FreeList(pages, l)
    ensures var (st, n, pages') := AllocatePage(pages);
            && st == OK
            && !Allocated(pages, l, n)
            && n == (if l == [] then |pages| else l[0])
            && FreeList(pages', if l == [] then l else l[1..])
            && Allocated(pages', if l == [] then l else l[1..], n)
            && |pages'| == (if l == [] then |pages| + 1 else |pages|)
            && (forall p :: 1 <= p < |pages| ==> pages'[p] == pages[p])
  {
    var pages' := AllocatePage(pages).2;
    if l == [] {
      assert FreeList(pages', l);
    } else {
      assert LinkAt(pages, l, 0);
      forall i | 0 <= i < |l[1..]| ensures LinkAt(pages', l[1..], i) {
        assert LinkAt(pages, l, i + 1);
      }
    }
  }

  lemma AllocatedAfterAllocate(pages: Pages, l: seq<int>, p: int)
    requires FreeList(pages, l)
    ensures var (_, n, pages') := AllocatePage(pages);
            Allocated(pages', if l == [] then l else l[1..], p) <==> Allocated(pages, l, p) || p == n
  {
    AllocateKeepsList(pages, l);
    if l != [] {
      assert l == [l[0]] + l[1..];
      assert p in l <==> p == l[0] || p in l[1..];
    }
  }

  lemma DisposeKeepsList(pages: Pages, l: seq<int>, p: int)
    requires FreeList(pages, l) && Allocated(pages, l, p) && p != 1
    ensures DisposePage(pages, p).0 == OK
    ensures FreeList(DisposePage(pages, p).1, [p] + l)
    ensures forall q :: 1 <= q < |pages| && q != p ==> DisposePage(pages, p).1[q] == pages[q]
  {
    var pages' := DisposePage(pages, p).1;
    var l' := [p] + l;
    forall i | 0 <= i < |l'| ensures LinkAt(pages', l', i) {
      if i > 0 {
        assert l'[i] == l[i - 1] && l[i - 1] in l;
        assert LinkAt(pages, l, i - 1);
      }
    }
  }

  /** Disposing of a page twice ties the free list into a cycle; nothing else does. */
  lemma DisposeKeepsListIff(pages: Pages, l: seq<int>, p: int)
    requires FreeList(pages, l) && DisposePage(pages, p).0 == OK
    ensures (exists m :: FreeList(DisposePage(pages, p).1, m)) <==> p !in l
  {
    var pages' := DisposePage(pages, p).1;
    if p !in l {
      DisposeKeepsList(pages, l, p);
    } else {
      forall m ensures !FreeList(pages', m) {
        DoubleDisposeCycles(pages, l, p, m);
      }
    }
  }

  lemma DoubleDisposeCycles(pages: Pages, l: seq<int>, p: int, m: seq<int>)
    requires FreeList(pages, l) && DisposePage(pages, p).0 == OK && p in l
    ensures !FreeList(DisposePage(pages, p).1, m)
  {
    if FreeList(DisposePage(pages, p).1, m) {
      var k :| 0 <= k < |l| && l[k] == p;
      assert LinkAt(pages, l, k);
      FollowsOldList(pages, l, p, m, k, 0);
    }
  }

  /** After a second disposal of l[k] the new list runs through p, l[0], ..., l[k] == p. */
  lemma {:induction false} FollowsOldList(pages: Pages, l: seq<int>, p: int, m: seq<int>, k: nat, i: nat)
    requires FreeList(pages, l) && DisposePage(pages, p).0 == OK
    requires k < |l| && l[k] == p
    requires FreeList(DisposePage(pages, p).1, m) && m != [] && m[0] == p
    requires i <= k && i < |m| && m[i] == (if i == 0 then p else l[i - 1])
    ensures k + 1 < |m| && m[k + 1] == p
    decreases k - i
  {
    var pages' := DisposePage(pages, p).1;
    assert LinkAt(pages', m, i) && LinkAt(pages, l, i);
    if i > 0 {
      assert l[i - 1] != l[k];
      assert LinkAt(pages, l, i - 1);
    }
    assert Nth(m, i + 1) == l[i];
    if i < k {
      FollowsOldList(pages, l, p, m, k, i + 1);
    }
  }

  // ----- every run of allocations and disposals

  datatype FileOp = AllocOp | DisposeOp(page: int)

  /** The file together with the page numbers its clients hold. */
  datatype FileRun = FileRun(pages: Pages, held: set<int>)

  function Step(r: FileRun, op: FileOp): FileRun {
    if !HeaderShape(r.pages) then r else
    match op
    case AllocOp =>
      var (_, n, pages') := AllocatePage(r.pages);
      FileRun(pages', r.held + {n})
    case DisposeOp(p) =>
      FileRun(DisposePage(r.pages, p).1, r.held - {p})
  }

  /** Free list and held pages partition 1..numPages-1, and no page in use is handed out again. */
  ghost predicate Conserved(r: FileRun, l: seq<int>) {
    && FreeList(r.pages, l)
    && (forall p :: p in r.held <==> Allocated(r.pages, l, p))
  }

  /** Clients dispose only of pages they hold, and never of the first one. */
  ghost predicate Allowed(r: FileRun, op: FileOp) {
    op.DisposeOp? ==> op.page in r.held && op.page != 1
  }

  /** The free list after an operation. */
  function NextList(l: seq<int>, op: FileOp): seq<int> {
    match op
    case AllocOp => if l == [] then l else l[1..]
    case DisposeOp(p) => [p] + l
  }

  lemma StepConserves(r: FileRun, l: seq<int>, op: FileOp)
    requires Conserved(r, l) && Allowed(r, op)
    ensures Conserved(Step(r, op), NextList(l, op))
    ensures op.AllocOp? ==> HeaderShape(r.pages) && AllocatePage(r.pages).1 !in r.held
  {
    match op
    case AllocOp =>
      AllocateKeepsList(r.pages, l);
      forall p ensures p in Step(r, op).held <==> Allocated(Step(r, op).pages, NextList(l, op), p) {
        AllocatedAfterAllocate(r.pages, l, p);
      }
    case DisposeOp(p) =>
      DisposeKeepsList(r.pages, l, p);
  }

  /** `rs` is a run: each state follows from the one before by an allowed operation. */
  ghost predicate IsRun(rs: seq<FileRun>, ops: seq<FileOp>) {
    && |rs| == |ops| + 1
    && (forall i :: 0 <= i < |ops| ==>
          Allowed(rs[i], ops[i]) && rs[i + 1] == Step(rs[i], ops[i]))
  }

  /** Conservation in every state of every run from a newly created file. */
  lemma {:induction false} RunConserves(rs: seq<FileRun>, ops: seq<FileOp>, i: nat) returns (l: seq<int>)
    requires IsRun(rs, ops) && rs[0] == FileRun(CreatedFile(), {})
    requires i < |rs|
    ensures Conserved(rs[i], l)
    ensures i < |ops| && ops[i].AllocOp? ==> HeaderShape(rs[i].pages) && AllocatePage(rs[i].pages).1 !in rs[i].held
  {
    if i == 0 {
      l := [];
    } else {
      var m := RunConserves(rs, ops, i - 1);
      l := NextList(m, ops[i - 1]);
      StepConserves(rs[i - 1], m, ops[i - 1]);
    }
    if i < |ops| {
      StepConserves(rs[i], l, ops[i]);
    }
  }
}
