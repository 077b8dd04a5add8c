/**
 Heap files as sequences of pages: the records in scan order, what a scan returns, and what inserting and deleting do.
 */
module HeapSpec {
  import opened Common
  import opened PageSpec

  datatype Entry = Entry(rid: RID, bytes: Bytes)

  /** The records of a page in slots `s` and up. */
  function PageEntries(p: PageImage, s: nat): seq<Entry>
    decreases |p.slots| - s
  {
    if s >= |p.slots| then []
    else (if p.slots[s].Used? then [Entry(RID(p.curPage, s), p.slots[s].bytes)] else []) + PageEntries(p, s + 1)
  }

  /** The records of pages `i` and up, in (chain, slot) order. */
  function Entries(pages: seq<PageImage>, i: nat): seq<Entry>
    decreases |pages| - i
  {
    if i >= |pages| then [] else PageEntries(pages[i], 0) + Entries(pages, i + 1)
  }

  function AllEntries(pages: seq<PageImage>): seq<Entry> {
    Entries(pages, 0)
  }

  /** The records from slot `s` of page `i` on. */
  function Remaining(pages: seq<PageImage>, i: nat, s: nat): seq<Entry>
    requires i < |pages|
  {
    PageEntries(pages[i], s) + Entries(pages, i + 1)
  }

  lemma {:induction false} PageEntriesNext(p: PageImage, s: nat)
    ensures var n := NextLive(p.slots, s);
            PageEntries(p, s) ==
              if n < |p.slots| then [Entry(RID(p.curPage, n), p.slots[n].bytes)] + PageEntries(p, n + 1) else []
    decreases |p.slots| - s
  {
    if s < |p.slots| && p.slots[s].Hole? {
      PageEntriesNext(p, s + 1);
    }
  }

  // ----- scanning

  /** A scan stops at a matching record, and at an empty one, which the page refuses to read. */
  predicate Stops(e: Entry, m: Bytes -> bool) {
    e.bytes == [] || m(e.bytes)
  }

  function Skip(es: seq<Entry>, m: Bytes -> bool): (r: seq<Entry>)
    ensures r != [] ==> Stops(r[0], m)
  {
    if es == [] || Stops(es[0], m) then es else Skip(es[1..], m)
  }

  /** What repeated scanNext calls return. */
  function ScanResults(es: seq<Entry>, m: Bytes -> bool): seq<Entry>
    decreases |es|
  {
    SkipShorter(es, m);
    var r := Skip(es, m);
    if r == [] then [] else [r[0]] + ScanResults(r[1..], m)
  }

  lemma {:induction false} SkipShorter(es: seq<Entry>, m: Bytes -> bool)
    ensures |Skip(es, m)| <= |es|
  {
    if es != [] && !Stops(es[0], m) {
      SkipShorter(es[1..], m);
    }
  }

  function Matching(es: seq<Entry>, m: Bytes -> bool): seq<Entry> {
    if es == [] then []
    else (if m(es[0].bytes) then [es[0]] else []) + Matching(es[1..], m)
  }

  ghost predicate NoEmptyRecords(es: seq<Entry>) {
    forall i :: 0 <= i < |es| ==> es[i].bytes != []
  }

  lemma NoEmptyConcat(a: seq<Entry>, b: seq<Entry>)
    ensures NoEmptyRecords(a + b) <==> NoEmptyRecords(a) && NoEmptyRecords(b)
  {
    assert forall i :: 0 <= i < |a| ==> (a + b)[i] == a[i];
    assert forall i :: 0 <= i < |b| ==> (a + b)[|a| + i] == b[i];
  }

  /** A scan returns exactly the matching records, once each and in order. */
  lemma {:induction false} ScanIsMatching(es: seq<Entry>, m: Bytes -> bool)
    requires NoEmptyRecords(es)
    ensures ScanResults(es, m) == Matching(es, m)
    decreases |es|
  {
    if es != [] {
      SkipShorter(es, m);
      ScanIsMatching(es[1..], m);
      if !Stops(es[0], m) {
        ScanStep(es, m);
      }
    }
  }

  lemma ScanStep(es: seq<Entry>, m: Bytes -> bool)
    requires es != [] && !Stops(es[0], m)
    ensures ScanResults(es, m) == ScanResults(es[1..], m)
  {
    assert Skip(es, m) == Skip(es[1..], m);
  }

  // ----- moving a cursor

  lemma NextInPage(pages: seq<PageImage>, i: nat, s: nat)
    requires i < |pages|
    ensures var n := NextLive(pages[i].slots, s);
            if n < |pages[i].slots| then
              Remaining(pages, i, s) ==
                [Entry(RID(pages[i].curPage, n), pages[i].slots[n].bytes)] + Remaining(pages, i, n + 1)
            else PageEntries(pages[i], s) == [] && Remaining(pages, i, s) == Entries(pages, i + 1)
  {
    hide PageEntries, Entries;
    PageEntriesNext(pages[i], s);
  }

  lemma FirstInPage(pages: seq<PageImage>, i: nat, s: nat)
    requires i < |pages|
    ensures var n := NextLive(pages[i].slots, 0);
            if n < |pages[i].slots| then
              Entries(pages, i) ==
                [Entry(RID(pages[i].curPage, n), pages[i].slots[n].bytes)] + Remaining(pages, i, n + 1)
            else PageEntries(pages[i], s) == [] && Entries(pages, i) == Entries(pages, i + 1)
  {
    hide PageEntries;
    NextInPage(pages, i, 0);
    if NextLive(pages[i].slots, 0) == |pages[i].slots| {
      HolesHoldNothing(pages[i], s);
    }
  }

  // ----- a page directory and the entries it holds

  lemma {:induction false} PageEntriesSame(p: PageImage, q: PageImage, s: nat)
    requires p.curPage == q.curPage && |p.slots| == |q.slots|
    requires forall j :: s <= j < |p.slots| ==> p.slots[j] == q.slots[j]
    ensures PageEntries(p, s) == PageEntries(q, s)
    decreases |p.slots| - s
  {
    if s < |p.slots| {
      PageEntriesSame(p, q, s + 1);
    }
  }

  lemma {:induction false} HolesHoldNothing(p: PageImage, s: nat)
    requires forall j :: s <= j < |p.slots| ==> p.slots[j].Hole?
    ensures PageEntries(p, s) == []
    decreases |p.slots| - s
  {
    if s < |p.slots| {
      HolesHoldNothing(p, s + 1);
    }
  }

  /** Trailing holes do not show. */
  lemma {:induction false} TrimSameEntries(p: PageImage, s: nat)
    ensures PageEntries(p.(slots := Trim(p.slots)), s) == PageEntries(p, s)
    decreases |p.slots| - s
  {
    hide Trim;
    var q := p.(slots := Trim(p.slots));
    if s >= |q.slots| {
      HolesHoldNothing(p, s);
    } else {
      TrimSameEntries(p, s + 1);
    }
  }

  /** Deleting slot `k` leaves the records behind it where they are. */
  lemma DeleteKeepsLater(p: PageImage, k: nat)
    requires k < |p.slots|
    ensures PageEntries(Delete(p, k), k + 1) == PageEntries(p, k + 1)
  {
    var q := p.(slots := p.slots[k := Hole]);
    TrimSameEntries(q, k + 1);
    PageEntriesSame(p, q, k + 1);
  }

  /** The records in slots `s` to `k - 1`. */
  function Range(p: PageImage, s: nat, k: nat): seq<Entry>
    requires k <= |p.slots|
    decreases k - s
  {
    if s >= k then []
    else (if p.slots[s].Used? then [Entry(RID(p.curPage, s), p.slots[s].bytes)] else []) + Range(p, s + 1, k)
  }

  lemma {:induction false} RangeThenRest(p: PageImage, s: nat, k: nat)
    requires s <= k <= |p.slots|
    ensures PageEntries(p, s) == Range(p, s, k) + PageEntries(p, k)
    decreases k - s
  {
    if s < k {
      RangeThenRest(p, s + 1, k);
    }
  }

  lemma {:induction false} RangeSame(p: PageImage, q: PageImage, s: nat, k: nat)
    requires p.curPage == q.curPage && k <= |p.slots| && k <= |q.slots|
    requires forall j :: 0 <= j < k ==> p.slots[j] == q.slots[j]
    ensures Range(p, s, k) == Range(q, s, k)
    decreases k - s
  {
    if s < k {
      RangeSame(p, q, s + 1, k);
    }
  }

  function SlotEntry(p: PageImage, k: nat): Entry
    requires p.Live(k)
  {
    Entry(RID(p.curPage, k), p.slots[k].bytes)
  }

  lemma EntryAtSlot(p: PageImage, k: nat)
    requires k < |p.slots|
    ensures PageEntries(p, k) == (if p.slots[k].Used? then [SlotEntry(p, k)] else []) + PageEntries(p, k + 1)
  {
  }

  /** Deleting slot `k` takes its record, and nothing else, out of the page's sequence. */
  lemma DeleteOnPage(p: PageImage, k: nat)
    requires p.Live(k)
    ensures PageEntries(p, 0) == Range(p, 0, k) + ([SlotEntry(p, k)] + PageEntries(p, k + 1))
    ensures PageEntries(Delete(p, k), 0) == Range(p, 0, k) + PageEntries(p, k + 1)
  {
    hide PageEntries, Range, Trim;
    var q := p.(slots := p.slots[k := Hole]);
    RangeThenRest(p, 0, k);
    RangeThenRest(q, 0, k);
    RangeSame(p, q, 0, k);
    PageEntriesSame(p, q, k + 1);
    EntryAtSlot(p, k);
    EntryAtSlot(q, k);
    TrimSameEntries(q, 0);
  }

  lemma NoEntryAtHole(p: PageImage, k: nat)
    requires k <= |p.slots| && (k < |p.slots| ==> p.slots[k].Hole?)
    ensures PageEntries(p, k) == PageEntries(p, k + 1)
  {
  }

  lemma PutOnPage(p: PageImage, q: PageImage, k: nat, rec: Bytes)
    requires k <= |p.slots| && (k < |p.slots| ==> p.slots[k].Hole?)
    requires q == p.(slots := PutSlot(p.slots, k, rec))
    ensures PageEntries(q, k) == [Entry(RID(p.curPage, k), rec)] + PageEntries(p, k)
  {
    NoEntryAtHole(p, k);
    if k < |p.slots| {
      PageEntriesSame(p, q, k + 1);
    }
  }

  /** Inserting puts the record between those in lower and those in higher slots. */
  lemma InsertOnPage(p: PageImage, rec: Bytes)
    ensures var k := LowestHole(p.slots);
            && PageEntries(p, 0) == Range(p, 0, k) + PageEntries(p, k)
            && PageEntries(Insert(p, rec), 0) == Range(p, 0, k) + ([Entry(RID(p.curPage, k), rec)] + PageEntries(p, k))
  {
    hide PageEntries, Range, LowestHoleFrom;
    var k, q := LowestHole(p.slots), Insert(p, rec);
    RangeThenRest(p, 0, k);
    RangeThenRest(q, 0, k);
    RangeSame(p, q, 0, k);
    PutOnPage(p, q, k, rec);
  }

  // ----- pages of a file

  lemma {:induction false} EntriesSplit(pages: seq<PageImage>, i: nat, j: nat)
    requires i <= j <= |pages|
    ensures Entries(pages, i) == Entries(pages[..j], i) + Entries(pages, j)
    decreases j - i
  {
    if i < j {
      EntriesSplit(pages, i + 1, j);
    }
  }

  lemma {:induction false} EntriesSame(pages: seq<PageImage>, pages': seq<PageImage>, i: nat)
    requires |pages| == |pages'|
    requires forall j :: i <= j < |pages| ==> PageEntries(pages[j], 0) == PageEntries(pages'[j], 0)
    ensures Entries(pages, i) == Entries(pages', i)
    decreases |pages| - i
  {
    if i < |pages| {
      EntriesSame(pages, pages', i + 1);
    }
  }

  lemma EntriesAround(pages: seq<PageImage>, i: nat)
    requires i < |pages|
    ensures AllEntries(pages) == Entries(pages[..i], 0) + (PageEntries(pages[i], 0) + Entries(pages, i + 1))
  {
    hide PageEntries;
    EntriesSplit(pages, 0, i);
  }

  /** Replacing page `i` changes the entries at that place only. */
  lemma EntriesUpdate(pages: seq<PageImage>, i: nat, q: PageImage)
    requires i < |pages|
    ensures AllEntries(pages) == Entries(pages[..i], 0) + (PageEntries(pages[i], 0) + Entries(pages, i + 1))
    ensures AllEntries(pages[i := q]) == Entries(pages[..i], 0) + (PageEntries(q, 0) + Entries(pages, i + 1))
  {
    hide PageEntries, Entries;
    var pages' := pages[i := q];
    EntriesAround(pages, i);
    EntriesAround(pages', i);
    assert pages'[..i] == pages[..i];
    EntriesSame(pages, pages', i + 1);
  }

  // ----- inserting into a file

  /** insertRecord works on the last page; if the record does not fit there, on a new page behind it. */
  function InsertPages(pages: seq<PageImage>, rec: Bytes, newPageNo: int): seq<PageImage>
    requires pages != []
  {
    var n := |pages| - 1;
    if pages[n].Fits(|rec|) then pages[n := Insert(pages[n], rec)]
    else
      var blank := EmptyPage(newPageNo);
      pages[n := pages[n].(nextPage := newPageNo)] + [if blank.Fits(|rec|) then Insert(blank, rec) else blank]
  }

  /** Longer records never fit, not even on an empty page. */
  const MAX_RECORD: int := 1000

  function InsertedRid(pages: seq<PageImage>, rec: Bytes, newPageNo: int): RID
    requires pages != []
  {
    var last := pages[|pages| - 1];
    if last.Fits(|rec|) then RID(last.curPage, LowestHole(last.slots)) else RID(newPageNo, 0)
  }

  /** The entries in front of and behind the place of the next insertion into the last page. */
  function Front(pages: seq<PageImage>, k: nat): seq<Entry>
    requires pages != [] && k <= |pages[|pages| - 1].slots|
  {
    Entries(pages[..|pages| - 1], 0) + Range(pages[|pages| - 1], 0, k)
  }

  lemma FrontThenRest(pages: seq<PageImage>, k: nat)
    requires pages != [] && k <= |pages[|pages| - 1].slots|
    ensures AllEntries(pages) == Front(pages, k) + PageEntries(pages[|pages| - 1], k)
  {
    hide PageEntries, Range;
    var n := |pages| - 1;
    EntriesAround(pages, n);
    RangeThenRest(pages[n], 0, k);
    assert Entries(pages, n + 1) == [];
  }

  lemma LinkKeepsEntries(p: PageImage, n: int, s: nat)
    ensures PageEntries(p.(nextPage := n), s) == PageEntries(p, s)
  {
    PageEntriesSame(p, p.(nextPage := n), s);
  }

  lemma AppendEntries(pages: seq<PageImage>, q: PageImage)
    ensures AllEntries(pages + [q]) == AllEntries(pages) + PageEntries(q, 0)
  {
    hide PageEntries;
    var both := pages + [q];
    EntriesSplit(both, 0, |pages|);
    assert both[..|pages|] == pages;
    assert Entries(both, |pages| + 1) == [];
    assert Entries(both, |pages|) == PageEntries(q, 0);
  }

  /** Appending a page adds its records behind all others. */
  lemma InsertAppends(pages: seq<PageImage>, rec: Bytes, newPageNo: int)
    requires pages != [] && !pages[|pages| - 1].Fits(|rec|)
    ensures AllEntries(InsertPages(pages, rec, newPageNo)) ==
            AllEntries(pages) + (if |rec| <= MAX_RECORD then [Entry(RID(newPageNo, 0), rec)] else [])
  {
    var n, blank := |pages| - 1, EmptyPage(newPageNo);
    var linked := pages[n := pages[n].(nextPage := newPageNo)];
    LinkKeepsEntries(pages[n], newPageNo, 0);
    EntriesUpdate(pages, n, pages[n].(nextPage := newPageNo));
    assert blank.Fits(|rec|) <==> |rec| <= MAX_RECORD;
    assert PageEntries(blank, 0) == [];
    InsertOnPage(blank, rec);
    AppendEntries(linked, if blank.Fits(|rec|) then Insert(blank, rec) else blank);
  }

  /** An insertion adds one record; all others keep their RID, their bytes and their order. */
  lemma InsertAddsEntry(pages: seq<PageImage>, rec: Bytes, newPageNo: int)
    requires pages != [] && |rec| <= MAX_RECORD
    ensures var last := pages[|pages| - 1];
            var k := if last.Fits(|rec|) then LowestHole(last.slots) else |last.slots|;
            AllEntries(InsertPages(pages, rec, newPageNo)) ==
            Front(pages, k) + ([Entry(InsertedRid(pages, rec, newPageNo), rec)] + PageEntries(last, k))
  {
    hide PageEntries, Range, Entries, LowestHoleFrom;
    var n := |pages| - 1;
    var last := pages[n];
    if last.Fits(|rec|) {
      EntriesUpdate(pages, n, Insert(last, rec));
      InsertOnPage(last, rec);
      NoPagesBehind(pages);
    } else {
      InsertAppends(pages, rec, newPageNo);
      FrontThenRest(pages, |last.slots|);
      NoSlotsBehind(last);
    }
  }

  lemma NoPagesBehind(pages: seq<PageImage>)
    ensures Entries(pages, |pages|) == []
  {
  }

  lemma NoSlotsBehind(p: PageImage)
    ensures PageEntries(p, |p.slots|) == []
  {
  }

  // ----- records inserted one after the other come out in that order

  /** Where the next record goes: the position of its page in the chain, and its slot. */
  function InsertPos(pages: seq<PageImage>, rec: Bytes): (int, int)
    requires pages != []
  {
    var n := |pages| - 1;
    if pages[n].Fits(|rec|) then (n, LowestHole(pages[n].slots)) else (n + 1, 0)
  }

  lemma LowestHoleRises(p: PageImage, rec: Bytes)
    ensures LowestHole(Insert(p, rec).slots) > LowestHole(p.slots)
  {
    hide LowestHoleFrom;
  }

  /** Without deletions in between, positions grow strictly even when holes are reused. */
  lemma InsertPosIncreases(pages: seq<PageImage>, first: Bytes, newPageNo: int, second: Bytes)
    requires pages != [] && |first| <= MAX_RECORD
    ensures var p, q := InsertPos(pages, first), InsertPos(InsertPages(pages, first, newPageNo), second);
            p.0 < q.0 || (p.0 == q.0 && p.1 < q.1)
  {
    hide LowestHoleFrom;
    var n := |pages| - 1;
    LowestHoleRises(pages[n], first);
    LowestHoleRises(EmptyPage(newPageNo), first);
    BlankFits(newPageNo, first);
  }

  lemma BlankFits(pageNo: int, rec: Bytes)
    ensures EmptyPage(pageNo).Fits(|rec|) <==> |rec| <= MAX_RECORD
    ensures LowestHole(EmptyPage(pageNo).slots) == 0
    ensures PageEntries(EmptyPage(pageNo), 0) == []
  {
  }

  function BytesOf(es: seq<Entry>): seq<Bytes> {
    if es == [] then [] else [es[0].bytes] + BytesOf(es[1..])
  }

  lemma {:induction false} BytesOfConcat(a: seq<Entry>, b: seq<Entry>)
    ensures BytesOf(a + b) == BytesOf(a) + BytesOf(b)
  {
    if a == [] {
      assert a + b == b;
    } else {
      assert (a + b)[1..] == a[1..] + b;
      BytesOfConcat(a[1..], b);
    }
  }

  lemma {:induction false} MatchingConcat(a: seq<Entry>, b: seq<Entry>, m: Bytes -> bool)
    ensures Matching(a + b, m) == Matching(a, m) + Matching(b, m)
  {
    if a == [] {
      assert a + b == b;
    } else {
      assert (a + b)[1..] == a[1..] + b;
      MatchingConcat(a[1..], b, m);
      var h := if m(a[0].bytes) then [a[0]] else [];
      assert Matching(a + b, m) == h + Matching(a[1..] + b, m);
      assert Matching(a, m) == h + Matching(a[1..], m);
    }
  }

  function InsertAll(pages: seq<PageImage>, recs: seq<Bytes>, newPageNos: seq<int>): (r: seq<PageImage>)
    requires pages != [] && |recs| == |newPageNos|
    ensures r != []
    decreases |recs|
  {
    if recs == [] then pages else InsertAll(InsertPages(pages, recs[0], newPageNos[0]), recs[1..], newPageNos[1..])
  }

  lemma {:induction false} InsertAllConcat(pages: seq<PageImage>, a: seq<Bytes>, na: seq<int>, b: seq<Bytes>,
                                           nb: seq<int>)
    requires pages != [] && |a| == |na| && |b| == |nb|
    ensures InsertAll(pages, a + b, na + nb) == InsertAll(InsertAll(pages, a, na), b, nb)
    decreases |a|
  {
    hide InsertPages;
    if a == [] {
      assert a + b == b && na + nb == nb;
    } else {
      PagesNotEmpty(pages, a[0], na[0]);
      InsertAllConcat(InsertPages(pages, a[0], na[0]), a[1..], na[1..], b, nb);
      assert (a + b)[1..] == a[1..] + b && (na + nb)[1..] == na[1..] + nb;
    }
  }

  function Last(pages: seq<PageImage>): PageImage
    requires pages != []
  {
    pages[|pages| - 1]
  }

  /** Slots below `k` of the last page are taken, and nothing from slot `k` on matches. */
  ghost predicate NothingBehind(pages: seq<PageImage>, k: nat, m: Bytes -> bool)
    requires pages != []
  {
    k <= LowestHole(Last(pages).slots) && Matching(PageEntries(Last(pages), k), m) == []
  }

  lemma NothingBehindMoves(p: PageImage, k: nat, j: nat, m: Bytes -> bool)
    requires k <= j <= |p.slots| && Matching(PageEntries(p, k), m) == []
    ensures Matching(PageEntries(p, j), m) == []
  {
    RangeThenRest(p, k, j);
    MatchingConcat(Range(p, k, j), PageEntries(p, j), m);
  }

  /** One insertion of a matching record puts it last among the matching ones. */
  lemma InsertedLast(pages: seq<PageImage>, rec: Bytes, newPageNo: int, m: Bytes -> bool, k: nat) returns (k': nat)
    requires pages != [] && |rec| <= MAX_RECORD && m(rec) && NothingBehind(pages, k, m)
    ensures NothingBehind(InsertPages(pages, rec, newPageNo), k', m)
    ensures Matching(AllEntries(InsertPages(pages, rec, newPageNo)), m) ==
            Matching(AllEntries(pages), m) + [Entry(InsertedRid(pages, rec, newPageNo), rec)]
  {
    hide PageEntries, Range, Entries, LowestHoleFrom, InsertPages, InsertedRid, Matching, PageImage.Fits, AllEntries,
         Front;
    var last := Last(pages);
    var j := if last.Fits(|rec|) then LowestHole(last.slots) else |last.slots|;
    var e := Entry(InsertedRid(pages, rec, newPageNo), rec);
    NothingBehindMoves(last, k, j, m);
    FrontThenRest(pages, j);
    MatchingConcat(Front(pages, j), PageEntries(last, j), m);
    InsertAddsEntry(pages, rec, newPageNo);
    MatchingConcat(Front(pages, j), [e] + PageEntries(last, j), m);
    MatchingConcat([e], PageEntries(last, j), m);
    MatchesAlone(e, m);
    k' := if last.Fits(|rec|) then j + 1 else 1;
    InsertedBehind(pages, rec, newPageNo, m);
  }

  lemma MatchesAlone(e: Entry, m: Bytes -> bool)
    requires m(e.bytes)
    ensures Matching([e], m) == [e]
  {
  }

  lemma InsertedBehind(pages: seq<PageImage>, rec: Bytes, newPageNo: int, m: Bytes -> bool)
    requires pages != [] && |rec| <= MAX_RECORD
    requires var last := Last(pages);
             Matching(PageEntries(last, if last.Fits(|rec|) then LowestHole(last.slots) else |last.slots|), m) == []
    ensures NothingBehind(InsertPages(pages, rec, newPageNo),
                          if Last(pages).Fits(|rec|) then LowestHole(Last(pages).slots) + 1 else 1, m)
  {
    hide LowestHoleFrom;
    var last := Last(pages);
    if last.Fits(|rec|) {
      var j, q := LowestHole(last.slots), Insert(last, rec);
      LowestHoleRises(last, rec);
      NoEntryAtHole(last, j);
      if j < |last.slots| {
        PageEntriesSame(last, q, j + 1);
      }
    } else {
      BlankFits(newPageNo, rec);
      LowestHoleRises(EmptyPage(newPageNo), rec);
    }
  }

  /** Matching records inserted one after the other appear behind those already there, in the order of insertion. */
  lemma {:induction false} InsertedInOrder(pages: seq<PageImage>, recs: seq<Bytes>, newPageNos: seq<int>,
                                           m: Bytes -> bool, k: nat)
    requires pages != [] && |recs| == |newPageNos| && NothingBehind(pages, k, m)
    requires forall i :: 0 <= i < |recs| ==> |recs[i]| <= MAX_RECORD && m(recs[i])
    ensures BytesOf(Matching(AllEntries(InsertAll(pages, recs, newPageNos)), m)) ==
            BytesOf(Matching(AllEntries(pages), m)) + recs
    decreases |recs|
  {
    hide Entries, InsertPages, NothingBehind, Matching;
    if recs != [] {
      var k' := InsertedLast(pages, recs[0], newPageNos[0], m, k);
      var pages' := InsertPages(pages, recs[0], newPageNos[0]);
      PagesNotEmpty(pages, recs[0], newPageNos[0]);
      InsertedInOrder(pages', recs[1..], newPageNos[1..], m, k');
      var e := Entry(InsertedRid(pages, recs[0], newPageNos[0]), recs[0]);
      BytesOfConcat(Matching(AllEntries(pages), m), [e]);
      assert recs == [recs[0]] + recs[1..];
    }
  }

  lemma PagesNotEmpty(pages: seq<PageImage>, rec: Bytes, newPageNo: int)
    requires pages != []
    ensures InsertPages(pages, rec, newPageNo) != []
  {
  }

  // ----- record counts

  /** Deleting a record from page `i` takes one entry out of the file's sequence. */
  lemma DeleteFromPages(pages: seq<PageImage>, i: nat, k: nat)
    requires i < |pages| && pages[i].Live(k)
    ensures var e := SlotEntry(pages[i], k);
            var pre, post := Entries(pages[..i], 0) + Range(pages[i], 0, k), Remaining(pages, i, k + 1);
            && AllEntries(pages) == pre + ([e] + post)
            && AllEntries(pages[i := Delete(pages[i], k)]) == pre + post
  {
    hide PageEntries, Range, Entries, Trim, AllEntries;
    EntriesUpdate(pages, i, Delete(pages[i], k));
    DeleteOnPage(pages[i], k);
  }

  lemma DeleteCount(pages: seq<PageImage>, i: nat, k: nat)
    requires i < |pages| && pages[i].Live(k)
    ensures |AllEntries(pages[i := Delete(pages[i], k)])| == |AllEntries(pages)| - 1
  {
    hide AllEntries, Entries, Range, PageEntries, Delete;
    DeleteFromPages(pages, i, k);
  }

  lemma InsertCount(pages: seq<PageImage>, i: nat, rec: Bytes)
    requires i < |pages|
    ensures |AllEntries(pages[i := Insert(pages[i], rec)])| == |AllEntries(pages)| + 1
  {
    hide AllEntries, Entries, Range, PageEntries, LowestHoleFrom;
    EntriesUpdate(pages, i, Insert(pages[i], rec));
    InsertOnPage(pages[i], rec);
  }

  /** After a deletion under the cursor the records ahead are the same. */
  lemma DeleteKeepsAhead(pages: seq<PageImage>, i: nat, k: nat)
    requires i < |pages| && pages[i].Live(k)
    ensures Remaining(pages[i := Delete(pages[i], k)], i, k + 1) == Remaining(pages, i, k + 1)
  {
    hide PageEntries, Entries, Trim;
    DeleteKeepsLater(pages[i], k);
    EntriesSame(pages, pages[i := Delete(pages[i], k)], i + 1);
  }

  /** Linking an empty page behind the last one. */
  function AppendBlank(pages: seq<PageImage>, newPageNo: int): seq<PageImage>
    requires pages != []
  {
    var n := |pages| - 1;
    pages[n := pages[n].(nextPage := newPageNo)] + [EmptyPage(newPageNo)]
  }

  lemma AppendBlankEntries(pages: seq<PageImage>, newPageNo: int)
    requires pages != []
    ensures AllEntries(AppendBlank(pages, newPageNo)) == AllEntries(pages)
  {
    hide PageEntries, Entries, AllEntries;
    var n := |pages| - 1;
    LinkKeepsEntries(pages[n], newPageNo, 0);
    EntriesUpdate(pages, n, pages[n].(nextPage := newPageNo));
    BlankFits(newPageNo, []);
    AppendEntries(pages[n := pages[n].(nextPage := newPageNo)], EmptyPage(newPageNo));
  }
}
