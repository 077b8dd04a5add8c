/** Catalog tuples as records of the catalog files, and what a scan for a relation's tuples finds. */
module CatalogSpec {
  import opened Common
  import opened Compare
  import opened PageSpec
  import opened HeapSpec

  /** A C string without its NUL. */
  predicate IsName(n: Bytes) {
    forall i :: 0 <= i < |n| ==> n[i] != 0
  }

  const MAXNAME := 32

  /** A name that leaves room for its NUL in a catalog tuple. */
  predicate Storable(n: Bytes) {
    IsName(n) && |n| < MAXNAME
  }

  datatype AttrInfo = AttrInfo(name: Bytes, kind: Datatype, len: int)

  function Zeros(n: nat): (z: Bytes)
    ensures |z| == n && forall i :: 0 <= i < n ==> z[i] == 0
  {
    seq(n, _ => 0)
  }

  /** A name filled up with NULs. */
  function Pad(n: Bytes): (p: Bytes)
    requires Storable(n)
    ensures |p| == MAXNAME && p[..|n|] == n && forall i :: |n| <= i < MAXNAME ==> p[i] == 0
  {
    n + Zeros(MAXNAME - |n|)
  }

  /** The four bytes of an `int`. */
  function IntBytes(v: int): (b: Bytes)
    ensures |b| == 4
  {
    var w := v % TWO_32;
    [(w % 0x100) as Byte, (w / 0x100 % 0x100) as Byte, (w / 0x1_0000 % 0x100) as Byte, (w / 0x100_0000) as Byte]
  }

  function KindCode(k: Datatype): int {
    match k case STRING => 0 case INTEGER => 1 case FLOAT => 2
  }

  function KindOf(code: int): Datatype {
    if code == 0 then STRING else if code == 1 then INTEGER else FLOAT
  }

  function RelRow(relation: Bytes, attrCnt: int): (r: Bytes)
    requires Storable(relation)
    ensures |r| == 36
  {
    Pad(relation) + IntBytes(attrCnt)
  }

  function AttrRow(relation: Bytes, a: AttrInfo, offset: int): (r: Bytes)
    requires Storable(relation) && Storable(a.name)
    ensures |r| == 76
  {
    Pad(relation) + Pad(a.name) + IntBytes(offset) + IntBytes(KindCode(a.kind)) + IntBytes(a.len)
  }

  // ----- reading tuples back

  predicate Fits32(v: int) {
    -TWO_31 <= v < TWO_31
  }

  lemma BytesOfWord(w: int)
    requires 0 <= w < TWO_32
    ensures w % 0x100 + 0x100 * (w / 0x100 % 0x100) + 0x1_0000 * (w / 0x1_0000 % 0x100) +
            0x100_0000 * (w / 0x100_0000) == w
  {
  }

  lemma IntRoundTrip(v: int, rec: Bytes, i: nat)
    requires i + 4 <= |rec| && rec[i..i + 4] == IntBytes(v)
    ensures Int32(rec, i) == Wrap32(v) && (Fits32(v) ==> Int32(rec, i) == v)
  {
    var w := v % TWO_32;
    BytesOfWord(w);
    var b := IntBytes(v);
    assert rec[i] == b[0] && rec[i + 1] == b[1] && rec[i + 2] == b[2] && rec[i + 3] == b[3];
    assert Word(rec, i) == w;
  }

  /** The string at `i` of a record that holds the name there and a NUL behind it. */
  lemma {:induction false} NameAt(rec: Bytes, i: nat, n: Bytes, len: nat)
    requires IsName(n) && i + |n| <= |rec| && rec[i..i + |n|] == n && At(rec, i + |n|) == 0
    ensures CString(rec, i, len) == if |n| <= len then n else n[..len]
    decreases len
  {
    if n != [] && len > 0 {
      assert rec[i] == n[0] && rec[i + 1..i + 1 + |n[1..]|] == n[1..];
      NameAt(rec, i + 1, n[1..], len - 1);
      assert n == [n[0]] + n[1..];
      if |n| > len {
        assert n[..len] == [n[0]] + n[1..][..len - 1];
      }
    }
  }

  /** A tuple of the attribute catalog says what was stored in it. */
  lemma AttrRowRoundTrip(relation: Bytes, a: AttrInfo, offset: int)
    requires Storable(relation) && Storable(a.name) && Fits32(offset) && Fits32(a.len)
    ensures var r := AttrRow(relation, a, offset);
            && CString(r, 0, MAXNAME) == relation && CString(r, MAXNAME, MAXNAME) == a.name
            && Int32(r, 64) == offset && Int32(r, 68) == KindCode(a.kind) && Int32(r, 72) == a.len
  {
    hide IntBytes, CString, Wrap32, Word;
    var r := AttrRow(relation, a, offset);
    RowNames(relation, a, offset);
    assert r[64..68] == IntBytes(offset) && r[68..72] == IntBytes(KindCode(a.kind)) && r[72..76] == IntBytes(a.len);
    IntRoundTrip(offset, r, 64);
    IntRoundTrip(KindCode(a.kind), r, 68);
    IntRoundTrip(a.len, r, 72);
  }

  /** The attribute a tuple of the attribute catalog describes. */
  function AttrFrom(row: Bytes): AttrInfo {
    AttrInfo(CString(row, MAXNAME, MAXNAME), KindOf(Int32(row, 68)), Int32(row, 72))
  }

  lemma AttrFromRow(relation: Bytes, a: AttrInfo, offset: int)
    requires Storable(relation) && Storable(a.name) && Fits32(a.len)
    ensures AttrFrom(AttrRow(relation, a, offset)) == a
  {
    hide IntBytes, CString, Wrap32, Word;
    var r := AttrRow(relation, a, offset);
    RowNames(relation, a, offset);
    assert r[68..72] == IntBytes(KindCode(a.kind)) && r[72..76] == IntBytes(a.len);
    IntRoundTrip(KindCode(a.kind), r, 68);
    IntRoundTrip(a.len, r, 72);
  }

  lemma RowNames(relation: Bytes, a: AttrInfo, offset: int)
    requires Storable(relation) && Storable(a.name)
    ensures var r := AttrRow(relation, a, offset);
            && r[..|relation|] == relation && At(r, |relation|) == 0
            && CString(r, 0, MAXNAME) == relation && CString(r, MAXNAME, MAXNAME) == a.name
  {
    hide IntBytes, CString;
    var r, p, q := AttrRow(relation, a, offset), Pad(relation), Pad(a.name);
    assert r[..MAXNAME] == p && r[MAXNAME..2 * MAXNAME] == q;
    assert r[0..|relation|] == p[..|relation|] && r[MAXNAME..MAXNAME + |a.name|] == q[..|a.name|];
    assert At(r, |relation|) == p[|relation|] && At(r, MAXNAME + |a.name|) == q[|a.name|];
    NameAt(r, 0, relation, MAXNAME);
    NameAt(r, MAXNAME, a.name, MAXNAME);
  }

  // ----- scanning for a relation

  /** The filter of every catalog scan. */
  function NameFilter(n: Bytes): Filter {
    Filter(0, |n| + 1, STRING, n, EQ)
  }

  /** A tuple of relation `r`. */
  ghost predicate RowFor(rec: Bytes, r: Bytes) {
    IsName(r) && |r| < |rec| && rec[..|r|] == r && At(rec, |r|) == 0
  }

  /** A scan for `n` finds exactly the tuples of relation `n`, although it compares only as far as `n` is long. */
  lemma NameMatches(n: Bytes, rec: Bytes, r: Bytes)
    requires IsName(n) && RowFor(rec, r)
    ensures MatchRec(NameFilter(n), rec) <==> n == r
  {
    assert rec[0..0 + |r|] == r;
    NameAt(rec, 0, r, |n| + 1);
    assert n[0..0 + |n|] == n;
    NameAt(n, 0, n, |n| + 1);
    StrncmpOrder(rec, 0, n, 0, |n| + 1);
  }

  function Named(n: Bytes): Bytes -> bool {
    Filtering(NameFilter(n))
  }

  /** What a scan for relation `n` returns. */
  function Tuples(pages: seq<PageImage>, n: Bytes): seq<Bytes> {
    BytesOf(Matching(AllEntries(pages), Named(n)))
  }

  /** All records, without their order. */
  function Tally(pages: seq<PageImage>): multiset<Bytes> {
    multiset(BytesOf(AllEntries(pages)))
  }

  // ----- adding a tuple

  lemma InsertElsewhere(pages: seq<PageImage>, rec: Bytes, newPageNo: int, m: Bytes -> bool)
    requires pages != [] && |rec| <= MAX_RECORD
    ensures !m(rec) ==> Matching(AllEntries(InsertPages(pages, rec, newPageNo)), m) == Matching(AllEntries(pages), m)
    ensures Tally(InsertPages(pages, rec, newPageNo)) == Tally(pages) + multiset{rec}
    ensures rec != [] && NoEmptyRecords(AllEntries(pages)) ==>
              NoEmptyRecords(AllEntries(InsertPages(pages, rec, newPageNo)))
    ensures InsertPages(pages, rec, newPageNo) != []
  {
    hide AllEntries, InsertPages, PageEntries, Range, Entries, LowestHoleFrom, NoEmptyRecords, Front;
    var last := pages[|pages| - 1];
    var k := if last.Fits(|rec|) then LowestHole(last.slots) else |last.slots|;
    InsertAddsEntry(pages, rec, newPageNo);
    FrontThenRest(pages, k);
    PagesNotEmpty(pages, rec, newPageNo);
    AddedBetween(Front(pages, k), Entry(InsertedRid(pages, rec, newPageNo), rec), PageEntries(last, k), m);
  }

  lemma AddedBetween(a: seq<Entry>, e: Entry, b: seq<Entry>, m: Bytes -> bool)
    ensures !m(e.bytes) ==> Matching(a + ([e] + b), m) == Matching(a + b, m)
    ensures multiset(BytesOf(a + ([e] + b))) == multiset(BytesOf(a + b)) + multiset{e.bytes}
    ensures NoEmptyRecords(a + ([e] + b)) <==> e.bytes != [] && NoEmptyRecords(a + b)
  {
    hide NoEmptyRecords, Matching, BytesOf;
    MatchingConcat(a, [e] + b, m);
    MatchingConcat([e], b, m);
    MatchingConcat(a, b, m);
    BytesOfConcat(a, [e] + b);
    BytesOfConcat([e], b);
    BytesOfConcat(a, b);
    NoEmptyConcat(a, [e] + b);
    NoEmptyConcat([e], b);
    NoEmptyConcat(a, b);
    OneEntry(e, m);
    assert BytesOf(a + ([e] + b)) == BytesOf(a) + [e.bytes] + BytesOf(b);
  }

  lemma OneEntry(e: Entry, m: Bytes -> bool)
    ensures Matching([e], m) == (if m(e.bytes) then [e] else []) && BytesOf([e]) == [e.bytes]
    ensures NoEmptyRecords([e]) <==> e.bytes != []
  {
    assert NoEmptyRecords([e]) ==> [e][0].bytes != [];
  }

  // ----- finding and removing a tuple

  /** The records in front of slot `s` of page `i`. */
  function Passed(pages: seq<PageImage>, i: nat, s: nat): seq<Entry>
    requires i < |pages| && s <= |pages[i].slots|
  {
    Entries(pages[..i], 0) + Range(pages[i], 0, s)
  }

  /** The tuples left after the first one that satisfies `t`. */
  function RemoveFirst(rows: seq<Bytes>, t: Bytes -> bool): seq<Bytes> {
    if rows == [] then [] else if t(rows[0]) then rows[1..] else [rows[0]] + RemoveFirst(rows[1..], t)
  }

  function FirstOf(rows: seq<Bytes>, t: Bytes -> bool): Option<Bytes> {
    if rows == [] then None else if t(rows[0]) then Some(rows[0]) else FirstOf(rows[1..], t)
  }

  function Both(m: Bytes -> bool, t: Bytes -> bool): Bytes -> bool {
    r => m(r) && t(r)
  }

  lemma {:induction false} RemovedBehind(a: seq<Entry>, e: Entry, b: seq<Entry>, m: Bytes -> bool, t: Bytes -> bool)
    requires Matching(a, Both(m, t)) == [] && m(e.bytes) && t(e.bytes)
    ensures BytesOf(Matching(a + b, m)) == RemoveFirst(BytesOf(Matching(a + ([e] + b), m)), t)
    ensures FirstOf(BytesOf(Matching(a + ([e] + b), m)), t) == Some(e.bytes)
  {
    if a == [] {
      assert a + b == b && a + ([e] + b) == [e] + b;
      assert ([e] + b)[1..] == b;
      assert BytesOf([e] + Matching(b, m)) == [e.bytes] + BytesOf(Matching(b, m));
    } else {
      assert (a + b)[1..] == a[1..] + b && (a + ([e] + b))[1..] == a[1..] + ([e] + b);
      RemovedBehind(a[1..], e, b, m, t);
      var x, y := Matching(a[1..] + b, m), Matching(a[1..] + ([e] + b), m);
      assert ([a[0]] + x)[1..] == x && ([a[0]] + y)[1..] == y;
      assert [] + x == x && [] + y == y;
    }
  }

  /** Deleting the first tuple of relation `n` that satisfies `t`. */
  lemma DeleteFirst(pages: seq<PageImage>, i: nat, s: nat, m: Bytes -> bool, t: Bytes -> bool, m2: Bytes -> bool)
    requires i < |pages| && pages[i].Live(s) && m(pages[i].slots[s].bytes) && t(pages[i].slots[s].bytes)
    requires Matching(Passed(pages, i, s), Both(m, t)) == []
    ensures var pages', rec := pages[i := Delete(pages[i], s)], pages[i].slots[s].bytes;
            && BytesOf(Matching(AllEntries(pages'), m)) == RemoveFirst(BytesOf(Matching(AllEntries(pages), m)), t)
            && FirstOf(BytesOf(Matching(AllEntries(pages), m)), t) == Some(rec)
            && (!m2(rec) ==> Matching(AllEntries(pages'), m2) == Matching(AllEntries(pages), m2))
            && Tally(pages) == Tally(pages') + multiset{rec}
            && (NoEmptyRecords(AllEntries(pages)) ==> NoEmptyRecords(AllEntries(pages')))
  {
    hide AllEntries, Delete, PageEntries, Range, Entries, NoEmptyRecords, Matching, BytesOf, RemoveFirst, FirstOf,
         Remaining;
    DeleteFromPages(pages, i, s);
    var a, e, b := Passed(pages, i, s), SlotEntry(pages[i], s), Remaining(pages, i, s + 1);
    RemovedBehind(a, e, b, m, t);
    AddedBetween(a, e, b, m2);
  }

  // ----- changes to a catalog

  /** More tuples for relation `r` in a catalog; other relations' tuples stay. */
  ghost predicate RowsAdded(pages: seq<PageImage>, pages': seq<PageImage>, r: Bytes, rows: seq<Bytes>) {
    && pages' != [] && (NoEmptyRecords(AllEntries(pages)) ==> NoEmptyRecords(AllEntries(pages')))
    && Tally(pages') == Tally(pages) + multiset(rows)
    && forall n :: IsName(n) && n != r ==> Tuples(pages', n) == Tuples(pages, n)
  }

  /** Tuples of relation `r` are gone; other relations' tuples stay. */
  ghost predicate RowsRemoved(pages: seq<PageImage>, pages': seq<PageImage>, r: Bytes, rows: seq<Bytes>) {
    && pages' != [] && (NoEmptyRecords(AllEntries(pages)) ==> NoEmptyRecords(AllEntries(pages')))
    && Tally(pages) == Tally(pages') + multiset(rows)
    && forall n :: IsName(n) && n != r ==> Tuples(pages', n) == Tuples(pages, n)
  }

  lemma AddedTwice(pages: seq<PageImage>, pages1: seq<PageImage>, pages2: seq<PageImage>, r: Bytes, rows: seq<Bytes>,
                   rec: Bytes)
    requires RowsAdded(pages, pages1, r, rows) && RowsAdded(pages1, pages2, r, [rec])
    ensures RowsAdded(pages, pages2, r, rows + [rec])
  {
    hide NoEmptyRecords, AllEntries, Tally, Tuples;
  }

  lemma RemovedTwice(pages: seq<PageImage>, pages1: seq<PageImage>, pages2: seq<PageImage>, r: Bytes, rows: seq<Bytes>,
                     rec: Bytes)
    requires RowsRemoved(pages, pages1, r, rows) && RowsRemoved(pages1, pages2, r, [rec])
    ensures RowsRemoved(pages, pages2, r, rows + [rec])
  {
    hide NoEmptyRecords, AllEntries, Tally, Tuples;
  }

  lemma AddRow(pages: seq<PageImage>, rec: Bytes, newPageNo: int, r: Bytes)
    requires pages != [] && RowFor(rec, r) && |rec| <= MAX_RECORD
    ensures RowsAdded(pages, InsertPages(pages, rec, newPageNo), r, [rec])
  {
    hide AllEntries, InsertPages, Matching, Tally, NoEmptyRecords, BytesOf;
    var pages' := InsertPages(pages, rec, newPageNo);
    InsertElsewhere(pages, rec, newPageNo, Named(r));
    forall n | IsName(n) && n != r ensures Tuples(pages', n) == Tuples(pages, n) {
      NameMatches(n, rec, r);
      InsertElsewhere(pages, rec, newPageNo, Named(n));
    }
  }

  lemma RemoveRow(pages: seq<PageImage>, i: nat, s: nat, r: Bytes, t: Bytes -> bool)
    requires i < |pages| && pages[i].Live(s) && RowFor(pages[i].slots[s].bytes, r) && t(pages[i].slots[s].bytes)
    requires Matching(Passed(pages, i, s), Both(Named(r), t)) == []
    ensures var pages' := pages[i := Delete(pages[i], s)];
            RowsRemoved(pages, pages', r, [pages[i].slots[s].bytes]) &&
              Tuples(pages', r) == RemoveFirst(Tuples(pages, r), t)
            && FirstOf(Tuples(pages, r), t) == Some(pages[i].slots[s].bytes)
  {
    hide AllEntries, Delete, Matching, Tally, NoEmptyRecords, Passed, BytesOf, Both, RemoveFirst, FirstOf;
    var pages', rec := pages[i := Delete(pages[i], s)], pages[i].slots[s].bytes;
    NameMatches(r, rec, r);
    DeleteFirst(pages, i, s, Named(r), t, Named(r));
    forall n | IsName(n) && n != r ensures Tuples(pages', n) == Tuples(pages, n) {
      NameMatches(n, rec, r);
      DeleteFirst(pages, i, s, Named(r), t, Named(n));
    }
  }

  /** A match at a place is among the tuples found. */
  lemma FoundHas(pages: seq<PageImage>, i: nat, s: nat, n: Bytes)
    requires i < |pages| && pages[i].Live(s) && Named(n)(pages[i].slots[s].bytes)
    ensures pages[i].slots[s].bytes in Tuples(pages, n)
  {
    hide AllEntries, Matching, Delete, Entries, Range, Remaining, BytesOf, Named;
    DeleteFromPages(pages, i, s);
    var a, e, b := Passed(pages, i, s), SlotEntry(pages[i], s), Remaining(pages, i, s + 1);
    MatchingConcat(a, [e] + b, Named(n));
    MatchingConcat([e], b, Named(n));
    OneEntry(e, Named(n));
    BytesOfConcat(Matching(a, Named(n)), [e] + Matching(b, Named(n)));
    BytesOfConcat([e], Matching(b, Named(n)));
    assert Tuples(pages, n) == BytesOf(Matching(a, Named(n))) + ([e.bytes] + BytesOf(Matching(b, Named(n))));
  }

  /** All tuples found for `n` are tuples of relation `n`. */
  ghost predicate OwnRows(pages: seq<PageImage>, n: Bytes) {
    forall i :: 0 <= i < |Tuples(pages, n)| ==> RowFor(Tuples(pages, n)[i], n)
  }

  function AttrNameIs(name: Bytes): Bytes -> bool {
    rec => CString(rec, MAXNAME, MAXNAME) == name
  }

  function AnyRow(): Bytes -> bool {
    rec => true
  }
}
