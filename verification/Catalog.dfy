/** The relation and attribute catalogs: they hold exactly the relations created and not destroyed. */
module Catalog {
  import opened Common
  import opened Compare
  import opened PageSpec
  import opened BufRefine
  import opened BufRuns
  import opened HeapSpec
  import opened Chain
  import opened Storage
  import opened Tandem
  import opened CatalogSpec
  import opened CatalogScan
  import Create
  import Query

  type Schema = map<Bytes, seq<AttrInfo>>

  const PAGESIZE := 1024

  predicate NamesStorable(list: seq<AttrInfo>, n: nat)
    requires n <= |list|
  {
    forall i :: 0 <= i < n ==> Storable(list[i].name)
  }

  /** The offset of attribute `i`: the lengths of those in front of it. */
  function Offset(list: seq<AttrInfo>, i: nat): int
    requires i <= |list|
  {
    if i == 0 then 0 else Offset(list, i - 1) + list[i - 1].len
  }

  function RowAt(relation: Bytes, list: seq<AttrInfo>, i: nat): (row: Bytes)
    requires i < |list| && Storable(relation) && Storable(list[i].name)
    ensures |row| == 76
  {
    AttrRow(relation, list[i], Offset(list, i))
  }

  /** The tuples of the first `n` attributes, in the order of declaration. */
  function AttrRows(relation: Bytes, list: seq<AttrInfo>, n: nat): (rows: seq<Bytes>)
    requires n <= |list| && Storable(relation) && NamesStorable(list, n)
    ensures |rows| == n && forall i :: 0 <= i < n ==> rows[i] == RowAt(relation, list, i)
  {
    seq(n, i requires 0 <= i < n => RowAt(relation, list, i))
  }

  predicate Duplicates(list: seq<AttrInfo>) {
    exists i, j :: 0 <= j < i < |list| && list[i].name == list[j].name
  }

  /** The relations the catalogs can describe. */
  ghost predicate GoodSchema(schema: Schema) {
    forall n :: n in schema ==> GoodRelation(n, schema[n])
  }

  ghost predicate GoodRelation(n: Bytes, list: seq<AttrInfo>) {
    && Storable(n) && n != [] && 0 < |list| < TWO_31 && NamesStorable(list, |list|) && !Duplicates(list)
    && forall i :: 0 <= i < |list| ==> Fits32(list[i].len)
  }

  /** What the catalogs hold on relation `n` is what the schema says. */
  ghost predicate Described(rels: seq<PageImage>, attrs: seq<PageImage>, schema: Schema, n: Bytes)
    requires GoodSchema(schema)
  {
    && Tuples(rels, n) == (if n in schema then [RelRow(n, |schema[n]|)] else [])
    && Tuples(attrs, n) == (if n in schema then AttrRows(n, schema[n], |schema[n]|) else [])
  }

  ghost predicate Consistent(rels: seq<PageImage>, attrs: seq<PageImage>, schema: Schema) {
    && rels != [] && attrs != [] && NoEmptyRecords(AllEntries(rels)) && NoEmptyRecords(AllEntries(attrs))
    && GoodSchema(schema) && forall n :: IsName(n) ==> Described(rels, attrs, schema, n)
  }

  /** The catalogs describe no set of relations. */
  ghost predicate Senseless(rels: seq<PageImage>, attrs: seq<PageImage>) {
    forall s: Schema :: !Consistent(rels, attrs, s)
  }

  // ----- creating relations

  function Width(list: seq<AttrInfo>): int {
    Offset(list, |list|)
  }

  /** Some attribute name does not fit into a catalog tuple. */
  predicate LongName(list: seq<AttrInfo>) {
    exists i :: 0 <= i < |list| && |list[i].name| >= MAXNAME
  }

  /** The checks createRel makes before it changes anything. */
  function CreateCheck(relation: Bytes, list: seq<AttrInfo>, known: bool): Status {
    if relation == [] || |list| < 1 then BADCATPARM
    else if |relation| >= MAXNAME then NAMETOOLONG
    else if known then RELEXISTS
    else if Duplicates(list) then DUPLATTR
    else if Width(list) % TWO_32 > PAGESIZE then ATTRTOOLONG
    else OK
  }

  /** Looks for two attributes of one name, and adds up the lengths in an `unsigned int`. */
  method CheckAttributes(list: seq<AttrInfo>) returns (st: Status)
    requires |list| >= 1
    ensures st == if Duplicates(list) then DUPLATTR else if Width(list) % TWO_32 > PAGESIZE then ATTRTOOLONG else OK
  {
    var tupleWidth := list[0].len % TWO_32;
    assert Offset(list, 1) == Offset(list, 0) + list[0].len;
    for i := 1 to |list|
      invariant tupleWidth == Offset(list, i) % TWO_32
      invariant forall x, y :: 0 <= y < x < i ==> list[x].name != list[y].name
    {
      tupleWidth := (tupleWidth + list[i].len) % TWO_32;
      for j := 0 to i
        invariant forall y :: 0 <= y < j ==> list[i].name != list[y].name
      {
        if list[i].name == list[j].name {
          return DUPLATTR;
        }
      }
    }
    return if tupleWidth > PAGESIZE then ATTRTOOLONG else OK;
  }

  lemma DescribedNew(rels: seq<PageImage>, attrs: seq<PageImage>, schema: Schema, rels': seq<PageImage>,
                     attrs': seq<PageImage>, r: Bytes, list: seq<AttrInfo>)
    requires Consistent(rels, attrs, schema) && GoodRelation(r, list)
    requires RowsAdded(rels, rels', r, [RelRow(r, |list|)]) && Tuples(rels', r) == [RelRow(r, |list|)]
    requires RowsAdded(attrs, attrs', r, AttrRows(r, list, |list|)) && Tuples(attrs', r) == AttrRows(r, list, |list|)
    ensures Consistent(rels', attrs', schema[r := list])
  {
    hide AllEntries, NoEmptyRecords, Tally, Tuples, AttrRows, RelRow, GoodRelation;
    var schema' := schema[r := list];
    assert GoodSchema(schema');
    forall n | IsName(n) ensures Described(rels', attrs', schema', n) {
      assert Described(rels, attrs, schema, n);
    }
  }

  lemma DescribedGone(rels: seq<PageImage>, attrs: seq<PageImage>, schema: Schema, rels': seq<PageImage>,
                      attrs': seq<PageImage>, r: Bytes)
    requires Consistent(rels, attrs, schema) && r in schema
    requires RowsRemoved(rels, rels', r, [RelRow(r, |schema[r]|)]) && Tuples(rels', r) == []
    requires RowsRemoved(attrs, attrs', r, AttrRows(r, schema[r], |schema[r]|)) && Tuples(attrs', r) == []
    ensures Consistent(rels', attrs', schema - {r})
  {
    hide AllEntries, NoEmptyRecords, Tally, Tuples, AttrRows, RelRow, GoodRelation;
    var schema' := schema - {r};
    assert GoodSchema(schema');
    forall n | IsName(n) ensures Described(rels', attrs', schema', n) {
      assert Described(rels, attrs, schema, n);
    }
  }

  /** Where nothing is found for a relation, nothing lies behind the place of the next insertion. */
  lemma {:induction false} FreshRelation(pages: seq<PageImage>, r: Bytes)
    requires pages != [] && Tuples(pages, r) == []
    ensures NothingBehind(pages, 0, Named(r))
  {
    hide PageEntries, Entries, Matching, BytesOf;
    NoneFound(Matching(AllEntries(pages), Named(r)));
    EntriesAround(pages, |pages| - 1);
    MatchingConcat(Entries(pages[..|pages| - 1], 0), PageEntries(Last(pages), 0) + Entries(pages, |pages|), Named(r));
    MatchingConcat(PageEntries(Last(pages), 0), Entries(pages, |pages|), Named(r));
  }

  lemma NoneFound(es: seq<Entry>)
    ensures BytesOf(es) == [] <==> es == []
  {
  }

  /** The tuple of relation `r` comes behind its others. */
  lemma AddedLast(pages: seq<PageImage>, rec: Bytes, newPageNo: int, r: Bytes, k: nat) returns (k': nat)
    requires pages != [] && RowFor(rec, r) && |rec| <= MAX_RECORD && NothingBehind(pages, k, Named(r))
    ensures var pages' := InsertPages(pages, rec, newPageNo);
            && RowsAdded(pages, pages', r, [rec]) && pages' != []
            && Tuples(pages', r) == Tuples(pages, r) + [rec] && NothingBehind(pages', k', Named(r))
  {
    hide AllEntries, Matching, InsertPages, NothingBehind, RowsAdded, BytesOf;
    AddRow(pages, rec, newPageNo, r);
    NameMatches(r, rec, r);
    k' := InsertedLast(pages, rec, newPageNo, Named(r), k);
    PagesNotEmpty(pages, rec, newPageNo);
    var e := Entry(InsertedRid(pages, rec, newPageNo), rec);
    BytesOfConcat(Matching(AllEntries(pages), Named(r)), [e]);
    OneEntry(e, Named(r));
  }

  lemma RowAtFor(relation: Bytes, list: seq<AttrInfo>, i: nat)
    requires i < |list| && Storable(relation) && Storable(list[i].name)
    ensures RowFor(RowAt(relation, list, i), relation) &&
            CString(RowAt(relation, list, i), MAXNAME, MAXNAME) == list[i].name
  {
    hide AttrRow, CString;
    RowNames(relation, list[i], Offset(list, i));
  }

  lemma RelRowFor(relation: Bytes, attrCnt: int)
    requires Storable(relation)
    ensures RowFor(RelRow(relation, attrCnt), relation)
  {
    var r, p := RelRow(relation, attrCnt), Pad(relation);
    assert r[..MAXNAME] == p;
    assert r[..|relation|] == p[..|relation|];
  }

  /** Enters one tuple of a relation into a catalog. */
  method AddTuple(s: Store, f: int, row: Bytes, ghost r: Bytes, ghost x: HeapImage, ghost k: nat)
    returns (st: Status, ghost x': HeapImage, ghost k': nat)
    requires Writable(s, x) && x.file == f && RowFor(row, r) && |row| <= MAX_RECORD &&
             NothingBehind(x.pages, k, Named(r))
    modifies s.Repr(), s.bm.db
    ensures Writable(s, x') && x'.file == f && OnlyFile(s, f) && st == OK
    ensures RowsAdded(x.pages, x'.pages, r, [row]) && Tuples(x'.pages, r) == Tuples(x.pages, r) + [row] &&
            NothingBehind(x'.pages, k', Named(r))
  {
    hide RowsAdded, NothingBehind, Tuples, RowFor, HeapAt, PagesOf, InsertPages, Store.Valid, OthersSame, Durable,
         Query.NoPins, NoEmptyRecords, AllEntries;
    ghost var chain', pages', n;
    OthersSameNow(s.view, f);
    st, chain', pages', n := InsertRecordInto(s, f, row, x.chain, x.pages);
    x' := HeapImage(f, chain', pages');
    k' := AddedLast(x.pages, row, n, r, k);
    FileStays(old(s.view), s.view, f);
    StillNoEmpty(x.pages, x'.pages, r, row);
  }

  lemma FileStays(v: View, w: View, f: int)
    requires OthersSame(v, w, f) && f in v.free
    ensures f in w.free
  {
  }

  lemma StillNoEmpty(pages: seq<PageImage>, pages': seq<PageImage>, r: Bytes, row: Bytes)
    requires RowsAdded(pages, pages', r, [row]) && NoEmptyRecords(AllEntries(pages))
    ensures NoEmptyRecords(AllEntries(pages')) && pages' != []
  {
    hide AllEntries, NoEmptyRecords, Tally, Tuples;
  }

  /** What a change of a catalog asks of the store: the file is there, and three frames can be had. */
  ghost predicate Writable(s: Store, x: HeapImage)
    reads s, s.bm, s.bm.db, s.bm.hashTable, s.bm.hashTable.ht, s.bm.bufTable, s.bm.bufPool
  {
    && s.Valid() && Stored(s.view, x) && x.file in s.bm.db.openCnt && s.bm.db.openCnt[x.file] >= 0 &&
       |s.view.pins| + 3 <= s.bm.numBufs
    && x.pages != [] && NoEmptyRecords(AllEntries(x.pages))
  }

  /** Inserts the attribute tuples one after the other; a name that is too long stops it halfway. */
  method AddAttributes(s: Store, f: int, relation: Bytes, list: seq<AttrInfo>, ghost x: HeapImage)
    returns (st: Status, ghost x': HeapImage, ghost done: nat)
    requires Writable(s, x) && x.file == f && Storable(relation) && Tuples(x.pages, relation) == [] &&
             forall i :: 0 <= i < |list| ==> IsName(list[i].name)
    modifies s.Repr(), s.bm.db
    ensures Writable(s, x') && x'.file == f && OnlyFile(s, f)
    ensures done <= |list| && NamesStorable(list, done) &&
            RowsAdded(x.pages, x'.pages, relation, AttrRows(relation, list, done))
    ensures Tuples(x'.pages, relation) == AttrRows(relation, list, done)
    ensures st == if LongName(list) then NAMETOOLONG else OK
    ensures st == OK <==> done == |list|
  {
    hide AttrRow, RowsAdded, NothingBehind, Tuples, RowFor, Offset, Store.Valid, Stored, OthersSame, NoEmptyRecords,
         AllEntries;
    x', done := x, 0;
    var offset := 0;
    ghost var k := 0;
    FreshRelation(x.pages, relation);
    NoneAdded(x.pages, relation);
    OthersSameNow(s.view, f);
    FirstOffset(list);
    for i := 0 to |list|
      invariant done == i && Writable(s, x') && x'.file == f && OnlyFile(s, f) && offset == Offset(list, i) &&
                NamesStorable(list, i)
      invariant RowsAdded(x.pages, x'.pages, relation, AttrRows(relation, list, i)) &&
                Tuples(x'.pages, relation) == AttrRows(relation, list, i)
      invariant NothingBehind(x'.pages, k, Named(relation))
    {
      if |list[i].name| >= MAXNAME {
        return NAMETOOLONG, x', done;
      }
      var row := AttrRow(relation, list[i], offset);
      RowAtFor(relation, list, i);
      NextOffset(list, i);
      ghost var before, v := x', s.view;
      st, x', k := AddTuple(s, f, row, relation, before, k);
      OthersSameTwice(old(s.view), v, v, s.view, f);
      AddedTwice(x.pages, before.pages, x'.pages, relation, AttrRows(relation, list, i), row);
      assert AttrRows(relation, list, i + 1) == AttrRows(relation, list, i) + [row];
      offset := offset + list[i].len;
      done := i + 1;
    }
    return OK, x', done;
  }

  lemma FirstOffset(list: seq<AttrInfo>)
    ensures Offset(list, 0) == 0
  {
  }

  lemma NextOffset(list: seq<AttrInfo>, i: nat)
    requires i < |list|
    ensures Offset(list, i + 1) == Offset(list, i) + list[i].len
  {
  }

  lemma NoneAdded(pages: seq<PageImage>, r: Bytes)
    requires pages != []
    ensures RowsAdded(pages, pages, r, [])
  {
  }

  // ----- destroying relations

  predicate NoNameless(list: seq<AttrInfo>) {
    forall i :: 0 <= i < |list| ==> list[i].name != []
  }

  lemma OwnRowsOf(pages: seq<PageImage>, relation: Bytes, list: seq<AttrInfo>, i: nat)
    requires i <= |list| && Storable(relation) && NamesStorable(list, |list|)
    requires Tuples(pages, relation) == AttrRows(relation, list, |list|)[i..]
    ensures OwnRows(pages, relation)
  {
    hide RowFor, Tuples, AttrRow;
    var rows := AttrRows(relation, list, |list|);
    forall j | 0 <= j < |rows[i..]| ensures RowFor(rows[i..][j], relation) {
      assert rows[i..][j] == RowAt(relation, list, i + j);
      RowAtFor(relation, list, i + j);
    }
  }

  /** The first tuple found is the first with its attribute name. */
  lemma FirstByName(pages: seq<PageImage>, relation: Bytes, name: Bytes)
    requires Tuples(pages, relation) != [] && CString(Tuples(pages, relation)[0], MAXNAME, MAXNAME) == name
    ensures Matching(AllEntries(pages), Both(Named(relation), AttrNameIs(name))) != []
    ensures RemoveFirst(Tuples(pages, relation), AttrNameIs(name)) == Tuples(pages, relation)[1..]
    ensures FirstOf(Tuples(pages, relation), AttrNameIs(name)) == Some(Tuples(pages, relation)[0])
  {
    hide AllEntries, CString;
    SomeMatch(AllEntries(pages), Named(relation), AttrNameIs(name));
  }

  lemma {:induction false} SomeMatch(es: seq<Entry>, m: Bytes -> bool, t: Bytes -> bool)
    ensures BytesOf(Matching(es, m)) != [] && t(BytesOf(Matching(es, m))[0]) ==> Matching(es, Both(m, t)) != []
  {
    if es != [] {
      SomeMatch(es[1..], m, t);
    }
  }

  lemma NoneRemoved(pages: seq<PageImage>, r: Bytes)
    requires pages != []
    ensures RowsRemoved(pages, pages, r, [])
  {
  }

  /** Removes the attribute tuples of a relation one by one; an attribute without a name stops it. */
  method RemoveAttributes(s: Store, f: int, relation: Bytes, rows: seq<Bytes>, ghost list: seq<AttrInfo>,
                          ghost x: HeapImage)
    returns (st: Status, ghost x': HeapImage, ghost done: nat)
    requires Writable(s, x) && x.file == f && Storable(relation) && relation != [] && NamesStorable(list, |list|)
    requires Tuples(x.pages, relation) == rows == AttrRows(relation, list, |list|)
    modifies s.Repr(), s.bm.db
    ensures Writable(s, x') && x'.file == f && OnlyFile(s, f)
    ensures st == if NoNameless(list) then OK else BADCATPARM
    ensures done <= |list| && RowsRemoved(x.pages, x'.pages, relation, AttrRows(relation, list, done)) &&
            (done == 0 ==> x' == x)
    ensures Tuples(x'.pages, relation) == AttrRows(relation, list, |list|)[done..]
    ensures if st == OK then done == |list|
            else done < |list| && list[done].name == [] && forall j :: 0 <= j < done ==> list[j].name != []
  {
    hide RowsRemoved, Tuples, RowFor, AttrRow, CString, AllEntries, Matching, FirstOf, RemoveFirst, Store.Valid, Stored,
         OthersSame, NoEmptyRecords, OwnRows;
    x', done := x, 0;
    NoneRemoved(x.pages, relation);
    OthersSameNow(s.view, f);
    for i := 0 to |rows|
      invariant done == i && (forall j :: 0 <= j < i ==> list[j].name != []) && Writable(s, x') && x'.file == f &&
                OnlyFile(s, f) && (done == 0 ==> x' == x)
      invariant RowsRemoved(x.pages, x'.pages, relation, AttrRows(relation, list, i)) &&
                Tuples(x'.pages, relation) == rows[i..]
    {
      var name := CString(rows[i], MAXNAME, MAXNAME);
      RowAtFor(relation, list, i);
      if name == [] {
        return BADCATPARM, x', done;
      }
      ghost var before, v, rec := x', s.view, [];
      OwnRowsOf(before.pages, relation, list, i);
      FirstByName(before.pages, relation, name);
      st, x', rec := RemoveNamed(s, f, relation, name, before);
      OthersSameTwice(old(s.view), v, v, s.view, f);
      RemovedTwice(x.pages, before.pages, x'.pages, relation, AttrRows(relation, list, i), rec);
      StillWritable(v, s.view, f, before.pages, x'.pages, relation, rec);
      assert AttrRows(relation, list, i + 1) == AttrRows(relation, list, i) + [rows[i]];
      assert rows[i..][1..] == rows[i + 1..];
      done := i + 1;
    }
    return OK, x', done;
  }

  lemma StillWritable(v: View, w: View, f: int, pages: seq<PageImage>, pages': seq<PageImage>, r: Bytes, rec: Bytes)
    requires OthersSame(v, w, f) && RowsRemoved(pages, pages', r, [rec]) && NoEmptyRecords(AllEntries(pages))
    ensures pages' != [] && NoEmptyRecords(AllEntries(pages'))
  {
    hide AllEntries, NoEmptyRecords, Tally, Tuples;
  }

  /** The second pair of catalogs has the tuples of relation `r` more than the first. */
  ghost predicate OneMore(rels: seq<PageImage>, attrs: seq<PageImage>, rels': seq<PageImage>, attrs': seq<PageImage>,
                          r: Bytes, list: seq<AttrInfo>) {
    && GoodRelation(r, list) && Tally(rels') == Tally(rels) + multiset([RelRow(r, |list|)])
    && Tally(attrs') == Tally(attrs) + multiset(AttrRows(r, list, |list|))
  }

  ghost predicate EmptyHeap(v: View, f: int, chain: seq<int>) {
    HeapAt(v.logical, f, 1, chain) && AllEntries(PagesOf(v.logical, f, chain)) == []
  }

  lemma KeptTwice(v: View, v1: View, w: View, a: int, b: int)
    requires OthersSame(v, v1, a) && OthersSame(v1, w, b)
    ensures PagesKept(v, w, {a, b})
  {
  }

  class Catalogs {
    const store: Store
    const relFile: int
    const attrFile: int
    /** The two catalog files. */
    ghost var rels: HeapImage
    ghost var attrs: HeapImage
    /** The relations created and not destroyed. */
    ghost var schema: Schema

    /** The files are there, and frames to change them. */
    ghost predicate Usable()
      reads this, store, store.bm, store.bm.db, store.bm.hashTable, store.bm.hashTable.ht, store.bm.bufTable,
            store.bm.bufPool
    {
      Writable(store, rels) && Writable(store, attrs) && rels.file == relFile && attrs.file == attrFile &&
        relFile != attrFile
    }

    ghost predicate Valid()
      reads this, store, store.bm, store.bm.db, store.bm.hashTable, store.bm.hashTable.ht, store.bm.bufTable,
            store.bm.bufPool
    {
      Usable() && Consistent(rels.pages, attrs.pages, schema)
    }

    constructor (s: Store, relF: int, attrF: int, ghost r: HeapImage, ghost a: HeapImage)
      requires Writable(s, r) && Writable(s, a) && r.file == relF && a.file == attrF && relF != attrF &&
               AllEntries(r.pages) == [] && AllEntries(a.pages) == []
      ensures Valid() && schema == map[] && store == s
    {
      hide Store.Valid, Stored, AllEntries;
      store, relFile, attrFile := s, relF, attrF;
      rels, attrs, schema := r, a, map[];
      new;
      NothingStored(r.pages);
      NothingStored(a.pages);
      assert forall n :: IsName(n) ==> Described(rels.pages, attrs.pages, schema, n);
    }

    /** A lookup left everything as it was. */
    twostate lemma StillUsable()
      requires old(Usable()) && store.Valid() && Untouched(store) && rels == old(rels) && attrs == old(attrs)
      ensures Usable()
    {
      hide Store.Valid, Stored, NoEmptyRecords, AllEntries;
      SameStored(old(store.view), store.view, rels);
      SameStored(old(store.view), store.view, attrs);
    }

    /** The tuple of a relation. */
    method GetInfo(relation: Bytes) returns (st: Status, rec: Bytes)
      requires Valid() && IsName(relation)
      modifies store.Repr(), store.bm.db
      ensures Valid() && Untouched(store)
      ensures st == if relation == [] then BADCATPARM else if relation in schema then OK else RELNOTFOUND
      ensures st == OK ==> Storable(relation) && rec == RelRow(relation, |schema[relation]|)
    {
      hide Tuples, Writable, Consistent, Store.Valid, Reachable, AttrRow, RelRow, GoodRelation;
      rec := [];
      if relation == [] {
        return BADCATPARM, rec;
      }
      DescribedHere(rels.pages, attrs.pages, schema, relation);
      LookUp(store, rels);
      st, rec := FirstTuple(store, relFile, relation, rels);
      StillUsable();
    }

    /** The attribute tuples of a relation, in the order in which the attributes were declared. */
    method GetRelInfo(relation: Bytes) returns (st: Status, rows: seq<Bytes>)
      requires Valid() && IsName(relation)
      modifies store.Repr(), store.bm.db
      ensures Valid() && Untouched(store)
      ensures st == if relation == [] then BADCATPARM else if relation in schema then OK else RELNOTFOUND
      ensures st == OK ==>
                GoodRelation(relation, schema[relation]) &&
                rows == AttrRows(relation, schema[relation], |schema[relation]|)
    {
      hide Tuples, Writable, Consistent, Store.Valid, Reachable, AttrRow, RelRow, GoodRelation;
      rows := [];
      if relation == [] {
        return BADCATPARM, rows;
      }
      DescribedHere(rels.pages, attrs.pages, schema, relation);
      LookUp(store, attrs);
      st, rows := AllTuples(store, attrFile, relation, attrs);
      StillUsable();
    }

    /** What a change of the catalogs leaves alone. */
    twostate predicate OnlyCatalogs()
      reads this, store, store.bm, store.bm.db
    {
      && PagesKept(old(store.view), store.view, {relFile, attrFile}) &&
         store.view.free.Keys == old(store.view.free.Keys)
      && store.view.pins == old(store.view.pins) && store.view.owed == old(store.view.owed) &&
         store.bm.db.openCnt == old(store.bm.db.openCnt)
    }

    /** Enters a new relation into both catalogs. */
    method Enter(relation: Bytes, list: seq<AttrInfo>) returns (st: Status)
      requires Valid() && Storable(relation) && relation != [] && relation !in schema && 0 < |list| < TWO_31 &&
               !Duplicates(list)
      requires forall i :: 0 <= i < |list| ==> IsName(list[i].name) && Fits32(list[i].len)
      modifies this, store.Repr(), store.bm.db
      ensures Usable() && OnlyCatalogs()
      ensures st == if LongName(list) then NAMETOOLONG else OK
      ensures st == OK ==>
                && Valid() && schema == old(schema)[relation := list] &&
                   OneMore(old(rels.pages), old(attrs.pages), rels.pages, attrs.pages, relation, list)
      ensures st != OK ==> Senseless(rels.pages, attrs.pages)
    {
      hide Tuples, AttrRow, Consistent, Duplicates, Offset, Tally, RelRow, RowFor, NothingBehind, Store.Valid, Stored,
           NoEmptyRecords, AllEntries, OthersSame, PagesKept, AttrRows;
      ghost var v, oldRels, oldAttrs := store.view, rels, attrs;
      EmptyHere(rels.pages, attrs.pages, schema, relation);
      var row := RelRow(relation, |list|);
      RelRowFor(relation, |list|);
      FreshRelation(rels.pages, relation);
      ghost var k;
      st, rels, k := AddTuple(store, relFile, row, relation, rels, 0);
      ghost var v1, done := store.view, 0;
      StoredSame(v, v1, relFile, oldAttrs);
      assert [] + [row] == [row];
      st, attrs, done := AddAttributes(store, attrFile, relation, list, oldAttrs);
      StoredSame(v1, store.view, attrFile, rels);
      KeptTwice(v, v1, store.view, relFile, attrFile);
      SameFiles(v, v1, store.view, relFile, attrFile);
      if st == OK {
        DescribedNew(oldRels.pages, oldAttrs.pages, schema, rels.pages, attrs.pages, relation, list);
        TalliesNew(oldRels.pages, rels.pages, relation, [row]);
        TalliesNew(oldAttrs.pages, attrs.pages, relation, AttrRows(relation, list, |list|));
        schema := schema[relation := list];
      } else {
        WrongCount(rels.pages, attrs.pages, relation, list);
      }
    }

    /** The checks of createRel; they change nothing. */
    method CheckNew(relation: Bytes, list: seq<AttrInfo>) returns (st: Status)
      requires Valid() && IsName(relation)
      modifies store.Repr(), store.bm.db
      ensures Valid() && Untouched(store)
      ensures st == CreateCheck(relation, list, relation in schema) && (st == OK ==> Storable(relation))
    {
      hide Consistent, Duplicates, Offset, Store.Valid, Writable, RelRow;
      if relation == [] || |list| < 1 {
        return BADCATPARM;
      }
      if |relation| >= MAXNAME {
        return NAMETOOLONG;
      }
      var rec;
      st, rec := GetInfo(relation);
      if st == OK {
        return RELEXISTS;
      }
      st := CheckAttributes(list);
    }

    /**
     Creates a relation whose heap file is `file`. A refusal leaves the catalogs alone, except that an attribute name
     that is too long is noticed only after the relation and the attributes before it have been entered. A file that
     is there already is noticed after the catalogs have been changed.
     */
    method CreateRel(relation: Bytes, list: seq<AttrInfo>, file: int) returns (st: Status, ghost chain: seq<int>)
      requires Valid() && IsName(relation) && |list| < TWO_31 &&
               forall i :: 0 <= i < |list| ==> IsName(list[i].name) && Fits32(list[i].len)
      requires file >= 1 && (file in store.view.free ==> file in store.bm.db.openCnt)
      modifies this, store.Repr(), store.bm.db
      ensures var check := CreateCheck(relation, list, relation in old(schema));
              st == if check != OK then check else if LongName(list) then NAMETOOLONG
                else if file in old(store.view.free) then FILEEXISTS else OK
      ensures store.view.pins == old(store.view.pins) && store.view.owed == old(store.view.owed)
      ensures PagesKept(old(store.view), store.view, {relFile, attrFile})
      ensures CreateCheck(relation, list, relation in old(schema)) != OK ==>
                Valid() && rels == old(rels) && attrs == old(attrs) && schema == old(schema)
      ensures CreateCheck(relation, list, relation in old(schema)) == OK && !LongName(list) ==>
                && Valid() && schema == old(schema)[relation := list]
                && OneMore(old(rels.pages), old(attrs.pages), rels.pages, attrs.pages, relation, list)
      ensures CreateCheck(relation, list, relation in old(schema)) == OK && LongName(list) ==>
                Senseless(rels.pages, attrs.pages)
      ensures st == OK ==>
                && EmptyHeap(store.view, file, chain) && Durable(store.bm.pool, store.view, file) &&
                   store.bm.db.openCnt == old(store.bm.db.openCnt)[file := 0]
      ensures st == FILEEXISTS ==>
                file in old(store.bm.db.openCnt) &&
                  store.bm.db.openCnt == old(store.bm.db.openCnt)[file := old(store.bm.db.openCnt)[file] + 1]
      ensures st != OK && st != FILEEXISTS ==> store.bm.db.openCnt == old(store.bm.db.openCnt)
    {
      hide OneMore, Senseless, Consistent, Duplicates, Store.Valid, Writable, PagesKept, EmptyHeap, Durable, Storable;
      chain := [];
      ghost var v := store.view;
      KeptNow(v, {relFile, attrFile});
      st := CheckNew(relation, list);
      KeptStill(v, v, store.view, {relFile, attrFile});
      if st != OK {
        return;
      }
      ghost var v1 := store.view;
      st := Enter(relation, list);
      KeptStart(v, v1, store.view, {relFile, attrFile});
      if st != OK {
        return;
      }
      ghost var v2 := store.view;
      st, chain := CreateFile(file);
      KeptThen(v, v2, store.view, {relFile, attrFile});
    }

    /**
     Destroys a relation. Afterwards the catalogs know nothing of it. An attribute without a name cannot be removed and
     stops the removal: if it is the first one nothing has been changed, otherwise the catalogs describe no set of
     relations.
     */
    method DestroyRel(relation: Bytes, fileStatus: Status) returns (st: Status)
      requires Valid() && IsName(relation)
      modifies this, store.Repr(), store.bm.db
      ensures Usable() && OnlyCatalogs()
      ensures st == if Reserved(relation) then BADCATPARM else if relation !in old(schema) then RELNOTFOUND
                    else if NoNameless(old(schema)[relation]) then fileStatus else BADCATPARM
      ensures Reserved(relation) || relation !in old(schema) ==>
                Valid() && rels == old(rels) && attrs == old(attrs) && schema == old(schema)
      ensures !Reserved(relation) && relation in old(schema) && NoNameless(old(schema)[relation]) ==>
                && Valid() && schema == old(schema) - {relation}
                && OneMore(rels.pages, attrs.pages, old(rels.pages), old(attrs.pages), relation, old(schema)[relation])
      ensures !Reserved(relation) && relation in old(schema) && !NoNameless(old(schema)[relation]) ==>
                && rels == old(rels) && schema == old(schema) && old(schema)[relation] != []
                && if old(schema)[relation][0].name == [] then attrs == old(attrs) && Valid()
                   else Senseless(rels.pages, attrs.pages)
    {
      hide Tuples, AttrRow, Consistent, Tally, RelRow, AttrRows, NoEmptyRecords, AllEntries, Store.Valid, Stored,
           PagesKept, OthersSame, RowsRemoved, Duplicates, Writable, Reachable, OwnRows, NamesStorable;
      KeptNow(store.view, {relFile, attrFile});
      if Reserved(relation) {
        return BADCATPARM;
      }
      ghost var v := store.view;
      var rows;
      st, rows := GetRelInfo(relation);
      KeptStill(v, v, store.view, {relFile, attrFile});
      if st != OK {
        return;
      }
      KnownHere(rels.pages, attrs.pages, schema, relation);
      ghost var v1 := store.view;
      st := Drop(relation, rows);
      KeptStart(v, v1, store.view, {relFile, attrFile});
      if st == OK {
        return fileStatus;
      }
    }

    /** Removes the tuples of a relation from both catalogs. */
    method Drop(relation: Bytes, rows: seq<Bytes>) returns (st: Status)
      requires Valid() && relation in schema && GoodRelation(relation, schema[relation]) && Storable(relation)
      requires rows == AttrRows(relation, schema[relation], |schema[relation]|)
      modifies this, store.Repr(), store.bm.db
      ensures Usable() && OnlyCatalogs()
      ensures st == if NoNameless(old(schema)[relation]) then OK else BADCATPARM
      ensures st == OK ==>
                Valid() && schema == old(schema) - {relation} &&
                OneMore(rels.pages, attrs.pages, old(rels.pages), old(attrs.pages), relation, old(schema)[relation])
      ensures st != OK ==>
                && rels == old(rels) && schema == old(schema)
                && if old(schema)[relation][0].name == [] then attrs == old(attrs) && Valid()
                   else Senseless(rels.pages, attrs.pages)
    {
      hide Tuples, AttrRow, Consistent, Tally, RelRow, AttrRows, NoEmptyRecords, AllEntries, Store.Valid, Stored,
           PagesKept, OthersSame, RowsRemoved, Duplicates, OwnRows;
      ghost var v, list, done, oldRels, oldAttrs := store.view, schema[relation], 0, rels, attrs;
      EmptyHere(rels.pages, attrs.pages, schema, relation);
      KnownHere(rels.pages, attrs.pages, schema, relation);
      st, attrs, done := RemoveAttributes(store, attrFile, relation, rows, list, oldAttrs);
      ghost var v1 := store.view;
      StoredSame(v, v1, attrFile, oldRels);
      KeptOne(v, v1, attrFile, {relFile, attrFile});
      if st != OK {
        if done > 0 {
          assert |AttrRows(relation, list, |list|)[done..]| == |list| - done;
          WrongCount(rels.pages, attrs.pages, relation, list);
        }
        return;
      }
      ghost var rec;
      OnlyRow(rels.pages, relation, |list|);
      LookUp(store, rels);
      st, rels, rec := RemoveFirstTuple(store, relFile, relation, oldRels);
      StoredSame(v1, store.view, relFile, attrs);
      KeptBoth(v, v1, store.view, attrFile, relFile);
      RemovedParts(oldRels.pages, rels.pages, relation, [rec]);
      RemovedParts(oldAttrs.pages, attrs.pages, relation, rows);
      DescribedGone(oldRels.pages, oldAttrs.pages, schema, rels.pages, attrs.pages, relation);
      schema := schema - {relation};
    }

    /** Creates the heap file of a relation. */
    method CreateFile(file: int) returns (st: Status, ghost chain: seq<int>)
      requires Valid() && file >= 1 && (file in store.view.free ==> file in store.bm.db.openCnt)
      modifies store.Repr(), store.bm.db
      ensures Valid() && st == (if file in old(store.view.free) then FILEEXISTS else OK)
      ensures PagesKept(old(store.view), store.view, {}) && store.view.pins == old(store.view.pins) &&
              store.view.owed == old(store.view.owed)
      ensures st == OK ==>
                && EmptyHeap(store.view, file, chain) && Durable(store.bm.pool, store.view, file) &&
                   store.bm.db.openCnt == old(store.bm.db.openCnt)[file := 0]
      ensures st == FILEEXISTS ==>
                file in old(store.bm.db.openCnt) &&
                  store.bm.db.openCnt == old(store.bm.db.openCnt)[file := old(store.bm.db.openCnt)[file] + 1]
    {
      hide Store.Valid, Consistent, Stored, HeapAt, PagesOf, AllEntries, Durable, NoEmptyRecords, PinnedPages,
           Create.Abandoned, KeepsFrames;
      ghost var v := store.view;
      PagesFew(v.pins);
      st, chain := Create.CreateHeapFile(store, file);
      MoreStored(v, store.view, rels);
      MoreStored(v, store.view, attrs);
    }
  }

  lemma KeptOne(v: View, w: View, f: int, files: set<int>)
    requires OthersSame(v, w, f) && f in files
    ensures PagesKept(v, w, files) && w.free.Keys == v.free.Keys
  {
  }

  lemma KeptBoth(v: View, v1: View, w: View, a: int, b: int)
    requires OthersSame(v, v1, a) && OthersSame(v1, w, b)
    ensures PagesKept(v, w, {b, a}) && w.free.Keys == v.free.Keys
  {
  }

  lemma RemovedParts(pages: seq<PageImage>, pages': seq<PageImage>, r: Bytes, rows: seq<Bytes>)
    requires RowsRemoved(pages, pages', r, rows) && NoEmptyRecords(AllEntries(pages))
    ensures pages' != [] && NoEmptyRecords(AllEntries(pages')) && Tally(pages) == Tally(pages') + multiset(rows)
  {
    hide AllEntries, NoEmptyRecords, Tally, Tuples;
  }

  lemma MoreStored(v: View, w: View, x: HeapImage)
    requires Stored(v, x) && v.free.Keys <= w.free.Keys &&
             forall k :: k in v.logical ==> k in w.logical && w.logical[k] == v.logical[k]
    ensures Stored(w, x)
  {
    hide HeapAt, PagesOf;
    SamePages(v.logical, x.file, 1, x.chain, w.logical);
  }

  lemma KeptStill(v: View, v1: View, w: View, files: set<int>)
    requires PagesKept(v, v1, files) && w.logical == v1.logical
    ensures PagesKept(v, w, files)
  {
  }

  lemma KeptThen(v: View, v1: View, w: View, files: set<int>)
    requires PagesKept(v, v1, files) && PagesKept(v1, w, {})
    ensures PagesKept(v, w, files)
  {
  }

  lemma NothingStored(pages: seq<PageImage>)
    requires AllEntries(pages) == []
    ensures forall r :: Tuples(pages, r) == []
  {
  }

  lemma LookUp(s: Store, x: HeapImage)
    requires Writable(s, x)
    ensures Reachable(s, x)
  {
    hide Store.Valid, Stored;
  }

  lemma DescribedHere(rels: seq<PageImage>, attrs: seq<PageImage>, schema: Schema, r: Bytes)
    requires Consistent(rels, attrs, schema) && IsName(r)
    ensures GoodSchema(schema) && Described(rels, attrs, schema, r) &&
            (r in schema ==> GoodRelation(r, schema[r]) && |schema[r]| > 0 && Storable(r))
  {
    hide Described, NoEmptyRecords, AllEntries;
  }

  lemma EmptyHere(rels: seq<PageImage>, attrs: seq<PageImage>, schema: Schema, r: Bytes)
    requires Consistent(rels, attrs, schema) && IsName(r)
    ensures rels != [] && attrs != []
    ensures r !in schema ==> Tuples(rels, r) == [] && Tuples(attrs, r) == []
  {
    assert Described(rels, attrs, schema, r);
  }

  lemma KnownHere(rels: seq<PageImage>, attrs: seq<PageImage>, schema: Schema, r: Bytes)
    requires Consistent(rels, attrs, schema) && r in schema
    ensures GoodRelation(r, schema[r]) && Tuples(rels, r) == [RelRow(r, |schema[r]|)] &&
            Tuples(attrs, r) == AttrRows(r, schema[r], |schema[r]|)
  {
    assert Described(rels, attrs, schema, r);
  }

  /** The relation's one tuple is the first the scan finds. */
  lemma OnlyRow(rels: seq<PageImage>, r: Bytes, n: int)
    requires Storable(r) && Tuples(rels, r) == [RelRow(r, n)]
    ensures OwnRows(rels, r) && Matching(AllEntries(rels), Both(Named(r), AnyRow())) != []
    ensures RemoveFirst(Tuples(rels, r), AnyRow()) == [] && FirstOf(Tuples(rels, r), AnyRow()) == Some(RelRow(r, n))
  {
    hide RelRow, RowFor, AllEntries;
    RelRowFor(r, n);
    SomeMatch(AllEntries(rels), Named(r), AnyRow());
  }

  /** A relation tuple that counts another number of attributes than there are tuples for. */
  lemma WrongCount(rels: seq<PageImage>, attrs: seq<PageImage>, r: Bytes, list: seq<AttrInfo>)
    requires Storable(r) && |Tuples(attrs, r)| < |list| < TWO_31 && Tuples(rels, r) == [RelRow(r, |list|)]
    ensures Senseless(rels, attrs)
  {
    hide Tuples, RelRow, AttrRow;
    forall s: Schema ensures !Consistent(rels, attrs, s) {
      if Consistent(rels, attrs, s) {
        assert Described(rels, attrs, s, r);
        SameCount(r, |list|, |s[r]|);
      }
    }
  }

  lemma TalliesNew(pages: seq<PageImage>, pages': seq<PageImage>, r: Bytes, rows: seq<Bytes>)
    requires RowsAdded(pages, pages', r, rows)
    ensures Tally(pages') == Tally(pages) + multiset(rows)
  {
    hide Tally, Tuples, NoEmptyRecords, AllEntries;
  }

  lemma SameFiles(v: View, v1: View, w: View, a: int, b: int)
    requires OthersSame(v, v1, a) && OthersSame(v1, w, b)
    ensures w.free.Keys == v.free.Keys
  {
  }

  lemma SameCount(r: Bytes, m: int, n: int)
    requires Storable(r) && RelRow(r, m) == RelRow(r, n)
    ensures m % TWO_32 == n % TWO_32
  {
    assert RelRow(r, m)[32..36] == IntBytes(m) && RelRow(r, n)[32..36] == IntBytes(n);
    BytesOfWord(m % TWO_32);
    BytesOfWord(n % TWO_32);
    var a, b := IntBytes(m), IntBytes(n);
    assert a[0] == b[0] && a[1] == b[1] && a[2] == b[2] && a[3] == b[3];
  }

  /** Creating and destroying a relation leaves the same tuples in both catalogs, in whatever slots. */
  method CreateThenDestroy(c: Catalogs, relation: Bytes, list: seq<AttrInfo>, file: int, destroyed: Status)
    requires c.Valid() && IsName(relation) && !Reserved(relation) && |list| < TWO_31
    requires forall i :: 0 <= i < |list| ==> IsName(list[i].name) && list[i].name != [] && Fits32(list[i].len)
    requires CreateCheck(relation, list, relation in c.schema) == OK && !LongName(list)
    requires file >= 1 && (file in c.store.view.free ==> file in c.store.bm.db.openCnt)
    modifies c, c.store.Repr(), c.store.bm.db
    ensures c.Valid() && c.schema == old(c.schema)
    ensures Tally(c.rels.pages) == old(Tally(c.rels.pages)) && Tally(c.attrs.pages) == old(Tally(c.attrs.pages))
    ensures c.store.view.pins == old(c.store.view.pins) && c.store.view.owed == old(c.store.view.owed)
  {
    hide Consistent, Tally, Duplicates, Catalogs.Usable, OneMore, PagesKept, Durable, EmptyHeap, Senseless;
    var st;
    ghost var chain, r, a := [], c.rels.pages, c.attrs.pages;
    st, chain := c.CreateRel(relation, list, file);
    ghost var r1, a1 := c.rels.pages, c.attrs.pages;
    st := c.DestroyRel(relation, destroyed);
    assert c.schema == old(c.schema);
    Balanced(r, a, r1, a1, c.rels.pages, c.attrs.pages, relation, list);
  }

  lemma Balanced(r: seq<PageImage>, a: seq<PageImage>, r1: seq<PageImage>, a1: seq<PageImage>, r2: seq<PageImage>,
                 a2: seq<PageImage>, n: Bytes, list: seq<AttrInfo>)
    requires OneMore(r, a, r1, a1, n, list) && OneMore(r2, a2, r1, a1, n, list)
    ensures Tally(r2) == Tally(r) && Tally(a2) == Tally(a)
  {
    hide Tally, RelRow, AttrRow;
    Cancel(Tally(r2), Tally(r), multiset([RelRow(n, |list|)]));
    Cancel(Tally(a2), Tally(a), multiset(AttrRows(n, list, |list|)));
  }

  lemma Cancel(a: multiset<Bytes>, b: multiset<Bytes>, c: multiset<Bytes>)
    requires a + c == b + c
    ensures a == b
  {
    assert a == (a + c) - c && b == (b + c) - c;
  }

  lemma {:induction false} OffsetsRise(list: seq<AttrInfo>, i: nat, j: nat)
    requires i < j <= |list| && forall k :: i < k < j ==> list[k].len >= 0
    ensures Offset(list, i) + list[i].len <= Offset(list, j)
  {
    if i < j - 1 {
      OffsetsRise(list, i, j - 1);
    }
  }

  /**
   Each attribute begins where the one before it ends. No later one begins before that, so that no two overlap, if and
   only if no attribute but the first has a negative length, which createRel does not refuse.
   */
  lemma OffsetsTile(list: seq<AttrInfo>)
    ensures forall i {:trigger list[i]} :: 0 <= i < |list| ==> Offset(list, i) + list[i].len == Offset(list, i + 1)
    ensures (forall i, j :: 0 <= i < j <= |list| ==> Offset(list, i) + list[i].len <= Offset(list, j)) <==>
              forall k :: 0 < k < |list| ==> list[k].len >= 0
  {
    hide Offset;
    forall i | 0 <= i < |list| ensures Offset(list, i) + list[i].len == Offset(list, i + 1) {
      NextOffset(list, i);
    }
    if forall k :: 0 < k < |list| ==> list[k].len >= 0 {
      forall i, j | 0 <= i < j <= |list| ensures Offset(list, i) + list[i].len <= Offset(list, j) {
        OffsetsRise(list, i, j);
      }
    } else {
      var k :| 0 < k < |list| && list[k].len < 0;
      NextOffset(list, k - 1);
      assert Offset(list, k - 1) + list[k - 1].len > Offset(list, k + 1);
    }
  }
}
