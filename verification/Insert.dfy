/** Assembling a tuple from named values, and inserting it into a relation. */
module Insert {
  import opened Common
  import opened Compare
  import opened PageSpec
  import opened BufRuns
  import opened HeapSpec
  import opened Chain
  import opened Storage
  import opened CatalogSpec
  import opened Catalog
  import opened Tandem
  import Query

  /** A value of the insert statement, in the binary form of its attribute. */
  datatype Value = Value(name: Bytes, bytes: Bytes)

  /** What the inner loop copies for attribute `a`: every value of that name. */
  function Copied(a: AttrInfo, values: seq<Value>, n: nat): Bytes
    requires n <= |values|
  {
    if n == 0 then []
    else Copied(a, values, n - 1) + if values[n - 1].name == a.name then Field(values[n - 1].bytes, 0, a.len) else []
  }

  function Assembled(list: seq<AttrInfo>, values: seq<Value>, n: nat): Bytes
    requires n <= |list|
  {
    if n == 0 then [] else Assembled(list, values, n - 1) + Copied(list[n - 1], values, |values|)
  }

  /** The nested loops that fill the buffer. */
  method Assemble(list: seq<AttrInfo>, values: seq<Value>) returns (data: Bytes)
    ensures data == Assembled(list, values, |list|)
  {
    data := [];
    for i := 0 to |list|
      invariant data == Assembled(list, values, i)
    {
      ghost var before := data;
      for j := 0 to |values|
        invariant data == before + Copied(list[i], values, j)
      {
        if list[i].name == values[j].name {
          data := data + Field(values[j].bytes, 0, list[i].len);
        }
      }
    }
  }

  ghost predicate DistinctNames(values: seq<Value>) {
    forall i, j :: 0 <= i < j < |values| ==> values[i].name != values[j].name
  }

  lemma {:induction false} CopiedOnce(a: AttrInfo, values: seq<Value>, n: nat, k: nat)
    requires n <= |values| && k < |values| && DistinctNames(values) && values[k].name == a.name
    ensures Copied(a, values, n) == if k < n then Field(values[k].bytes, 0, a.len) else []
  {
    hide Field;
    if n > 0 {
      CopiedOnce(a, values, n - 1, k);
    }
  }

  /** Every attribute of the relation has a value. */
  ghost predicate Complete(list: seq<AttrInfo>, values: seq<Value>) {
    forall i :: 0 <= i < |list| ==> exists k :: 0 <= k < |values| && values[k].name == list[i].name
  }

  lemma {:induction false} AssembledLength(list: seq<AttrInfo>, values: seq<Value>, n: nat)
    requires n <= |list| && DistinctNames(values) && Complete(list, values) &&
             forall i :: 0 <= i < |list| ==> list[i].len >= 0
    ensures |Assembled(list, values, n)| == Offset(list, n)
  {
    hide Field, Copied;
    if n > 0 {
      AssembledLength(list, values, n - 1);
      var k :| 0 <= k < |values| && values[k].name == list[n - 1].name;
      CopiedOnce(list[n - 1], values, |values|, k);
    }
  }

  /**
   Whatever order the values are given in, each of them ends up at the offset the catalog has for its
   attribute, and together they fill the tuple.
   */
  lemma {:induction false} ValuePlaced(list: seq<AttrInfo>, values: seq<Value>, n: nat, i: nat, k: nat)
    requires i < n <= |list| && k < |values| && values[k].name == list[i].name
    requires DistinctNames(values) && Complete(list, values) && forall j :: 0 <= j < |list| ==> list[j].len >= 0
    ensures 0 <= Offset(list, i) && Offset(list, i) + list[i].len <= |Assembled(list, values, n)| == Offset(list, n)
    ensures Assembled(list, values, n)[Offset(list, i)..Offset(list, i) + list[i].len] ==
            Field(values[k].bytes, 0, list[i].len)
  {
    hide Field, Copied;
    AssembledLength(list, values, n);
    AssembledLength(list, values, n - 1);
    AssembledLength(list, values, i);
    var front, back := Assembled(list, values, n - 1), Copied(list[n - 1], values, |values|);
    assert Assembled(list, values, n) == front + back;
    if i == n - 1 {
      CopiedOnce(list[i], values, |values|, k);
      assert (front + back)[|front|..] == back;
    } else {
      ValuePlaced(list, values, n - 1, i, k);
      FrontSlice(front, back, Offset(list, i), Offset(list, i) + list[i].len);
    }
  }

  lemma FrontSlice(front: Bytes, back: Bytes, x: nat, y: nat)
    requires x <= y <= |front|
    ensures (front + back)[x..y] == front[x..y]
  {
  }

  /**
   A tuple assembled from `n` values is as wide as the relation's if and only if there is a value for every attribute.
   */
  lemma {:induction false} FullWidthIff(attrs: seq<AttrInfo>, n: nat)
    requires n <= |attrs| && forall i :: 0 <= i < |attrs| ==> attrs[i].len >= 1
    ensures Width(attrs[..n]) <= Width(attrs)
    ensures Width(attrs[..n]) == Width(attrs) <==> n == |attrs|
    decreases |attrs| - n
  {
    if n == |attrs| {
      assert attrs[..n] == attrs;
    } else {
      FullWidthIff(attrs, n + 1);
      assert attrs[..n + 1][..n] == attrs[..n];
      OffsetPrefix(attrs, n, n);
      OffsetPrefix(attrs, n + 1, n);
    }
  }

  lemma {:induction false} OffsetPrefix(attrs: seq<AttrInfo>, m: nat, n: nat)
    requires n <= m <= |attrs|
    ensures Offset(attrs[..m], n) == Offset(attrs, n)
  {
    if n > 0 {
      OffsetPrefix(attrs, m, n - 1);
    }
  }

  /** A permutation of the values makes no difference. */
  lemma {:induction false} OrderIrrelevant(list: seq<AttrInfo>, values: seq<Value>, values': seq<Value>, n: nat)
    requires n <= |list| && multiset(values) == multiset(values') && DistinctNames(values) && DistinctNames(values') &&
             Complete(list, values)
    ensures Assembled(list, values, n) == Assembled(list, values', n)
  {
    hide Field, Copied;
    if n > 0 {
      OrderIrrelevant(list, values, values', n - 1);
      var a := list[n - 1];
      var k :| 0 <= k < |values| && values[k].name == a.name;
      assert values[k] in multiset(values');
      assert values[k] in values';
      var k' :| 0 <= k' < |values'| && values'[k'] == values[k];
      CopiedOnce(a, values, |values|, k);
      CopiedOnce(a, values', |values'|, k');
    }
  }

  // ----- the insertion

  /** The attributes that catalog tuples describe. */
  function AttrsFrom(rows: seq<Bytes>): (list: seq<AttrInfo>)
    ensures |list| == |rows|
  {
    seq(|rows|, i requires 0 <= i < |rows| => AttrFrom(rows[i]))
  }

  lemma AttrsReadBack(relation: Bytes, list: seq<AttrInfo>)
    requires GoodRelation(relation, list)
    ensures AttrsFrom(AttrRows(relation, list, |list|)) == list
  {
    hide AttrFrom, AttrRow;
    forall i | 0 <= i < |list| ensures AttrFrom(RowAt(relation, list, i)) == list[i] {
      AttrFromRow(relation, list[i], Offset(list, i));
    }
  }

  /**
   The tuple made of the values: `buffer` is what happens to be there, and shows through where an attribute is given
   no value.
   */
  function Tuple(attrs: seq<AttrInfo>, values: seq<Value>, buffer: Bytes): Bytes {
    if Fitting(attrs, values, buffer) then
      var data := Assembled(attrs[..|values|], values, |values|);
      data + buffer[|data|..]
    else []
  }

  /** The values are no more than the attributes, and none is given twice so that the buffer would overflow. */
  predicate Fitting(attrs: seq<AttrInfo>, values: seq<Value>, buffer: Bytes) {
    |values| <= |attrs| && |Assembled(attrs[..|values|], values, |values|)| <= Width(attrs[..|values|]) == |buffer|
  }

  /**
   Inserts a tuple given as named values into a relation. Only as many of its attributes are looked at as there are
   values.
   */
  method QuInsert(c: Catalogs, relation: Bytes, f: int, values: seq<Value>, buffer: Bytes, ghost x: HeapImage)
    returns (st: Status, ghost x': HeapImage, ghost n: int)
    requires c.Valid() && IsName(relation) && Stored(c.store.view, x) && x.file == f && f in c.store.bm.db.openCnt &&
             c.store.bm.db.openCnt[f] >= 0
    requires f != c.relFile && f != c.attrFile && (relation in c.schema ==> Fitting(c.schema[relation], values, buffer))
    modifies c.store.Repr(), c.store.bm.db
    ensures c.Valid() && c.store.view.pins == old(c.store.view.pins) && c.store.view.owed == old(c.store.view.owed)
    ensures c.store.bm.db.openCnt == old(c.store.bm.db.openCnt) && OthersSame(old(c.store.view), c.store.view, f)
    ensures relation !in c.schema ==>
              st == (if relation == [] then BADCATPARM else RELNOTFOUND) &&
              c.store.view.logical == old(c.store.view.logical)
    ensures relation in c.schema ==>
              && relation != [] && x'.file == f &&
                 InsertDone(st, c.store.view.logical, f, x'.chain, x.pages, x'.pages,
                            Tuple(c.schema[relation], values, buffer), n)
              && (old(c.store.bm.db.openCnt)[f] == 0 && Query.NoPins(old(c.store.view), f) ==>
                  Durable(c.store.bm.pool, c.store.view, f))
  {
    hide Store.Valid, Stored, Durable, InsertDone, OthersSame, Consistent, Writable, Query.NoPins, AttrRows, Assembled,
         Width, RelRow, Storable;
    ghost var v := c.store.view;
    OthersSameNow(v, f);
    NoEmptyName(c.rels.pages, c.attrs.pages, c.schema);
    x', n := x, -1;
    var rec, rows;
    st, rec := c.GetInfo(relation);
    OthersSameTwice(v, v, c.store.view, c.store.view, f);
    if st != OK {
      return;
    }
    st, rows := c.GetRelInfo(relation);
    ghost var v1 := c.store.view;
    OthersSameTwice(v, v, v1, v1, f);
    AttrsReadBack(relation, c.schema[relation]);
    SameStored(v, v1, x);
    st, x', n := InsertTuple(c, f, AttrsFrom(rows), values, buffer, x);
    OthersSameTwice(v, v1, v1, c.store.view, f);
    Query.SameNoPins(v, v1, f);
  }

  lemma NoEmptyName(rels: seq<PageImage>, attrs: seq<PageImage>, schema: Schema)
    requires Consistent(rels, attrs, schema)
    ensures [] !in schema
  {
    hide NoEmptyRecords, AllEntries, Described;
  }

  /** Assembles the tuple and inserts it. */
  method InsertTuple(c: Catalogs, f: int, attrs: seq<AttrInfo>, values: seq<Value>, buffer: Bytes, ghost x: HeapImage)
    returns (st: Status, ghost x': HeapImage, ghost n: int)
    requires c.Valid() && Stored(c.store.view, x) && x.file == f && f in c.store.bm.db.openCnt &&
             c.store.bm.db.openCnt[f] >= 0
    requires f != c.relFile && f != c.attrFile && Fitting(attrs, values, buffer)
    modifies c.store.Repr(), c.store.bm.db
    ensures c.Valid() && c.store.view.pins == old(c.store.view.pins) && c.store.view.owed == old(c.store.view.owed)
    ensures c.store.bm.db.openCnt == old(c.store.bm.db.openCnt) && OthersSame(old(c.store.view), c.store.view, f)
    ensures x'.file == f && InsertDone(st, c.store.view.logical, f, x'.chain, x.pages, x'.pages,
                                       Tuple(attrs, values, buffer), n)
    ensures old(c.store.bm.db.openCnt)[f] == 0 && Query.NoPins(old(c.store.view), f) ==>
              Durable(c.store.bm.pool, c.store.view, f)
  {
    hide Store.Valid, HeapAt, PagesOf, Durable, InsertDone, Query.NoPins, OthersSame, Consistent, NoEmptyRecords,
         AllEntries, Assembled, Width;
    ghost var v, chain', pages' := c.store.view, [], [];
    var data := Assemble(attrs[..|values|], values);
    st, chain', pages', n := InsertRecordInto(c.store, f, data + buffer[|data|..], x.chain, x.pages);
    x' := HeapImage(f, chain', pages');
    StoredSame(v, c.store.view, f, c.rels);
    StoredSame(v, c.store.view, f, c.attrs);
  }
}
