/** QU_NL_Join: the attributes are looked up in the catalog, then the relations are joined. */
module QuJoin {
  import opened Common
  import opened Compare
  import opened PageSpec
  import opened BufRefine
  import opened BufRuns
  import opened HeapSpec
  import opened Chain
  import opened Storage
  import opened Session
  import opened QuerySpec
  import opened CatalogSpec
  import opened CatalogScan
  import opened Catalog
  import opened Delete
  import opened NestedLoops
  import Query

  /** An attribute as the caller names it, with the code of a type and the length the caller gives it. */
  datatype AttrRef = AttrRef(relName: Bytes, attrName: Bytes, attrType: int, attrLen: int)

  /** The outcome of looking up an attribute. */
  function StatusOf(schema: Schema, a: AttrRef): Status {
    if a.relName == [] || a.attrName == [] then BADCATPARM
    else if AttrIndex(schema, a.relName, a.attrName) < 0 then ATTRNOTFOUND
    else OK
  }

  function Resolve(schema: Schema, a: AttrRef): AttrDesc
    requires StatusOf(schema, a) == OK
  {
    Declared(a.relName, schema[a.relName], AttrIndex(schema, a.relName, a.attrName))
  }

  /** The first failure, or OK. */
  function StatusAll(schema: Schema, l: seq<AttrRef>): (st: Status)
    ensures st == OK <==> forall i :: 0 <= i < |l| ==> StatusOf(schema, l[i]) == OK
  {
    if l == [] then OK else if StatusOf(schema, l[0]) != OK then StatusOf(schema, l[0]) else StatusAll(schema, l[1..])
  }

  function ResolveAll(schema: Schema, l: seq<AttrRef>): seq<AttrDesc>
    requires StatusAll(schema, l) == OK
  {
    seq(|l|, i requires 0 <= i < |l| => Resolve(schema, l[i]))
  }

  /** Looks up one attribute. */
  method LookUpOne(c: Catalogs, a: AttrRef) returns (st: Status, d: AttrDesc)
    requires c.Valid() && IsName(a.relName)
    modifies c.store.Repr(), c.store.bm.db
    ensures c.Valid() && Untouched(c.store)
    ensures st == StatusOf(c.schema, a)
    ensures st == OK ==> d == Resolve(c.schema, a)
  {
    hide Tuples, Writable, Consistent, Store.Valid, Reachable, FirstOf, AttrNameIs, DescFrom, Declared, AttrIndex, Over;
    d := AttrDesc([], [], 0, STRING, 0);
    if a.relName == [] || a.attrName == [] {
      return BADCATPARM, d;
    }
    LookUpFinds(c, a.relName, a.attrName);
    var row;
    LookUp(c.store, c.attrs);
    ghost var b := Base(c.store.view.pins, c.store.view.owed);
    StillReachable(c, c.store.view);
    c.store.DebtsWithinPins();
    OverItself(c.store.view);
    st, row := NamedTuple(c.store, c.attrFile, a.relName, a.attrName, c.attrs, b, []);
    NothingOver(b, c.store.view);
    c.StillUsable();
    if st == OK {
      d := DescFrom(row);
    }
  }

  /** Looks up a list of attributes, up to the first failure. */
  method LookUpAll(c: Catalogs, l: seq<AttrRef>) returns (st: Status, ds: seq<AttrDesc>)
    requires c.Valid() && forall i :: 0 <= i < |l| ==> IsName(l[i].relName)
    modifies c.store.Repr(), c.store.bm.db
    ensures c.Valid() && Untouched(c.store)
    ensures st == StatusAll(c.schema, l)
    ensures st == OK ==> ds == ResolveAll(c.schema, l)
  {
    hide Catalogs.Valid, StatusOf, Resolve;
    st, ds := OK, [];
    var i := 0;
    while i < |l|
      invariant 0 <= i <= |l| && c.Valid() && Untouched(c.store)
      invariant st == OK && StatusAll(c.schema, l) == StatusAll(c.schema, l[i..])
      invariant |ds| == i &&
                forall k :: 0 <= k < i ==> StatusOf(c.schema, l[k]) == OK && ds[k] == Resolve(c.schema, l[k])
    {
      var d;
      st, d := LookUpOne(c, l[i]);
      assert l[i..][0] == l[i] && l[i..][1..] == l[i + 1..];
      if st != OK {
        return;
      }
      ds := ds + [d];
      i := i + 1;
    }
  }

  /** The join a caller asks for, as the catalog describes its attributes. */
  function Asked(schema: Schema, proj: seq<AttrRef>, attr1: AttrRef, op: Operator, attr2: AttrRef): Join
    requires StatusAll(schema, proj + [attr1, attr2]) == OK
  {
    var l := proj + [attr1, attr2];
    assert l[..|proj|] == proj && l[|proj|] == attr1 && l[|proj| + 1] == attr2;
    var ds := ResolveAll(schema, l);
    Join(ds[..|proj|], ds[|proj|], op, ds[|proj| + 1])
  }

  /** What QU_NL_Join returns before it opens a file. */
  function Refusal(schema: Schema, proj: seq<AttrRef>, attr1: AttrRef, attr2: AttrRef): Status {
    if attr1.attrType != attr2.attrType || attr1.attrLen != attr2.attrLen then ATTRTYPEMISMATCH
    else StatusAll(schema, proj + [attr1, attr2])
  }

  /**
   The nested loops join of two relations into a third: the attributes are those of the catalog, whatever types the
   caller gives them. If one is missing nothing happens, not even to the open counts.
   */
  method QuNlJoin(c: Catalogs, proj: seq<AttrRef>, attr1: AttrRef, op: Operator, attr2: AttrRef, f1: int, f2: int,
                  f3: int,
                  ghost x1: HeapImage, ghost x2: HeapImage, ghost x3: HeapImage)
    returns (st: Status, ghost chain3': seq<int>, ghost pages3': seq<PageImage>, ghost nos: seq<int>)
    requires c.Valid() && forall a :: a in proj + [attr1, attr2] ==> IsName(a.relName)
    requires f1 != f3 && f2 != f3 && f3 != c.relFile && f3 != c.attrFile
    requires forall f :: f in {f1, f2, f3} ==> f in c.store.bm.db.openCnt && c.store.bm.db.openCnt[f] >= 0
    requires x1.file == f1 && x2.file == f2 && x3.file == f3
    requires Stored(c.store.view, x1) && Stored(c.store.view, x2) && Stored(c.store.view, x3)
    requires |c.store.view.pins| + 7 <= c.store.bm.numBufs
    requires Refusal(c.schema, proj, attr1, attr2) == OK ==>
               RowLength(Asked(c.schema, proj, attr1, op, attr2).proj) <= MAX_RECORD
    modifies c.store.Repr(), c.store.bm.db
    ensures c.Valid() && c.store.view.pins == old(c.store.view.pins) && c.store.view.owed == old(c.store.view.owed)
    ensures c.store.bm.db.openCnt == old(c.store.bm.db.openCnt) && OthersSame(old(c.store.view), c.store.view, f3)
    ensures var no := Refusal(c.schema, proj, attr1, attr2); no != OK ==> st == no && Untouched(c.store)
    ensures Refusal(c.schema, proj, attr1, attr2) == OK ==>
              var j, outers := Asked(c.schema, proj, attr1, op, attr2),
                Delivered(AllEntries(x1.pages), Filtering(NoFilter));
              && x3.pages != [] && st == (if GoodInner(j) || outers == [] then OK else BADSCANPARM)
              && Appended(c.store.view.logical, f3, chain3', x3.pages, pages3', Output(j, outers, AllEntries(x2.pages)),
                          nos)
              && (old(c.store.bm.db.openCnt)[f3] == 0 && Query.NoPins(old(c.store.view), f3) ==>
                  Durable(c.store.bm.pool, c.store.view, f3))
  {
    hide Store.Valid, Consistent, Stored, StatusAll, StatusOf, Resolve, OthersSame, Delivered, AllEntries, Filtering,
         Output, Appended, Durable, Query.NoPins, NoEmptyRecords, RowLength;
    chain3', pages3', nos := x3.chain, x3.pages, [];
    ghost var v := c.store.view;
    OthersSameNow(v, f3);
    if attr1.attrType != attr2.attrType || attr1.attrLen != attr2.attrLen {
      return ATTRTYPEMISMATCH, chain3', pages3', nos;
    }
    var ds;
    st, ds := LookUpAll(c, proj + [attr1, attr2]);
    ghost var v1 := c.store.view;
    OthersSameTwice(v, v, v1, v1, f3);
    Query.SameNoPins(v, v1, f3);
    if st != OK {
      return;
    }
    SameStored(v, v1, x1);
    SameStored(v, v1, x2);
    SameStored(v, v1, x3);
    StoredParts(v1, x1);
    StoredParts(v1, x2);
    StoredParts(v1, x3);
    var j := Join(ds[..|proj|], ds[|proj|], op, ds[|proj| + 1]);
    st, chain3', pages3', nos := JoinFiles(c.store, f1, f2, f3, j, x1.chain, x1.pages, x2.chain, x2.pages, x3.chain,
                                           x3.pages);
    OthersSameTwice(v, v1, v1, c.store.view, f3);
    StoredSame(v1, c.store.view, f3, c.rels);
    StoredSame(v1, c.store.view, f3, c.attrs);
  }

  // ----- attributes of different types

  /**
   The type check is on what the caller says. The interpreter gives every attribute type -1 and length -1, so no join is
   refused for the types of its attributes: it goes ahead iff the catalog has them.
   */
  lemma TypesUnchecked(schema: Schema, proj: seq<AttrRef>, attr1: AttrRef, attr2: AttrRef)
    requires attr1.attrType == attr2.attrType == -1 && attr1.attrLen == attr2.attrLen == -1
    ensures Refusal(schema, proj, attr1, attr2) != ATTRTYPEMISMATCH
    ensures Refusal(schema, proj, attr1, attr2) == OK <==>
              forall a :: a in proj + [attr1, attr2] ==> StatusOf(schema, a) == OK
  {
    hide StatusOf;
    var l := proj + [attr1, attr2];
    FailureOfOne(schema, l);
    assert forall a :: a in l ==> exists i :: 0 <= i < |l| && l[i] == a;
  }

  lemma {:induction false} FailureOfOne(schema: Schema, l: seq<AttrRef>)
    ensures StatusAll(schema, l) in {OK, BADCATPARM, ATTRNOTFOUND}
  {
    if l != [] {
      FailureOfOne(schema, l[1..]);
    }
  }

  /** The value of the outer record, as far as the inner scan looks at it. */
  function OuterValue(j: Join, outer: Bytes): Bytes {
    Field(outer, j.attr1.attrOffset, j.attr2.attrLen)
  }

  /** The inner scan decides a pair as it should be with each attribute read in its own type. */
  predicate PairRight(j: Join, outer: Bytes, inner: Bytes)
    requires GoodJoin(j)
  {
    MatchRec(InnerFilter(j, outer), inner) <==>
      LiteralOrder(j.attr2, inner, j.attr1.attrType, OuterValue(j, outer)).Satisfies(Mirrored(j.op))
  }

  ghost predicate OuterRight(j: Join, outer: Bytes)
    requires GoodJoin(j)
  {
    forall inner: Bytes :: j.attr2.attrOffset + j.attr2.attrLen <= |inner| ==> PairRight(j, outer, inner)
  }

  /** Some float is this integer. */
  ghost predicate HasFloat(n: int) {
    exists b: Bytes :: Float32(b, 0) == Finite(n as real)
  }

  /** Whether the inner value equals the outer one, both read in the inner type. */
  lemma PairRightIff(j: Join, outer: Bytes, inner: Bytes)
    requires GoodJoin(j) && (j.op == EQ || j.op == NE) && j.attr1.attrType != j.attr2.attrType
    requires j.attr2.attrOffset + j.attr2.attrLen <= |inner|
    ensures var value := OuterValue(j, outer);
            PairRight(j, outer, inner) <==>
              (CodeOrder(j.attr2.attrType, inner, j.attr2.attrOffset, value, 0, j.attr2.attrLen) == Equal <==>
               LiteralOrder(j.attr2, inner, j.attr1.attrType, value) == Equal)
  {
    hide CodeOrder, LiteralOrder, Field;
  }

  /**
   An equality join of attributes of different types is right for an outer record, whatever the inner one, iff its value
   is the same number in both types, or no inner value can equal it: read as the inner type it is not finite, and it is
   a string or an integer that no float equals.
   */
  lemma OtherTypeJoinIff(j: Join, outer: Bytes)
    requires GoodJoin(j) && (j.op == EQ || j.op == NE) && j.attr1.attrType != j.attr2.attrType
    ensures var value, t1, t2 := OuterValue(j, outer), j.attr1.attrType, j.attr2.attrType;
            OuterRight(j, outer) <==>
              || (t1 != STRING && t2 != STRING && SameEitherWay(value))
              || (t2 == FLOAT && !Float32(value, 0).Finite? && (t1 == STRING || !HasFloat(Int32(value, 0))))
  {
    hide PairRight, Word, FloatOf, Wrap32, Strncmp, OuterValue;
    var value, t1, t2 := OuterValue(j, outer), j.attr1.attrType, j.attr2.attrType;
    if (t1 != STRING && t2 != STRING && SameEitherWay(value)) ||
        (t2 == FLOAT && !Float32(value, 0).Finite? && (t1 == STRING || !HasFloat(Int32(value, 0)))) {
      forall inner: Bytes | j.attr2.attrOffset + j.attr2.attrLen <= |inner| ensures PairRight(j, outer, inner) {
        EqualEitherWay(j, outer, inner);
      }
    } else {
      var inner := Misjoined(j, outer);
    }
  }

  lemma EqualEitherWay(j: Join, outer: Bytes, inner: Bytes)
    requires GoodJoin(j) && (j.op == EQ || j.op == NE) && j.attr1.attrType != j.attr2.attrType
    requires j.attr2.attrOffset + j.attr2.attrLen <= |inner|
    requires var value, t1, t2 := OuterValue(j, outer), j.attr1.attrType, j.attr2.attrType;
             || (t1 != STRING && t2 != STRING && SameEitherWay(value))
             || (t2 == FLOAT && !Float32(value, 0).Finite? && (t1 == STRING || !HasFloat(Int32(value, 0))))
    ensures PairRight(j, outer, inner)
  {
    hide PairRight, Word, FloatOf, Wrap32, Strncmp, OuterValue, HasFloat;
    var value, i := OuterValue(j, outer), j.attr2.attrOffset;
    PairRightIff(j, outer, inner);
    SameWord(inner, i, value, 0);
    if j.attr2.attrType == FLOAT && j.attr1.attrType == INTEGER &&
        Float32(inner, i) == Finite(Int32(value, 0) as real) {
      FloatIs(inner, i, Int32(value, 0));
    }
  }

  lemma FloatIs(b: Bytes, i: nat, n: int)
    requires Float32(b, i) == Finite(n as real)
    ensures HasFloat(n)
  {
    hide FloatOf;
    var c := [At(b, i), At(b, i + 1), At(b, i + 2), At(b, i + 3)];
    assert Word(c, 0) == Word(b, i) && Float32(c, 0) == Float32(b, i);
  }

  /** The inner record with the bytes of the outer value, or with the float that equals the outer integer. */
  lemma Misjoined(j: Join, outer: Bytes) returns (inner: Bytes)
    requires GoodJoin(j) && (j.op == EQ || j.op == NE) && j.attr1.attrType != j.attr2.attrType
    requires var value, t1, t2 := OuterValue(j, outer), j.attr1.attrType, j.attr2.attrType;
             && !(t1 != STRING && t2 != STRING && SameEitherWay(value))
             && !(t2 == FLOAT && !Float32(value, 0).Finite? && (t1 == STRING || !HasFloat(Int32(value, 0))))
    ensures j.attr2.attrOffset + j.attr2.attrLen <= |inner| && !PairRight(j, outer, inner)
  {
    hide PairRight, Word, FloatOf, Wrap32, Strncmp, OuterValue;
    var value, t1, t2 := OuterValue(j, outer), j.attr1.attrType, j.attr2.attrType;
    var bytes := value;
    if t2 == FLOAT && !Float32(value, 0).Finite? {
      bytes :| Float32(bytes, 0) == Finite(Int32(value, 0) as real);
    }
    inner := RecordWith(j.attr2, bytes);
    PairRightIff(j, outer, inner);
    ghost var code := CodeOrder(t2, inner, j.attr2.attrOffset, value, 0, j.attr2.attrLen);
    if t2 == STRING {
      RecordWithString(j.attr2, bytes, 0);
      assert code == Equal;
    } else {
      RecordWithWord(j.attr2, bytes);
      SameWord(inner, j.attr2.attrOffset, value, 0);
      assert code == Equal <==> bytes == value;
    }
  }

  lemma StoredParts(v: View, x: HeapImage)
    requires Stored(v, x)
    ensures x.file in v.free && HeapAt(v.logical, x.file, 1, x.chain) && x.pages == PagesOf(v.logical, x.file, x.chain)
  {
  }
}
