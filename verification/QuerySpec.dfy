/** What deletion from a relation and the nested loops join compute, over the records of heap files in scan order. */
module QuerySpec {
  import opened Common
  import opened Compare
  import opened HeapSpec

  /** A tuple of the attribute catalog. */
  datatype AttrDesc = AttrDesc(relName: Bytes, attrName: Bytes, attrOffset: int, attrType: Datatype, attrLen: int)

  // ----- deletion

  /** The filter of a deletion. Parameters that startScan refuses leave the scan without a filter. */
  function DeleteFilter(attrName: Bytes, attr: AttrDesc, kind: Datatype, value: Bytes, op: Operator): Filter {
    if attrName == [] || !GoodScan(attr.attrOffset, attr.attrLen, kind) then NoFilter
    else Filter(attr.attrOffset, attr.attrLen, kind, value, op)
  }

  /** A deletion empties the relation if startScan refuses the condition for the attribute. */
  lemma {:induction false} MismatchDeletesAll(attrName: Bytes, attr: AttrDesc, kind: Datatype, value: Bytes,
                                              op: Operator, es: seq<Entry>)
    requires attrName == [] || attr.attrOffset < 0 || attr.attrLen < 1 || (kind != STRING && attr.attrLen != 4)
    requires NoEmptyRecords(es)
    ensures Survivors(es, Filtering(DeleteFilter(attrName, attr, kind, value, op))) == []
  {
    if es != [] {
      MismatchDeletesAll(attrName, attr, kind, value, op, es[1..]);
    }
  }

  /** The records left by the deletion loop: it gives up at an empty record, which cannot be deleted. */
  function Survivors(es: seq<Entry>, m: Bytes -> bool): seq<Entry> {
    if es == [] || es[0].bytes == [] then es
    else (if m(es[0].bytes) then [] else [es[0]]) + Survivors(es[1..], m)
  }

  function NotMatching(es: seq<Entry>, m: Bytes -> bool): seq<Entry> {
    if es == [] then [] else (if m(es[0].bytes) then [] else [es[0]]) + NotMatching(es[1..], m)
  }

  /** Without empty records exactly the matching records go. */
  lemma {:induction false} SurvivorsDoNotMatch(es: seq<Entry>, m: Bytes -> bool)
    requires NoEmptyRecords(es)
    ensures Survivors(es, m) == NotMatching(es, m)
  {
    if es != [] {
      SurvivorsDoNotMatch(es[1..], m);
    }
  }

  /** With an empty record everything from there on stays, whether it matches or not. */
  lemma {:induction false} SurvivorsBehindEmpty(es: seq<Entry>, n: nat, m: Bytes -> bool)
    requires n < |es| && es[n].bytes == [] && NoEmptyRecords(es[..n])
    ensures Survivors(es, m) == NotMatching(es[..n], m) + es[n..]
  {
    if n > 0 {
      assert es[..n][0] == es[0] && es[..n][1..] == es[1..][..n - 1] && es[1..][n - 1..] == es[n..];
      assert NoEmptyRecords(es[1..][..n - 1]);
      SurvivorsBehindEmpty(es[1..], n - 1, m);
    }
  }

  /** What is kept and what goes make up the relation. */
  lemma {:induction false} DeletedOrKept(es: seq<Entry>, m: Bytes -> bool)
    ensures multiset(es) == multiset(Matching(es, m)) + multiset(NotMatching(es, m))
  {
    if es != [] {
      DeletedOrKept(es[1..], m);
      assert es == [es[0]] + es[1..];
    }
  }

  /** The records a scan skips are all kept. */
  lemma {:induction false} SkippedSurvive(es: seq<Entry>, m: Bytes -> bool) returns (n: nat)
    ensures n <= |es| && es[n..] == Skip(es, m) && NoEmptyRecords(es[..n])
    ensures Survivors(es, m) == es[..n] + Survivors(es[n..], m)
  {
    n := 0;
    if es != [] && !Stops(es[0], m) {
      var k := SkippedSurvive(es[1..], m);
      n := k + 1;
      assert es[1..][k..] == es[n..] && es[..n] == [es[0]] + es[1..][..k];
    }
  }

  // ----- what a deletion should do

  /** The number that bytes stand for. */
  function Number(t: Datatype, b: Bytes, i: nat): Float {
    if t == INTEGER then Finite(Int32(b, i) as real) else Float32(b, i)
  }

  /** How the attribute of a record compares with the literal of a condition, each read in its own type. */
  function LiteralOrder(attr: AttrDesc, rec: Bytes, kind: Datatype, value: Bytes): Order
    requires attr.attrOffset >= 0 && attr.attrLen >= 0
  {
    if attr.attrType == STRING && kind == STRING then TrueOrder(STRING, rec, attr.attrOffset, value, 0, attr.attrLen)
    else if attr.attrType == STRING || kind == STRING then Unordered
    else ValueOrder(Number(attr.attrType, rec, attr.attrOffset), Number(kind, value, 0))
  }

  /** The records that satisfy the condition. */
  function Wanted(attr: AttrDesc, kind: Datatype, value: Bytes, op: Operator): Bytes -> bool
    requires attr.attrOffset >= 0 && attr.attrLen >= 0
  {
    rec => LiteralOrder(attr, rec, kind, value).Satisfies(op)
  }

  /** Every record has the attribute. */
  ghost predicate Conforming(es: seq<Entry>, attr: AttrDesc) {
    forall i :: 0 <= i < |es| ==> attr.attrOffset + attr.attrLen <= |es[i].bytes|
  }

  lemma SameTypeOrder(attr: AttrDesc, rec: Bytes, value: Bytes)
    requires attr.attrOffset >= 0 && attr.attrLen >= 0
    ensures LiteralOrder(attr, rec, attr.attrType, value) ==
            TrueOrder(attr.attrType, rec, attr.attrOffset, value, 0, attr.attrLen)
  {
    hide Float32, Int32;
  }

  lemma {:induction false} KeptMembers(es: seq<Entry>, m: Bytes -> bool, e: Entry)
    ensures e in NotMatching(es, m) <==> e in es && !m(e.bytes)
  {
    if es != [] {
      KeptMembers(es[1..], m, e);
    }
  }

  lemma {:induction false} KeptSame(es: seq<Entry>, m: Bytes -> bool, w: Bytes -> bool)
    requires forall i :: 0 <= i < |es| ==> m(es[i].bytes) == w(es[i].bytes)
    ensures NotMatching(es, m) == NotMatching(es, w)
  {
    if es != [] {
      KeptSame(es[1..], m, w);
    }
  }

  /** A deletion leaves what it should iff its filter is right on every record. */
  lemma RightIff(es: seq<Entry>, m: Bytes -> bool, w: Bytes -> bool)
    requires NoEmptyRecords(es)
    ensures Survivors(es, m) == NotMatching(es, w) <==> forall i :: 0 <= i < |es| ==> m(es[i].bytes) == w(es[i].bytes)
  {
    hide NotMatching, Survivors;
    SurvivorsDoNotMatch(es, m);
    if NotMatching(es, m) == NotMatching(es, w) {
      forall i | 0 <= i < |es| ensures m(es[i].bytes) == w(es[i].bytes) {
        KeptMembers(es, m, es[i]);
        KeptMembers(es, w, es[i]);
      }
    } else if forall i :: 0 <= i < |es| ==> m(es[i].bytes) == w(es[i].bytes) {
      KeptSame(es, m, w);
    }
  }

  /** A literal of another type than the attribute's that startScan accepts. */
  predicate OtherType(attr: AttrDesc, kind: Datatype) {
    kind != attr.attrType && (kind == STRING || attr.attrLen == 4)
  }

  /** How the attribute, read in the literal's type, stands to the literal. */
  function ReadAs(attr: AttrDesc, rec: Bytes, kind: Datatype, value: Bytes): Order
    requires attr.attrOffset >= 0 && attr.attrLen >= 0
  {
    CodeOrder(kind, rec, attr.attrOffset, value, 0, attr.attrLen)
  }

  /**
   The records decided rightly with a literal of another type. A string and a number are only unequal. Two numbers
   must stand to each other for the operator as the attribute's bytes do when they are read in the literal's type.
   */
  predicate Decides(attr: AttrDesc, rec: Bytes, kind: Datatype, value: Bytes, op: Operator)
    requires attr.attrOffset >= 0 && attr.attrLen >= 0
  {
    if attr.attrType == STRING || kind == STRING then
      if op == NE then ReadAs(attr, rec, kind, value) != Equal else !ReadAs(attr, rec, kind, value).Satisfies(op)
    else
      var x, y := Number(attr.attrType, rec, attr.attrOffset), Number(kind, value, 0);
      ReadAs(attr, rec, kind, value).Satisfies(op) <==> ValueOrder(x, y).Satisfies(op)
  }

  /**
   When a deletion deletes exactly what its condition says. With a literal of the attribute's type: iff the
   code compares every record rightly. If startScan refuses the literal: iff every record was to go. With
   another literal that it accepts: iff every record is decided rightly in the literal's type.
   */
  lemma DeleteResultIff(attrName: Bytes, attr: AttrDesc, kind: Datatype, value: Bytes, op: Operator, es: seq<Entry>)
    requires attrName != [] && attr.attrOffset >= 0 && attr.attrLen >= 1 && NoEmptyRecords(es) && Conforming(es, attr)
    ensures var right := Survivors(es, Filtering(DeleteFilter(attrName, attr, kind, value, op))) ==
            NotMatching(es, Wanted(attr, kind, value, op));
            && (kind == attr.attrType && (kind == STRING || attr.attrLen == 4) ==>
                  (right <==> forall i :: 0 <= i < |es| ==> Agrees(kind, op, es[i].bytes, attr.attrOffset, value, 0)))
            && (kind != STRING && attr.attrLen != 4 ==>
                  (right <==> forall i :: 0 <= i < |es| ==> Wanted(attr, kind, value, op)(es[i].bytes)))
            && (OtherType(attr, kind) ==>
                  (right <==> forall i :: 0 <= i < |es| ==> Decides(attr, es[i].bytes, kind, value, op)))
  {
    hide NotMatching, Survivors, LiteralOrder, Agrees, NoEmptyRecords, Decides;
    var f := DeleteFilter(attrName, attr, kind, value, op);
    RightIff(es, Filtering(f), Wanted(attr, kind, value, op));
    if f.Filter? && kind == attr.attrType {
      forall i | 0 <= i < |es|
        ensures (Filtering(f)(es[i].bytes) == Wanted(attr, kind, value, op)(es[i].bytes)) ==
                Agrees(kind, op, es[i].bytes, attr.attrOffset, value, 0)
      {
        MatchIsComparisonIff(f, es[i].bytes);
        SameTypeOrder(attr, es[i].bytes, value);
      }
    }
    if OtherType(attr, kind) {
      forall i | 0 <= i < |es|
        ensures (Filtering(f)(es[i].bytes) == Wanted(attr, kind, value, op)(es[i].bytes)) ==
                Decides(attr, es[i].bytes, kind, value, op)
      {
        OtherTypeDecides(attrName, attr, es[i].bytes, kind, value, op);
      }
    }
  }

  lemma OtherTypeDecides(attrName: Bytes, attr: AttrDesc, rec: Bytes, kind: Datatype, value: Bytes, op: Operator)
    requires attrName != [] && attr.attrOffset >= 0 && attr.attrLen >= 1 && OtherType(attr, kind)
    requires attr.attrOffset + attr.attrLen <= |rec|
    ensures Filtering(DeleteFilter(attrName, attr, kind, value, op))(rec) == Wanted(attr, kind, value, op)(rec) <==>
              Decides(attr, rec, kind, value, op)
  {
    hide CodeOrder, Number;
  }

  // ----- two conditions that go wrong

  /** An integer literal for a string attribute: the record goes although it does not equal 1. */
  lemma RefusedLiteral(rid: RID) returns (attr: AttrDesc, value: Bytes, es: seq<Entry>)
    ensures attr.attrOffset >= 0 && attr.attrLen >= 1 && attr.attrType == STRING && NoEmptyRecords(es) &&
            Conforming(es, attr)
    ensures Survivors(es, Filtering(DeleteFilter([110], attr, INTEGER, value, EQ))) == []
    ensures NotMatching(es, Wanted(attr, INTEGER, value, EQ)) == es && |es| == 1
  {
    attr, value := AttrDesc([114], [110], 0, STRING, 10), [1, 0, 0, 0];
    es := [Entry(rid, seq(10, _ => 65))];
    MismatchDeletesAll([110], attr, INTEGER, value, EQ, es);
    assert NotMatching(es[1..], Wanted(attr, INTEGER, value, EQ)) == [];
  }

  lemma {:induction false} Power2Sum(a: nat, b: nat)
    ensures Power2(a + b) == Power2(a) * Power2(b)
  {
    if a > 0 {
      Power2Sum(a - 1, b);
    }
  }

  /** The bytes of 1.0, and those of the integer 1 read as a float. */
  lemma FloatsOfOne()
    ensures Float32([0, 0, 128, 63], 0) == Finite(1.0)
    ensures Float32([1, 0, 0, 0], 0).Finite? && Float32([1, 0, 0, 0], 0) != Finite(1.0)
  {
    hide Power2;
    assert Word([0, 0, 128, 63], 0) == 0x3F80_0000 && Word([1, 0, 0, 0], 0) == 1;
    Power2Sum(126, 23);
    Power2Of23();
    assert Power2(149) >= Power2(23);
  }

  lemma Power2Of23()
    ensures Power2(23) == 8388608.0
  {
    assert Power2(5) == 32.0;
    Power2Sum(5, 5);
    Power2Sum(10, 10);
    assert Power2(3) == 8.0;
    Power2Sum(20, 3);
  }

  /** An integer literal for a float attribute: startScan accepts it, 1.0 stays and another number goes. */
  lemma WrongLiteral(one: RID, other: RID) returns (attr: AttrDesc, value: Bytes, es: seq<Entry>)
    ensures attr.attrOffset >= 0 && attr.attrLen == 4 && attr.attrType == FLOAT && NoEmptyRecords(es) &&
            Conforming(es, attr) && |es| == 2
    ensures Survivors(es, Filtering(DeleteFilter([120], attr, INTEGER, value, EQ))) == [es[0]]
    ensures NotMatching(es, Wanted(attr, INTEGER, value, EQ)) == [es[1]]
  {
    hide Float32, Int32, Wrap32;
    attr, value := AttrDesc([114], [120], 0, FLOAT, 4), [1, 0, 0, 0];
    es := [Entry(one, [0, 0, 128, 63]), Entry(other, [1, 0, 0, 0])];
    FloatsOfOne();
    var m, w := Filtering(DeleteFilter([120], attr, INTEGER, value, EQ)), Wanted(attr, INTEGER, value, EQ);
    IntegersOfOne();
    assert !m(es[0].bytes) && m(es[1].bytes) && w(es[0].bytes) && !w(es[1].bytes);
    assert es[1..] == [es[1]] && es[1..][1..] == [];
    assert NotMatching([es[1]], w) == [es[1]] && Survivors([es[1]], m) == [];
  }

  lemma IntegersOfOne()
    ensures Int32([0, 0, 128, 63], 0) == 0x3F80_0000 && Int32([1, 0, 0, 0], 0) == 1
  {
    assert Word([0, 0, 128, 63], 0) == 0x3F80_0000 && Word([1, 0, 0, 0], 0) == 1;
  }

  // ----- equality with a literal of another type

  /** Every record that has the attribute is decided rightly. */
  ghost predicate AlwaysDecides(attr: AttrDesc, kind: Datatype, value: Bytes, op: Operator)
    requires attr.attrOffset >= 0 && attr.attrLen >= 0
  {
    forall rec: Bytes :: attr.attrOffset + attr.attrLen <= |rec| ==> Decides(attr, rec, kind, value, op)
  }

  /** A record whose attribute has these bytes. */
  function RecordWith(attr: AttrDesc, bytes: Bytes): Bytes
    requires attr.attrOffset >= 0 && attr.attrLen >= 1
  {
    seq(attr.attrOffset, _ => 0) + Field(bytes, 0, attr.attrLen)
  }

  lemma RecordWithAt(attr: AttrDesc, bytes: Bytes, i: nat)
    requires attr.attrOffset >= 0 && i < attr.attrLen
    ensures At(RecordWith(attr, bytes), attr.attrOffset + i) == At(bytes, i)
  {
    FieldAt(bytes, 0, attr.attrLen, i);
  }

  lemma RecordWithWord(attr: AttrDesc, bytes: Bytes)
    requires attr.attrOffset >= 0 && attr.attrLen >= 4
    ensures Word(RecordWith(attr, bytes), attr.attrOffset) == Word(bytes, 0)
  {
    hide RecordWith, At;
    RecordWithAt(attr, bytes, 0);
    RecordWithAt(attr, bytes, 1);
    RecordWithAt(attr, bytes, 2);
    RecordWithAt(attr, bytes, 3);
  }

  lemma {:induction false} RecordWithString(attr: AttrDesc, bytes: Bytes, i: nat)
    requires attr.attrOffset >= 0 && attr.attrLen >= 1 && i <= attr.attrLen
    ensures Strncmp(RecordWith(attr, bytes), attr.attrOffset + i, bytes, i, attr.attrLen - i) == 0
    decreases attr.attrLen - i
  {
    hide RecordWith, At;
    if i < attr.attrLen {
      RecordWithAt(attr, bytes, i);
      RecordWithString(attr, bytes, i + 1);
    }
  }

  /** The literal's bytes are a number that is the same as an integer and as a float. */
  predicate SameEitherWay(value: Bytes) {
    Float32(value, 0) == Finite(Int32(value, 0) as real)
  }

  /** Two ways to write zero as a float. */
  lemma NegativeZero()
    ensures Word([0, 0, 0, 128], 0) == TWO_31 && Float32([0, 0, 0, 128], 0) == Finite(0.0) &&
            Int32([0, 0, 0, 128], 0) == -TWO_31
  {
    hide Power2;
    assert Word([0, 0, 0, 128], 0) == TWO_31;
    assert FloatOf(TWO_31) == Finite(-0.0 / Power2(149));
  }

  lemma SameWord(a: Bytes, i: nat, b: Bytes, j: nat)
    ensures Int32(a, i) == Int32(b, j) <==> Word(a, i) == Word(b, j)
    ensures OrderOf(Wrap32(Int32(a, i) - Int32(b, j))) == Equal <==> Word(a, i) == Word(b, j)
  {
    hide Word;
  }

  /** Between numbers: the attribute of a record equals the literal in one type iff it does in the other. */
  lemma NumbersDecide(attr: AttrDesc, rec: Bytes, kind: Datatype, value: Bytes, op: Operator)
    requires attr.attrOffset >= 0 && attr.attrLen >= 1 && OtherType(attr, kind) && attr.attrType != STRING &&
             kind != STRING
    requires op == EQ || op == NE
    ensures SameEitherWay(value) && Int32(value, 0) != 0 ==> Decides(attr, rec, kind, value, op)
    ensures kind == FLOAT && !Float32(value, 0).Finite? ==> Decides(attr, rec, kind, value, op)
  {
    hide Word, FloatOf, Wrap32;
    SameWord(rec, attr.attrOffset, value, 0);
    if SameEitherWay(value) && Int32(value, 0) != 0 && Float32(rec, attr.attrOffset) == Float32(value, 0) {
      FloatsDiffer(Word(rec, attr.attrOffset), Word(value, 0));
    }
  }

  /** The record with the literal's own bytes, and zero written in the other way, are decided wrongly otherwise. */
  lemma NumbersMisread(attr: AttrDesc, kind: Datatype, value: Bytes, op: Operator) returns (rec: Bytes)
    requires attr.attrOffset >= 0 && attr.attrLen >= 1 && OtherType(attr, kind) && attr.attrType != STRING &&
             kind != STRING
    requires op == EQ || op == NE
    requires !(SameEitherWay(value) && Int32(value, 0) != 0) && !(kind == FLOAT && !Float32(value, 0).Finite?)
    ensures attr.attrOffset + attr.attrLen <= |rec| && !Decides(attr, rec, kind, value, op)
  {
    hide Word, FloatOf, Wrap32, Power2;
    rec := RecordWith(attr, if SameEitherWay(value) then [0, 0, 0, 128] else value);
    RecordWithWord(attr, if SameEitherWay(value) then [0, 0, 0, 128] else value);
    SameWord(rec, attr.attrOffset, value, 0);
    NegativeZero();
    ZeroWrapped();
  }

  lemma ZeroWrapped()
    ensures Wrap32(0) == 0 && Wrap32(-TWO_31) != 0
  {
  }

  /**
   Equality with a literal of another type is decided rightly on all records iff the literal is a float that is not
   a number one can equal, or the attribute is a number, too, and the literal's bytes are the same nonzero number in
   either type. With a string on one side it never is.
   */
  lemma OtherTypeEqualityIff(attr: AttrDesc, kind: Datatype, value: Bytes, op: Operator)
    requires attr.attrOffset >= 0 && attr.attrLen >= 1 && OtherType(attr, kind) && (op == EQ || op == NE)
    ensures AlwaysDecides(attr, kind, value, op) <==>
              || (kind == FLOAT && !Float32(value, 0).Finite?)
              || (kind != STRING && attr.attrType != STRING && SameEitherWay(value) && Int32(value, 0) != 0)
  {
    hide Word, FloatOf, Wrap32, Decides, Strncmp;
    if attr.attrType != STRING && kind != STRING {
      if (kind == FLOAT && !Float32(value, 0).Finite?) || (SameEitherWay(value) && Int32(value, 0) != 0) {
        forall rec: Bytes ensures Decides(attr, rec, kind, value, op) {
          NumbersDecide(attr, rec, kind, value, op);
        }
      } else {
        var rec := NumbersMisread(attr, kind, value, op);
      }
    } else if kind == FLOAT && !Float32(value, 0).Finite? {
      forall rec: Bytes ensures Decides(attr, rec, kind, value, op) {
        NothingEquals(attr, rec, value, op);
      }
    } else {
      StringMisread(attr, kind, value, op);
    }
  }

  lemma NothingEquals(attr: AttrDesc, rec: Bytes, value: Bytes, op: Operator)
    requires attr.attrOffset >= 0 && attr.attrLen >= 1 && attr.attrType == STRING && (op == EQ || op == NE)
    requires !Float32(value, 0).Finite?
    ensures Decides(attr, rec, FLOAT, value, op)
  {
    hide Float32;
  }

  lemma StringMisread(attr: AttrDesc, kind: Datatype, value: Bytes, op: Operator)
    requires attr.attrOffset >= 0 && attr.attrLen >= 1 && OtherType(attr, kind) &&
             (attr.attrType == STRING || kind == STRING)
    requires (op == EQ || op == NE) && (kind == FLOAT ==> Float32(value, 0).Finite?)
    ensures var rec := RecordWith(attr, value);
            attr.attrOffset + attr.attrLen <= |rec| && !Decides(attr, rec, kind, value, op)
  {
    hide Word, FloatOf, Wrap32, Strncmp;
    ZeroWrapped();
    if kind == STRING {
      RecordWithString(attr, value, 0);
    } else {
      RecordWithWord(attr, value);
    }
  }

  // ----- the nested loops join

  /** What a loop that runs while scanNext succeeds gets to see. */
  function Delivered(es: seq<Entry>, m: Bytes -> bool): seq<Entry>
    decreases |es|
  {
    SkipShorter(es, m);
    var r := Skip(es, m);
    if r == [] || r[0].bytes == [] then [] else [r[0]] + Delivered(r[1..], m)
  }

  lemma {:induction false} DeliveredIsMatching(es: seq<Entry>, m: Bytes -> bool)
    requires NoEmptyRecords(es)
    ensures Delivered(es, m) == Matching(es, m)
    decreases |es|
  {
    if es != [] {
      SkipShorter(es, m);
      DeliveredIsMatching(es[1..], m);
      if !Stops(es[0], m) {
        assert Skip(es, m) == Skip(es[1..], m);
      }
    }
  }

  /** The join of two relations on `attr1 op attr2`, projected to `proj`. */
  datatype Join = Join(proj: seq<AttrDesc>, attr1: AttrDesc, op: Operator, attr2: AttrDesc)

  /** startScan accepts the attribute of the inner relation. */
  predicate GoodInner(j: Join) {
    GoodScan(j.attr2.attrOffset, j.attr2.attrLen, j.attr2.attrType)
  }

  function Column(j: Join, a: AttrDesc, outer: Bytes, inner: Bytes): Bytes {
    Field(if a.relName == j.attr1.relName then outer else inner, a.attrOffset, a.attrLen)
  }

  /** The output record: the projected attributes one behind the other. */
  function Row(j: Join, n: nat, outer: Bytes, inner: Bytes): Bytes
    requires n <= |j.proj|
  {
    if n == 0 then [] else Row(j, n - 1, outer, inner) + Column(j, j.proj[n - 1], outer, inner)
  }

  function RowLength(proj: seq<AttrDesc>): int {
    if proj == [] then 0
    else RowLength(proj[..|proj| - 1]) +
         (if proj[|proj| - 1].attrLen < 0 then 0 else proj[|proj| - 1].attrLen)
  }

  lemma {:induction false} RowHasLength(j: Join, n: nat, outer: Bytes, inner: Bytes)
    requires n <= |j.proj|
    ensures |Row(j, n, outer, inner)| == RowLength(j.proj[..n])
  {
    if n > 0 {
      RowHasLength(j, n - 1, outer, inner);
      assert j.proj[..n][..n - 1] == j.proj[..n - 1];
    }
  }

  /** The filter with which the inner relation is scanned for one outer record. */
  function InnerFilter(j: Join, outer: Bytes): Filter
    requires GoodInner(j)
  {
    Filter(j.attr2.attrOffset, j.attr2.attrLen, j.attr2.attrType, Field(outer, j.attr1.attrOffset, j.attr2.attrLen),
           Mirrored(j.op))
  }

  function Rows(j: Join, outer: Bytes, inners: seq<Entry>): seq<Bytes> {
    if inners == [] then [] else [Row(j, |j.proj|, outer, inners[0].bytes)] + Rows(j, outer, inners[1..])
  }

  /** The output of the nested loops. */
  function JoinRows(j: Join, outers: seq<Entry>, inner: seq<Entry>): seq<Bytes>
    requires GoodInner(j)
  {
    if outers == [] then []
    else Rows(j, outers[0].bytes, Delivered(inner, Filtering(InnerFilter(j, outers[0].bytes)))) +
         JoinRows(j, outers[1..], inner)
  }

  // ----- what a join should compute

  /** The join condition on a pair of records, compared in the order it was written. */
  predicate Joins(j: Join, outer: Bytes, inner: Bytes)
    requires j.attr1.attrOffset >= 0 && j.attr2.attrOffset >= 0 && j.attr2.attrLen >= 0
  {
    TrueOrder(j.attr2.attrType, outer, j.attr1.attrOffset, inner, j.attr2.attrOffset, j.attr2.attrLen).Satisfies(j.op)
  }

  predicate GoodJoin(j: Join) {
    j.attr1.attrOffset >= 0 && GoodInner(j)
  }

  /** The inner record has the join attribute, and the code compares it correctly with the outer value. */
  predicate Joinable(j: Join, outer: Bytes, inner: Bytes)
    requires GoodJoin(j)
  {
    && j.attr2.attrOffset + j.attr2.attrLen <= |inner|
    && Agrees(j.attr2.attrType, Mirrored(j.op), inner, j.attr2.attrOffset, outer, j.attr1.attrOffset)
  }

  /**
   The inner scan with the mirrored operator decides a pair correctly iff the code compares the two values correctly.
   */
  lemma InnerFilterJoinsIff(j: Join, outer: Bytes, inner: Bytes)
    requires GoodJoin(j) && j.attr2.attrOffset + j.attr2.attrLen <= |inner|
    ensures (MatchRec(InnerFilter(j, outer), inner) <==> Joins(j, outer, inner)) <==> Joinable(j, outer, inner)
  {
    hide TrueOrder, Comparable, MatchRec;
    var t, i, o, n := j.attr2.attrType, j.attr2.attrOffset, j.attr1.attrOffset, j.attr2.attrLen;
    FieldCompares(t, inner, i, outer, o, n);
    MatchIsComparisonIff(InnerFilter(j, outer), inner);
    TrueOrderFlips(t, outer, o, inner, i, n);
    MirroredSatisfies(TrueOrder(t, outer, o, inner, i, n), j.op);
  }

  /** All pairs that join, outer record by outer record. */
  function Pairs(j: Join, outer: Bytes, inner: seq<Entry>): seq<Bytes>
    requires GoodJoin(j)
  {
    if inner == [] then []
    else (if Joins(j, outer, inner[0].bytes) then [Row(j, |j.proj|, outer, inner[0].bytes)] else []) +
         Pairs(j, outer, inner[1..])
  }

  function AllPairs(j: Join, outers: seq<Entry>, inner: seq<Entry>): seq<Bytes>
    requires GoodJoin(j)
  {
    if outers == [] then [] else Pairs(j, outers[0].bytes, inner) + AllPairs(j, outers[1..], inner)
  }

  lemma {:induction false} RowsArePairs(j: Join, outer: Bytes, inner: seq<Entry>)
    requires GoodJoin(j) && forall i :: 0 <= i < |inner| ==> Joinable(j, outer, inner[i].bytes)
    ensures Rows(j, outer, Matching(inner, Filtering(InnerFilter(j, outer)))) == Pairs(j, outer, inner)
  {
    if inner != [] {
      InnerFilterJoinsIff(j, outer, inner[0].bytes);
      RowsArePairs(j, outer, inner[1..]);
      var m := Filtering(InnerFilter(j, outer));
      var rest := Matching(inner[1..], m);
      if m(inner[0].bytes) {
        assert ([inner[0]] + rest)[1..] == rest;
        assert Rows(j, outer, [inner[0]] + rest) == [Row(j, |j.proj|, outer, inner[0].bytes)] + Rows(j, outer, rest);
      } else {
        assert Matching(inner, m) == rest;
      }
    }
  }

  /** The nested loops compute the join. */
  lemma {:induction false} NestedLoopsJoin(j: Join, outers: seq<Entry>, inner: seq<Entry>)
    requires GoodJoin(j) && NoEmptyRecords(inner)
    requires forall o, i :: 0 <= o < |outers| && 0 <= i < |inner| ==> Joinable(j, outers[o].bytes, inner[i].bytes)
    ensures JoinRows(j, outers, inner) == AllPairs(j, outers, inner)
  {
    if outers != [] {
      DeliveredIsMatching(inner, Filtering(InnerFilter(j, outers[0].bytes)));
      RowsArePairs(j, outers[0].bytes, inner);
      NestedLoopsJoin(j, outers[1..], inner);
    }
  }
}
