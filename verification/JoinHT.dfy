/** The hash table a join builds over the outer relation. */
module JoinHT {
  import opened Common
  import opened Compare
  import opened QuerySpec

  // ----- hashing

  /** A `char` as the machine extends it to an `int`. */
  function SignedChar(b: Byte): int {
    if b < 128 then b as int else b as int - 256
  }

  /** The loop over a string: it leaves out the first character and takes in the NUL. */
  function StringHash(b: Bytes, i: nat, value: int): int
    decreases |b| - i
  {
    if At(b, i) == 0 then value else StringHash(b, i + 1, Wrap32(31 * value + SignedChar(At(b, i + 1))))
  }

  function Abs(n: int): nat {
    if n < 0 then -n else n
  }

  /** The chain for the attribute that starts `b`. How a `float` is scaled to an `int` is given by `scale`. */
  function Hash(b: Bytes, kind: Datatype, size: int, scale: Float -> int): (h: int)
    requires size >= 1
    ensures 0 <= h < size
  {
    var value := match kind
      case INTEGER => Wrap32(Wrap32(Int32(b, 0) * size) * 31)
      case FLOAT => scale(Float32(b, 0))
      case STRING => StringHash(b, 0, 0);
    Abs(value) % size
  }

  // ----- equality of attributes

  function KeyLength(kind: Datatype, attrLen: int): int {
    if kind == STRING then attrLen else 4
  }

  /** The comparison lookup makes between a stored value and the probe. */
  predicate SameKey(kind: Datatype, attrLen: nat, value: Bytes, probe: Bytes) {
    match kind
    case INTEGER => Int32(value, 0) == Int32(probe, 0)
    case FLOAT => !Float32(value, 0).NaN? && Float32(value, 0) == Float32(probe, 0)
    case STRING => Strncmp(value, 0, probe, 0, attrLen) == 0
  }

  /** A string ends within the attribute. */
  predicate Terminated(kind: Datatype, attrLen: nat, b: Bytes) {
    kind == STRING ==> |CString(b, 0, attrLen)| < attrLen
  }

  lemma {:induction false} StringLength(b: Bytes, i: nat, n: nat)
    ensures |CString(b, i, n)| <= n && (|CString(b, i, n)| < n ==> At(b, i + |CString(b, i, n)|) == 0)
    decreases n
  {
    if n > 0 && At(b, i) != 0 {
      StringLength(b, i + 1, n - 1);
    }
  }

  /** Strings that end within the attribute hash alike if they are equal, whatever lies behind them. */
  lemma {:induction false} StringHashSame(a: Bytes, b: Bytes, i: nat, n: nat, value: int)
    requires CString(a, i, n) == CString(b, i, n) && |CString(a, i, n)| < n
    ensures StringHash(a, i, value) == StringHash(b, i, value)
    decreases n
  {
    if At(a, i) != 0 {
      assert CString(a, i, n)[1..] == CString(a, i + 1, n - 1) && CString(b, i, n)[1..] == CString(b, i + 1, n - 1);
      SameNext(a, b, i + 1, n - 1);
      StringHashSame(a, b, i + 1, n - 1, Wrap32(31 * value + SignedChar(At(a, i + 1))));
    }
  }

  lemma SameNext(a: Bytes, b: Bytes, i: nat, n: nat)
    requires n > 0 && CString(a, i, n) == CString(b, i, n)
    ensures At(a, i) == At(b, i)
  {
    if At(a, i) != 0 {
      assert CString(a, i, n)[0] == At(a, i);
    }
    if At(b, i) != 0 {
      assert CString(b, i, n)[0] == At(b, i);
    }
  }

  /** Equal attributes are in one chain. */
  lemma SameKeySameHash(kind: Datatype, attrLen: nat, a: Bytes, b: Bytes, size: int, scale: Float -> int)
    requires size >= 1 && Terminated(kind, attrLen, a) && SameKey(kind, attrLen, a, b)
    ensures Hash(a, kind, size, scale) == Hash(b, kind, size, scale)
  {
    if kind == STRING {
      StrncmpOrder(a, 0, b, 0, attrLen);
      StringHashSame(a, b, 0, attrLen, 0);
    }
  }

  // ----- without a terminating NUL

  /** The hash of the characters of `p` before the last one's successor is taken in. */
  function HashUpTo(p: Bytes, i: nat, value: int): int
    decreases |p| - i
  {
    if i + 1 >= |p| then value else HashUpTo(p, i + 1, Wrap32(31 * value + SignedChar(p[i + 1])))
  }

  /** A string that goes on behind the attribute: the character there is taken in. */
  lemma {:induction false} HashGoesOn(p: Bytes, c: Byte, i: nat, value: int)
    requires i < |p| && c != 0 && forall j :: 0 <= j < |p| ==> p[j] != 0
    ensures StringHash(p + [c], i, value) == Wrap32(31 * Wrap32(31 * HashUpTo(p, i, value) + SignedChar(c)))
    decreases |p| - i
  {
    var b := p + [c];
    assert At(b, i) == p[i];
    var next := Wrap32(31 * value + SignedChar(At(b, i + 1)));
    assert StringHash(b, i, value) == StringHash(b, i + 1, next);
    if i + 1 < |p| {
      HashGoesOn(p, c, i + 1, next);
    } else {
      assert StringHash(b, |p| + 1, Wrap32(31 * next)) == Wrap32(31 * next);
      assert StringHash(b, |p|, next) == StringHash(b, |p| + 1, Wrap32(31 * next + SignedChar(0)));
    }
  }

  /** Of two numbers 31 apart, also after wrap-around, one has another absolute value than `x`. */
  lemma OneDiffers(u: int, x: nat) returns (c: Byte)
    ensures 1 <= c <= 2 && Abs(Wrap32(31 * Wrap32(31 * u + SignedChar(c)))) != x
  {
    StepApart(31 * u + 1);
    c := if Abs(Wrap32(31 * Wrap32(31 * u + 1))) != x then 1 else 2;
  }

  lemma StepApart(n: int)
    ensures var d := Wrap32(31 * Wrap32(n + 1)) - Wrap32(31 * Wrap32(n)); d == 31 || d == 31 - TWO_32
  {
    hide Wrap32;
    var k1 := Turns(n);
    var k2 := Turns(n + 1);
    var k3 := Turns(31 * Wrap32(n));
    var k4 := Turns(31 * Wrap32(n + 1));
    WithinTurn(Wrap32(31 * Wrap32(n + 1)) - Wrap32(31 * Wrap32(n)), 31 * k2 + k4 - 31 * k1 - k3);
  }

  lemma WithinTurn(d: int, t: int)
    requires -TWO_32 < d < TWO_32 && d == 31 + t * TWO_32
    ensures d == 31 || d == 31 - TWO_32
  {
  }

  lemma Turns(n: int) returns (k: int)
    ensures Wrap32(n) == n + k * TWO_32
  {
    k := if n % TWO_32 < TWO_31 then -(n / TWO_32) else -(n / TWO_32) - 1;
  }

  /** An attribute that fills its whole length has no NUL there. */
  lemma {:induction false} FullLength(a: Bytes, i: nat, n: nat)
    requires |CString(a, i, n)| >= n
    ensures forall j :: i <= j < i + n ==> At(a, j) != 0
    decreases n
  {
    StringLength(a, i, n);
    if n > 0 {
      FullLength(a, i + 1, n - 1);
    }
  }

  lemma {:induction false} SamePrefix(a: Bytes, b: Bytes, i: nat, n: nat)
    requires forall j :: i <= j < i + n ==> At(a, j) == At(b, j)
    ensures Strncmp(a, i, b, i, n) == 0
    decreases n
  {
    if n > 0 && At(a, i) != 0 {
      SamePrefix(a, b, i + 1, n - 1);
    }
  }

  /** Two absolute values of `int`s that differ fall into different chains of a table of some size. */
  lemma SizeApart(x: nat, y: nat) returns (size: int)
    requires x <= TWO_31 && y <= TWO_31 && x != y
    ensures 1 <= size < TWO_31 && x % size != y % size
  {
    size := if x - y == TWO_31 - 1 || y - x == TWO_31 - 1 then 2 else TWO_31 - 1;
  }

  /** Every attribute without a terminating NUL has an equal one in another chain of some table. */
  lemma UnterminatedMisses(a: Bytes, n: nat, scale: Float -> int) returns (b: Bytes, size: int)
    requires !Terminated(STRING, n, a)
    ensures 1 <= size < TWO_31 && SameKey(STRING, n, a, b) &&
            Hash(a, STRING, size, scale) != Hash(b, STRING, size, scale)
  {
    hide StringHash, Wrap32, Strncmp;
    FullLength(a, 0, n);
    HashInRange(a, 0, 0);
    var p: Bytes;
    if n == 0 {
      p := [1];
    } else {
      assert |a| >= n by {
        assert At(a, n - 1) != 0;
      }
      p := a[..n];
      assert forall j :: 0 <= j < n ==> p[j] == At(a, j);
    }
    var c := OneDiffers(HashUpTo(p, 0, 0), Abs(StringHash(a, 0, 0)));
    b := p + [c];
    HashGoesOn(p, c, 0, 0);
    HashInRange(b, 0, 0);
    size := SizeApart(Abs(StringHash(a, 0, 0)), Abs(StringHash(b, 0, 0)));
    assert forall j :: 0 <= j < n ==> At(b, j) == At(a, j);
    SamePrefix(a, b, 0, n);
  }

  lemma {:induction false} HashInRange(b: Bytes, i: nat, value: int)
    requires -TWO_31 <= value < TWO_31
    ensures -TWO_31 <= StringHash(b, i, value) < TWO_31
    decreases |b| - i
  {
    if At(b, i) != 0 {
      HashInRange(b, i + 1, Wrap32(31 * value + SignedChar(At(b, i + 1))));
    }
  }

  /** All attributes equal to `a` are in its chain, whatever `int` the table's size is. */
  ghost predicate AlwaysFound(a: Bytes, n: nat, scale: Float -> int) {
    forall b, size :: 1 <= size < TWO_31 && SameKey(STRING, n, a, b) ==>
                        Hash(a, STRING, size, scale) == Hash(b, STRING, size, scale)
  }

  /** Lookup can rely on a string attribute exactly if the string ends within it. */
  lemma AlwaysFoundIff(a: Bytes, n: nat, scale: Float -> int)
    ensures AlwaysFound(a, n, scale) <==> Terminated(STRING, n, a)
  {
    hide Hash, SameKey, Terminated;
    if Terminated(STRING, n, a) {
      forall b, size | 1 <= size < TWO_31 && SameKey(STRING, n, a, b)
        ensures Hash(a, STRING, size, scale) == Hash(b, STRING, size, scale)
      {
        SameKeySameHash(STRING, n, a, b, size, scale);
      }
    } else {
      var b, size := UnterminatedMisses(a, n, scale);
    }
  }

  // ----- the table

  /** An inserted tuple, from its join attribute on. */
  datatype Item = Item(rid: RID, rest: Bytes)

  datatype Bucket = Bucket(value: Bytes, rid: RID)

  /** The chain of the items that hash to `h`, newest first. */
  function ChainOf(items: seq<Item>, h: int, kind: Datatype, attrLen: nat, size: int, scale: Float -> int): seq<Bucket>
    requires size >= 1
  {
    if items == [] then []
    else
      (if Hash(items[0].rest, kind, size, scale) == h
       then [Bucket(Field(items[0].rest, 0, KeyLength(kind, attrLen)), items[0].rid)] else [])
      + ChainOf(items[1..], h, kind, attrLen, size, scale)
  }

  /** The RIDs of the items equal to the probe, newest first. */
  function Equals(items: seq<Item>, kind: Datatype, attrLen: nat, probe: Bytes): seq<RID> {
    if items == [] then []
    else (if SameKey(kind, attrLen, items[0].rest, probe) then [items[0].rid] else []) +
         Equals(items[1..], kind, attrLen, probe)
  }

  function Select(chain: seq<Bucket>, kind: Datatype, attrLen: nat, probe: Bytes): seq<RID> {
    if chain == [] then []
    else (if SameKey(kind, attrLen, chain[0].value, probe) then [chain[0].rid] else []) +
         Select(chain[1..], kind, attrLen, probe)
  }

  lemma {:induction false} FieldStrncmp(rest: Bytes, probe: Bytes, n: nat, i: nat)
    requires i <= n
    ensures Strncmp(Field(rest, 0, n), i, probe, i, n - i) == Strncmp(rest, i, probe, i, n - i)
    decreases n - i
  {
    if i < n {
      FieldAt(rest, 0, n, i);
      FieldStrncmp(rest, probe, n, i + 1);
    }
  }

  /** The stored copy of an attribute compares like the attribute. */
  lemma StoredKey(kind: Datatype, attrLen: nat, rest: Bytes, probe: Bytes)
    ensures SameKey(kind, attrLen, Field(rest, 0, KeyLength(kind, attrLen)), probe) ==
            SameKey(kind, attrLen, rest, probe)
  {
    if kind == STRING {
      FieldStrncmp(rest, probe, attrLen, 0);
    } else {
      FieldWord(rest, 0, 4);
    }
  }

  /** The probe's chain holds all items equal to the probe. */
  lemma {:induction false} SelectFindsAll(items: seq<Item>, kind: Datatype, attrLen: nat, size: int,
                                          scale: Float -> int, probe: Bytes)
    requires size >= 1 && forall i :: 0 <= i < |items| ==> Terminated(kind, attrLen, items[i].rest)
    ensures Select(ChainOf(items, Hash(probe, kind, size, scale), kind, attrLen, size, scale), kind, attrLen, probe) ==
            Equals(items, kind, attrLen, probe)
  {
    hide Hash, SameKey, Terminated;
    if items != [] {
      var h := Hash(probe, kind, size, scale);
      SelectFindsAll(items[1..], kind, attrLen, size, scale, probe);
      var rest := ChainOf(items[1..], h, kind, attrLen, size, scale);
      StoredKey(kind, attrLen, items[0].rest, probe);
      if SameKey(kind, attrLen, items[0].rest, probe) {
        SameKeySameHash(kind, attrLen, items[0].rest, probe, size, scale);
      }
      if Hash(items[0].rest, kind, size, scale) == h {
        var b := Bucket(Field(items[0].rest, 0, KeyLength(kind, attrLen)), items[0].rid);
        assert ([b] + rest)[1..] == rest;
      } else {
        assert ChainOf(items, h, kind, attrLen, size, scale) == rest;
      }
    }
  }

  class JoinHashTbl {
    const size: int
    const joinAttr: AttrDesc
    const scale: Float -> int
    /** The chains, newest bucket first, and their lengths. */
    const chain: array<seq<Bucket>>
    const bucketCnt: array<int>
    /** Everything inserted, newest first. */
    ghost var items: seq<Item>

    ghost predicate Valid()
      reads this, chain, bucketCnt
    {
      && size >= 1 && chain.Length == bucketCnt.Length == size && joinAttr.attrOffset >= 0 && joinAttr.attrLen >= 0
      && forall h :: 0 <= h < size ==>
           chain[h] == ChainOf(items, h, joinAttr.attrType, joinAttr.attrLen, size, scale) && bucketCnt[h] == |chain[h]|
    }

    constructor (n: int, attr: AttrDesc, floatScale: Float -> int)
      requires n >= 1 && attr.attrOffset >= 0 && attr.attrLen >= 0
      ensures Valid() && items == [] && size == n && joinAttr == attr && scale == floatScale
      ensures fresh(chain) && fresh(bucketCnt)
    {
      size, joinAttr, scale, items := n, attr, floatScale, [];
      chain := new seq<Bucket>[n](_ => []);
      bucketCnt := new int[n](_ => 0);
    }

    /** The chain of an attribute; the string loop runs to the NUL. */
    method HashOf(attr: Bytes) returns (h: int)
      requires Valid()
      ensures h == Hash(attr, joinAttr.attrType, size, scale)
    {
      var value := 0;
      match joinAttr.attrType {
        case INTEGER => value := Wrap32(Wrap32(Int32(attr, 0) * size) * 31);
        case FLOAT => value := scale(Float32(attr, 0));
        case STRING =>
          var i := 0;
          while At(attr, i) != 0
            invariant StringHash(attr, 0, 0) == StringHash(attr, i, value)
            decreases |attr| - i
          {
            i := i + 1;
            value := Wrap32(31 * value + SignedChar(At(attr, i)));
          }
      }
      h := Abs(value) % size;
    }

    /** Puts a tuple in front of its chain. */
    method Insert(rid: RID, tuple: Bytes) returns (st: Status)
      requires Valid() && joinAttr.attrOffset <= |tuple|
      modifies this, chain, bucketCnt
      ensures Valid() && st == OK && items == [Item(rid, tuple[joinAttr.attrOffset..])] + old(items)
    {
      var attr := tuple[joinAttr.attrOffset..];
      var index := HashOf(attr);
      chain[index] := [Bucket(Field(attr, 0, KeyLength(joinAttr.attrType, joinAttr.attrLen)), rid)] + chain[index];
      bucketCnt[index] := bucketCnt[index] + 1;
      items := [Item(rid, attr)] + items;
      assert items[1..] == old(items);
      return OK;
    }

    /** The RIDs of all tuples whose attribute equals the probe, newest first; at most as many as the chain is long. */
    method Lookup(probe: Bytes) returns (st: Status, rids: seq<RID>)
      requires Valid()
      ensures st == OK && |rids| <= bucketCnt[Hash(probe, joinAttr.attrType, size, scale)]
      ensures (forall i :: 0 <= i < |items| ==> Terminated(joinAttr.attrType, joinAttr.attrLen, items[i].rest)) ==>
                rids == Equals(items, joinAttr.attrType, joinAttr.attrLen, probe)
    {
      hide Hash, SameKey, Terminated, ChainOf;
      var index := HashOf(probe);
      var buckets := chain[index];
      rids := [];
      var tmpBuc := 0;
      assert buckets[0..] == buckets;
      while tmpBuc < |buckets|
        invariant 0 <= tmpBuc <= |buckets| && |rids| <= tmpBuc
        invariant rids + Select(buckets[tmpBuc..], joinAttr.attrType, joinAttr.attrLen, probe) ==
                  Select(buckets, joinAttr.attrType, joinAttr.attrLen, probe)
      {
        assert buckets[tmpBuc..][1..] == buckets[tmpBuc + 1..];
        if SameKey(joinAttr.attrType, joinAttr.attrLen, buckets[tmpBuc].value, probe) {
          rids := rids + [buckets[tmpBuc].rid];
        }
        tmpBuc := tmpBuc + 1;
      }
      if forall i :: 0 <= i < |items| ==> Terminated(joinAttr.attrType, joinAttr.attrLen, items[i].rest) {
        SelectFindsAll(items, joinAttr.attrType, joinAttr.attrLen, size, scale, probe);
      }
      return OK, rids;
    }
  }
}
