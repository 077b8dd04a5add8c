/** How attribute values are compared: in scan filters and joins, and in sorting. */
module Compare {
  import opened Common

  datatype Datatype = STRING | INTEGER | FLOAT

  datatype Operator = LT | LTE | EQ | GTE | GT | NE

  /** The byte at `i`; behind the end of a value there is its terminating NUL. */
  function At(b: Bytes, i: nat): Byte {
    if i < |b| then b[i] else 0
  }

  // ----- integers

  const TWO_31 := 0x8000_0000
  const TWO_32 := 0x1_0000_0000

  /** Reduces to a 32-bit two's complement integer. */
  function Wrap32(n: int): (r: int)
    ensures -TWO_31 <= r < TWO_31 && (r - n) % TWO_32 == 0
  {
    var m := n % TWO_32;
    if m < TWO_31 then m else m - TWO_32
  }

  function Word(b: Bytes, i: nat): (r: nat)
    ensures r < TWO_32
  {
    At(b, i) as int + 0x100 * At(b, i + 1) as int + 0x1_0000 * At(b, i + 2) as int + 0x100_0000 * At(b, i + 3) as int
  }

  /** The little-endian `int` stored at `i`. */
  function Int32(b: Bytes, i: nat): int {
    Wrap32(Word(b, i))
  }

  // ----- floating point numbers

  /** What a `float` stands for. */
  datatype Float = NaN | Infinite(negative: bool) | Finite(value: real)

  function Power2(e: nat): (r: real)
    ensures r >= 1.0
  {
    if e == 0 then 1.0 else 2.0 * Power2(e - 1)
  }

  /** The IEEE 754 single stored at `i`: a sign bit, 8 bits of exponent, 23 of fraction. */
  function Float32(b: Bytes, i: nat): Float {
    FloatOf(Word(b, i))
  }

  function FloatOf(w: nat): Float {
    var s, e, m := w / TWO_31, w / 0x80_0000 % 0x100, w % 0x80_0000;
    if e == 255 then if m == 0 then Infinite(s == 1) else NaN
    else Finite((if s == 1 then -Magnitude(e, m) else Magnitude(e, m)) / Power2(149))
  }

  /** The absolute value of a finite `float` in units of 2^-149. */
  function Magnitude(e: nat, m: nat): real {
    if e == 0 then m as real else (0x80_0000 + m) as real * Power2(e - 1)
  }

  /** A larger exponent or fraction is a larger absolute value. */
  lemma {:induction false} MagnitudeRises(e: nat, m: nat, e': nat, m': nat)
    requires m < 0x80_0000 && m' < 0x80_0000 && (e < e' || (e == e' && m < m'))
    ensures Magnitude(e, m) < Magnitude(e', m')
    decreases e'
  {
    if e == e' {
      if e > 0 {
        Scaled((0x80_0000 + m) as real, (0x80_0000 + m') as real, Power2(e - 1));
      }
    } else {
      ExponentRises(e' - 1, if e == e' - 1 then m else 0x7F_FFFF, m');
      if e < e' - 1 {
        MagnitudeRises(e, m, e' - 1, 0x7F_FFFF);
      }
    }
  }

  lemma ExponentRises(e: nat, m: nat, m': nat)
    requires m < 0x80_0000
    ensures Magnitude(e, m) < Magnitude(e + 1, m')
  {
    if e > 0 {
      Scaled((0x80_0000 + m) as real, 2.0 * (0x80_0000 + m') as real, Power2(e - 1));
    }
  }

  lemma Scaled(x: real, y: real, z: real)
    requires x < y && z >= 1.0
    ensures x * z < y * z
  {
    assert (y - x) * z > 0.0;
  }

  /** Only zero is written in two ways. */
  lemma FloatsDiffer(v: nat, w: nat)
    requires v < TWO_32 && w < TWO_32 && FloatOf(v) == FloatOf(w) && FloatOf(w).Finite? && FloatOf(w).value != 0.0
    ensures v == w
  {
    hide Power2, Magnitude;
    var s, e, m := v / TWO_31, v / 0x80_0000 % 0x100, v % 0x80_0000;
    var s', e', m' := w / TWO_31, w / 0x80_0000 % 0x100, w % 0x80_0000;
    SameQuotient(if s == 1 then -Magnitude(e, m) else Magnitude(e, m), if s' == 1 then -Magnitude(e', m')
                 else Magnitude(e', m'),
                 Power2(149));
    SameMagnitude(e, m, e', m');
    FieldsOfWord(v);
    FieldsOfWord(w);
  }

  lemma SameMagnitude(e: nat, m: nat, e': nat, m': nat)
    requires m < 0x80_0000 && m' < 0x80_0000
    ensures Magnitude(e, m) >= 0.0 && Magnitude(e', m') >= 0.0
    ensures Magnitude(e, m) == Magnitude(e', m') ==> e == e' && m == m'
  {
    hide Power2, Magnitude;
    MagnitudeSign(e, m);
    MagnitudeSign(e', m');
    if e < e' || (e == e' && m < m') {
      MagnitudeRises(e, m, e', m');
    } else if e' < e || (e == e' && m' < m) {
      MagnitudeRises(e', m', e, m);
    }
  }

  /** A word is made of its sign, its exponent and its fraction. */
  lemma FieldsOfWord(w: nat)
    requires w < TWO_32
    ensures w / TWO_31 <= 1 && w == w / TWO_31 * TWO_31 + w / 0x80_0000 % 0x100 * 0x80_0000 + w % 0x80_0000
  {
  }

  lemma MagnitudeSign(e: nat, m: nat)
    ensures Magnitude(e, m) >= 0.0
  {
  }

  lemma SameQuotient(x: real, y: real, z: real)
    requires z >= 1.0 && x / z == y / z
    ensures x == y && (x / z != 0.0 ==> x != 0.0)
  {
    assert x == x / z * z && y == y / z * z;
  }

  // ----- strings

  /** Compares at most `n` bytes, stopping at a NUL that both strings have. */
  function Strncmp(a: Bytes, i: nat, b: Bytes, j: nat, n: nat): int
    decreases n
  {
    if n == 0 then 0
    else if At(a, i) != At(b, j) then At(a, i) as int - At(b, j) as int
    else if At(a, i) == 0 then 0
    else Strncmp(a, i + 1, b, j + 1, n - 1)
  }

  function Memcmp(a: Bytes, b: Bytes, n: nat): int
    requires n <= |a| && n <= |b|
  {
    if n == 0 then 0
    else if a[0] != b[0] then a[0] as int - b[0] as int
    else Memcmp(a[1..], b[1..], n - 1)
  }

  /** The string of at most `n` characters at `i`. */
  function CString(a: Bytes, i: nat, n: nat): Bytes
    decreases n
  {
    if n == 0 || At(a, i) == 0 then [] else [At(a, i)] + CString(a, i + 1, n - 1)
  }

  /** Lexicographic order. */
  predicate Before(a: Bytes, b: Bytes) {
    b != [] && (a == [] || a[0] < b[0] || (a[0] == b[0] && Before(a[1..], b[1..])))
  }

  // ----- comparing fields

  /** How one field stands to another; unordered if the difference is not a number. */
  datatype Order = Less | Equal | Greater | Unordered {
    predicate Satisfies(op: Operator) {
      match op
      case LT => Less?
      case LTE => Less? || Equal?
      case EQ => Equal?
      case GTE => Greater? || Equal?
      case GT => Greater?
      case NE => !Equal?
    }

    function Flipped(): Order {
      match this
      case Less => Greater
      case Greater => Less
      case _ => this
    }
  }

  function OrderOf(diff: int): Order {
    if diff < 0 then Less else if diff > 0 then Greater else Equal
  }

  /** The sign of a floating point difference. Infinities of one sign have no difference. */
  function FloatOrder(x: Float, y: Float): Order {
    match (x, y)
    case (NaN, _) => Unordered
    case (_, NaN) => Unordered
    case (Infinite(m), Infinite(n)) => if m == n then Unordered else if m then Less else Greater
    case (Infinite(m), Finite(_)) => if m then Less else Greater
    case (Finite(_), Infinite(n)) => if n then Greater else Less
    case (Finite(u), Finite(v)) => if u < v then Less else if u > v then Greater else Equal
  }

  /** The sign of the difference the code computes between two fields. */
  function CodeOrder(t: Datatype, a: Bytes, i: nat, b: Bytes, j: nat, n: nat): Order {
    match t
    case INTEGER => OrderOf(Wrap32(Int32(a, i) - Int32(b, j)))
    case FLOAT => FloatOrder(Float32(a, i), Float32(b, j))
    case STRING => OrderOf(Strncmp(a, i, b, j, n))
  }

  /** How the values of two fields compare. */
  function TrueOrder(t: Datatype, a: Bytes, i: nat, b: Bytes, j: nat, n: nat): Order {
    match t
    case INTEGER => OrderOf(Int32(a, i) - Int32(b, j))
    case FLOAT => ValueOrder(Float32(a, i), Float32(b, j))
    case STRING => var x, y := CString(a, i, n), CString(b, j, n);
      if x == y then Equal else if Before(x, y) then Less else Greater
  }

  /** Numeric order with the infinities at the ends. */
  function ValueOrder(x: Float, y: Float): Order {
    if x.NaN? || y.NaN? then Unordered
    else if x == y then Equal
    else if (if x.Infinite? then x.negative else if y.Infinite? then !y.negative else x.value < y.value) then Less
    else Greater
  }

  /** The inputs whose difference the code can represent. */
  predicate Comparable(t: Datatype, a: Bytes, i: nat, b: Bytes, j: nat) {
    match t
    case INTEGER => -TWO_31 <= Int32(a, i) - Int32(b, j) < TWO_31
    case FLOAT => var x, y := Float32(a, i), Float32(b, j); !(x.Infinite? && x == y)
    case STRING => true
  }

  lemma WrapOrder(n: int)
    requires -TWO_32 < n < TWO_32
    ensures OrderOf(Wrap32(n)) == OrderOf(n) <==> -TWO_31 <= n < TWO_31
  {
  }

  lemma SameFirst(c: Byte, x: Bytes, y: Bytes)
    ensures [c] + x == [c] + y <==> x == y
    ensures Before([c] + x, [c] + y) <==> Before(x, y)
  {
    assert ([c] + x)[1..] == x && ([c] + y)[1..] == y;
  }

  lemma {:induction false} StrncmpOrder(a: Bytes, i: nat, b: Bytes, j: nat, n: nat)
    ensures var x, y := CString(a, i, n), CString(b, j, n);
            OrderOf(Strncmp(a, i, b, j, n)) == if x == y then Equal else if Before(x, y) then Less else Greater
    decreases n
  {
    if n > 0 {
      var p, q := At(a, i), At(b, j);
      if p == q && p != 0 {
        StrncmpOrder(a, i + 1, b, j + 1, n - 1);
        SameFirst(p, CString(a, i + 1, n - 1), CString(b, j + 1, n - 1));
      } else if p != 0 && q != 0 {
        assert CString(a, i, n)[0] == p && CString(b, j, n)[0] == q;
      }
    }
  }

  lemma FloatOrderIff(x: Float, y: Float)
    ensures FloatOrder(x, y) == ValueOrder(x, y) <==> !(x.Infinite? && x == y)
  {
  }

  /** The code's difference has the right sign exactly if the difference can be represented. */
  lemma CodeOrderIsTrueIff(t: Datatype, a: Bytes, i: nat, b: Bytes, j: nat, n: nat)
    ensures CodeOrder(t, a, i, b, j, n) == TrueOrder(t, a, i, b, j, n) <==> Comparable(t, a, i, b, j)
  {
    match t
    case INTEGER => WrapOrder(Int32(a, i) - Int32(b, j));
    case FLOAT => FloatOrderIff(Float32(a, i), Float32(b, j));
    case STRING => StrncmpOrder(a, i, b, j, n);
  }

  /** The inputs on which the code decides `op` correctly: an overflow upsets the order but not equality. */
  predicate Agrees(t: Datatype, op: Operator, a: Bytes, i: nat, b: Bytes, j: nat) {
    Comparable(t, a, i, b, j) || (t == INTEGER && (op == EQ || op == NE)) || (t == FLOAT && (op == LT || op == GT))
  }

  lemma SatisfiesIff(t: Datatype, op: Operator, a: Bytes, i: nat, b: Bytes, j: nat, n: nat)
    ensures CodeOrder(t, a, i, b, j, n).Satisfies(op) == TrueOrder(t, a, i, b, j, n).Satisfies(op) <==>
              Agrees(t, op, a, i, b, j)
  {
    hide Float32, CString, Before, Strncmp;
    CodeOrderIsTrueIff(t, a, i, b, j, n);
  }

  lemma {:induction false} BeforeIsTotal(a: Bytes, b: Bytes)
    ensures a != b ==> Before(a, b) == !Before(b, a)
    ensures a == b ==> !Before(a, b)
  {
    if a != [] && b != [] && a[0] == b[0] {
      BeforeIsTotal(a[1..], b[1..]);
      assert a == [a[0]] + a[1..] && b == [b[0]] + b[1..];
    }
  }

  lemma TrueOrderFlips(t: Datatype, a: Bytes, i: nat, b: Bytes, j: nat, n: nat)
    ensures TrueOrder(t, b, j, a, i, n) == TrueOrder(t, a, i, b, j, n).Flipped()
  {
    BeforeIsTotal(CString(a, i, n), CString(b, j, n));
  }

  // ----- copies of fields

  /** `n` bytes from `offset` on. */
  function Field(rec: Bytes, offset: int, n: int): (r: Bytes)
    ensures |r| == if n < 0 then 0 else n
  {
    seq(if n < 0 then 0 else n, i requires i >= 0 => if offset + i >= 0 then At(rec, offset + i) else 0)
  }

  lemma FieldAt(rec: Bytes, offset: nat, n: nat, i: nat)
    requires i < n
    ensures At(Field(rec, offset, n), i) == At(rec, offset + i)
  {
  }

  lemma FieldWord(rec: Bytes, offset: nat, n: nat)
    requires n >= 4
    ensures Word(Field(rec, offset, n), 0) == Word(rec, offset)
  {
    FieldAt(rec, offset, n, 0);
    FieldAt(rec, offset, n, 1);
    FieldAt(rec, offset, n, 2);
    FieldAt(rec, offset, n, 3);
  }

  lemma {:induction false} FieldString(rec: Bytes, offset: nat, n: nat, i: nat)
    requires i <= n
    ensures CString(Field(rec, offset, n), i, n - i) == CString(rec, offset + i, n - i)
    decreases n - i
  {
    if i < n {
      FieldAt(rec, offset, n, i);
      FieldString(rec, offset, n, i + 1);
    }
  }

  /** Comparing with a copy of the field is comparing with the field. */
  lemma FieldCompares(t: Datatype, a: Bytes, i: nat, rec: Bytes, offset: nat, n: nat)
    requires t == STRING || n == 4
    ensures TrueOrder(t, a, i, Field(rec, offset, n), 0, n) == TrueOrder(t, a, i, rec, offset, n)
    ensures Comparable(t, a, i, Field(rec, offset, n), 0) == Comparable(t, a, i, rec, offset)
  {
    hide CString, Before, Wrap32, FloatOf, Word;
    if t != STRING {
      FieldWord(rec, offset, n);
    } else {
      FieldString(rec, offset, n, 0);
    }
  }

  // ----- scan filters

  /** A filter compares the field of `length` bytes at `offset` with `value`. */
  datatype Filter = NoFilter | Filter(offset: nat, length: nat, kind: Datatype, value: Bytes, op: Operator)

  predicate MatchRec(f: Filter, rec: Bytes) {
    f.NoFilter? || (f.offset + f.length - 1 < |rec| &&
                    CodeOrder(f.kind, rec, f.offset, f.value, 0, f.length).Satisfies(f.op))
  }

  function Filtering(f: Filter): Bytes -> bool {
    rec => MatchRec(f, rec)
  }

  /** The parameters startScan accepts for a filter. */
  predicate GoodScan(offset: int, length: int, kind: Datatype) {
    offset >= 0 && length >= 1 && (kind == STRING || length == 4)
  }

  /**
   A record passes the filter iff it is long enough and its field compares as the operator demands,
   for exactly those fields on which the code's comparison is right.
   */
  lemma MatchIsComparisonIff(f: Filter, rec: Bytes)
    requires f.Filter?
    ensures f.offset + f.length > |rec| ==> !MatchRec(f, rec)
    ensures f.offset + f.length <= |rec| ==>
              ((MatchRec(f, rec) <==> TrueOrder(f.kind, rec, f.offset, f.value, 0, f.length).Satisfies(f.op))
               <==> Agrees(f.kind, f.op, rec, f.offset, f.value, 0))
  {
    SatisfiesIff(f.kind, f.op, rec, f.offset, f.value, 0, f.length);
  }

  // ----- the join operator

  /** The operator with which the inner relation is scanned. */
  function Mirrored(op: Operator): Operator {
    match op
    case EQ => EQ
    case GT => LT
    case GTE => LTE
    case LT => GT
    case LTE => GTE
    case NE => NE
  }

  lemma MirroredSatisfies(o: Order, op: Operator)
    ensures o.Flipped().Satisfies(Mirrored(op)) == o.Satisfies(op)
  {
  }
}
