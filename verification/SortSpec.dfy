/** Sorting by runs: the order of records, splitting into runs, and the merge of sorted runs. */
module SortSpec {
  import opened Common
  import opened Compare
  import opened HeapSpec

  /** The attribute to sort on. */
  datatype SortKey = SortKey(offset: nat, length: nat, kind: Datatype)

  // ----- comparing records

  /** The sign of the difference the code computes; strings are compared in full length. */
  function CodeCompare(key: SortKey, a: Bytes, b: Bytes): Order {
    match key.kind
    case INTEGER => OrderOf(Wrap32(Int32(a, key.offset) - Int32(b, key.offset)))
    case FLOAT => FloatOrder(Float32(a, key.offset), Float32(b, key.offset))
    case STRING => OrderOf(Memcmp(Field(a, key.offset, key.length), Field(b, key.offset, key.length), key.length))
  }

  /** How the attributes of two records compare. */
  function KeyOrder(key: SortKey, a: Bytes, b: Bytes): Order {
    match key.kind
    case INTEGER => OrderOf(Int32(a, key.offset) - Int32(b, key.offset))
    case FLOAT => ValueOrder(Float32(a, key.offset), Float32(b, key.offset))
    case STRING =>
      var x, y := Field(a, key.offset, key.length), Field(b, key.offset, key.length);
      if x == y then Equal else if Before(x, y) then Less else Greater
  }

  predicate NumberKey(key: SortKey, a: Bytes) {
    key.kind == FLOAT ==> !Float32(a, key.offset).NaN?
  }

  /** The difference of the two attributes can be represented. */
  predicate Ordered(key: SortKey, a: Bytes, b: Bytes) {
    NumberKey(key, a) && NumberKey(key, b) && Comparable(key.kind, a, key.offset, b, key.offset)
  }

  lemma {:induction false} MemcmpOrder(a: Bytes, b: Bytes, n: nat)
    requires n == |a| == |b|
    ensures OrderOf(Memcmp(a, b, n)) == if a == b then Equal else if Before(a, b) then Less else Greater
  {
    if n > 0 && a[0] == b[0] {
      MemcmpOrder(a[1..], b[1..], n - 1);
      assert a == [a[0]] + a[1..] && b == [b[0]] + b[1..];
    }
  }

  /** The code orders two records rightly exactly if their difference can be represented. */
  lemma CodeCompareIff(key: SortKey, a: Bytes, b: Bytes)
    requires NumberKey(key, a) && NumberKey(key, b)
    ensures CodeCompare(key, a, b) == KeyOrder(key, a, b) <==> Ordered(key, a, b)
  {
    match key.kind
    case INTEGER => WrapOrder(Int32(a, key.offset) - Int32(b, key.offset));
    case FLOAT => FloatOrderIff(Float32(a, key.offset), Float32(b, key.offset));
    case STRING => MemcmpOrder(Field(a, key.offset, key.length), Field(b, key.offset, key.length), key.length);
  }

  predicate Le(key: SortKey, a: Bytes, b: Bytes) {
    KeyOrder(key, a, b) != Greater
  }

  lemma {:induction false} BeforeTransitive(a: Bytes, b: Bytes, c: Bytes)
    requires Before(a, b) && Before(b, c)
    ensures Before(a, c)
  {
    if a != [] && a[0] == b[0] == c[0] {
      BeforeTransitive(a[1..], b[1..], c[1..]);
    }
  }

  lemma LeTransitive(key: SortKey, a: Bytes, b: Bytes, c: Bytes)
    requires NumberKey(key, a) && NumberKey(key, b) && NumberKey(key, c) && Le(key, a, b) && Le(key, b, c)
    ensures Le(key, a, c)
    ensures KeyOrder(key, a, b) == Less || KeyOrder(key, b, c) == Less ==> KeyOrder(key, a, c) == Less
  {
    hide Float32, Int32;
    if key.kind == STRING {
      var x, y, z := Field(a, key.offset, key.length), Field(b, key.offset, key.length),
        Field(c, key.offset, key.length);
      if x != y && y != z {
        BeforeTransitive(x, y, z);
        BeforeIsTotal(x, z);
      }
    }
  }

  lemma LeTotal(key: SortKey, a: Bytes, b: Bytes)
    requires NumberKey(key, a) && NumberKey(key, b)
    ensures KeyOrder(key, b, a) == KeyOrder(key, a, b).Flipped() && KeyOrder(key, a, b) != Unordered
  {
    hide Float32, Int32;
    BeforeIsTotal(Field(a, key.offset, key.length), Field(b, key.offset, key.length));
  }

  // ----- merging sorted runs

  type Runs = seq<seq<Bytes>>

  /** A place in the runs: a run and a record of it. */
  datatype Place = Place(run: nat, rec: nat)

  /** `c` gives for each run how many of its records have been taken. */
  predicate Cursors(rs: Runs, c: seq<nat>) {
    |c| == |rs| && forall k :: 0 <= k < |rs| ==> c[k] <= |rs[k]|
  }

  predicate Waiting(rs: Runs, c: seq<nat>, k: nat) {
    k < |rs| == |c| && c[k] < |rs[k]|
  }

  function Head(rs: Runs, c: seq<nat>, k: nat): Bytes
    requires Waiting(rs, c, k)
  {
    rs[k][c[k]]
  }

  /** Among the first `n` runs the one with the smallest next record; -1 if all of them have ended. */
  function Pick(key: SortKey, rs: Runs, c: seq<nat>, n: nat): (p: int)
    requires n <= |rs| == |c|
    ensures -1 <= p < n && (p >= 0 ==> Waiting(rs, c, p))
  {
    if n == 0 then -1
    else
      var p := Pick(key, rs, c, n - 1);
      if !Waiting(rs, c, n - 1) then p
      else if p < 0 || CodeCompare(key, Head(rs, c, p), Head(rs, c, n - 1)) == Greater then n - 1
      else p
  }

  function Left(rs: Runs, c: seq<nat>, n: nat): nat
    requires n <= |rs| && Cursors(rs, c)
  {
    if n == 0 then 0 else Left(rs, c, n - 1) + (|rs[n - 1]| - c[n - 1])
  }

  lemma {:induction false} LeftAfter(rs: Runs, c: seq<nat>, i: nat, n: nat)
    requires n <= |rs| && Cursors(rs, c) && Waiting(rs, c, i)
    ensures Cursors(rs, c[i := c[i] + 1])
    ensures Left(rs, c[i := c[i] + 1], n) == Left(rs, c, n) - if i < n then 1 else 0
  {
    if n > 0 {
      LeftAfter(rs, c, i, n - 1);
    }
  }

  /** The places in the order in which repeated calls of next() take them. */
  function Drain(key: SortKey, rs: Runs, c: seq<nat>): seq<Place>
    requires Cursors(rs, c)
    decreases Left(rs, c, |rs|)
  {
    var i := Pick(key, rs, c, |rs|);
    if i < 0 then []
    else
      LeftAfter(rs, c, i, |rs|);
      [Place(i, c[i])] + Drain(key, rs, c[i := c[i] + 1])
  }

  ghost predicate RunSorted(key: SortKey, r: seq<Bytes>) {
    forall p, q :: 0 <= p < q < |r| ==> Le(key, r[p], r[q])
  }

  /** Every run is sorted, and no two records of different runs are too far apart to be compared. */
  ghost predicate Mergeable(key: SortKey, rs: Runs) {
    && (forall k :: 0 <= k < |rs| ==> RunSorted(key, rs[k]))
    && (forall i, p :: 0 <= i < |rs| && 0 <= p < |rs[i]| ==> NumberKey(key, rs[i][p]))
    && (forall i, p, j, q :: 0 <= i < |rs| && 0 <= p < |rs[i]| && 0 <= j < |rs| && 0 <= q < |rs[j]| && i != j ==>
        Ordered(key, rs[i][p], rs[j][q]))
  }

  lemma {:induction false} PickFinds(key: SortKey, rs: Runs, c: seq<nat>, n: nat, k: nat)
    requires k < n <= |rs| == |c| && Waiting(rs, c, k)
    ensures Pick(key, rs, c, n) >= 0
  {
    if k < n - 1 {
      PickFinds(key, rs, c, n - 1, k);
    }
  }

  /** The picked record is smallest, and smaller than those of earlier runs. */
  lemma {:induction false} PickIsLeast(key: SortKey, rs: Runs, c: seq<nat>, n: nat, k: nat)
    requires Mergeable(key, rs) && k < n <= |rs| == |c| && Waiting(rs, c, k)
    ensures var p := Pick(key, rs, c, n);
            && p >= 0 && Le(key, Head(rs, c, p), Head(rs, c, k))
            && (k < p ==> KeyOrder(key, Head(rs, c, p), Head(rs, c, k)) == Less)
  {
    hide KeyOrder, CodeCompare, RunSorted, NumberKey, Comparable;
    PickFinds(key, rs, c, n, k);
    var p := Pick(key, rs, c, n - 1);
    if k < n - 1 {
      PickIsLeast(key, rs, c, n - 1, k);
    }
    if Waiting(rs, c, n - 1) && p >= 0 {
      var h, l := Head(rs, c, p), Head(rs, c, n - 1);
      CodeCompareIff(key, h, l);
      LeTotal(key, h, l);
      LeTotal(key, l, l);
      if k < n - 1 && Pick(key, rs, c, n) == n - 1 {
        LeTransitive(key, l, h, Head(rs, c, k));
      }
    } else if k == n - 1 {
      LeTotal(key, Head(rs, c, k), Head(rs, c, k));
    }
  }

  /** Exactly the records not taken yet are still to come. */
  lemma {:induction false} DrainMembers(key: SortKey, rs: Runs, c: seq<nat>, x: Place)
    requires Cursors(rs, c)
    ensures x in Drain(key, rs, c) <==> x.run < |rs| && c[x.run] <= x.rec < |rs[x.run]|
    decreases Left(rs, c, |rs|)
  {
    var i := Pick(key, rs, c, |rs|);
    if i >= 0 {
      LeftAfter(rs, c, i, |rs|);
      DrainMembers(key, rs, c[i := c[i] + 1], x);
    } else if x.run < |rs| && c[x.run] < |rs[x.run]| {
      PickFinds(key, rs, c, |rs|, x.run);
    }
  }

  predicate InRuns(rs: Runs, x: Place) {
    x.run < |rs| && x.rec < |rs[x.run]|
  }

  /** The order of the output: by attribute, then by run, then by position in the run. */
  predicate Precedes(key: SortKey, rs: Runs, x: Place, y: Place)
    requires InRuns(rs, x) && InRuns(rs, y)
  {
    var o := KeyOrder(key, rs[x.run][x.rec], rs[y.run][y.rec]);
    o == Less || (o == Equal && (x.run < y.run || (x.run == y.run && x.rec < y.rec)))
  }

  lemma SortedFrom(key: SortKey, rs: Runs, k: nat, p: nat, q: nat)
    requires Mergeable(key, rs) && k < |rs| && p <= q < |rs[k]|
    ensures Le(key, rs[k][p], rs[k][q])
  {
    assert RunSorted(key, rs[k]) && NumberKey(key, rs[k][p]) && NumberKey(key, rs[k][q]);
    LeTotal(key, rs[k][p], rs[k][q]);
  }

  lemma PickedPrecedes(key: SortKey, rs: Runs, c: seq<nat>, y: Place)
    requires Mergeable(key, rs) && Cursors(rs, c) && y.run < |rs| && c[y.run] <= y.rec < |rs[y.run]|
    ensures var i := Pick(key, rs, c, |rs|);
            i >= 0 && (y != Place(i, c[i]) ==> Precedes(key, rs, Place(i, c[i]), y))
  {
    hide KeyOrder, RunSorted;
    PickIsLeast(key, rs, c, |rs|, y.run);
    var i := Pick(key, rs, c, |rs|);
    SortedFrom(key, rs, y.run, c[y.run], y.rec);
    var a, b, d := Head(rs, c, i), Head(rs, c, y.run), rs[y.run][y.rec];
    assert NumberKey(key, a) && NumberKey(key, b) && NumberKey(key, d);
    LeTransitive(key, a, b, d);
    LeTotal(key, a, d);
  }

  /**
   The merge is sorted, and stable: equal records come in the order of their runs and of their positions
   in them. The order is strict, so no record comes twice.
   */
  lemma {:induction false} MergeIsSorted(key: SortKey, rs: Runs, c: seq<nat>, x: nat, y: nat)
    requires Mergeable(key, rs) && Cursors(rs, c) && x < y < |Drain(key, rs, c)|
    ensures var d := Drain(key, rs, c); InRuns(rs, d[x]) && InRuns(rs, d[y]) && Precedes(key, rs, d[x], d[y])
    decreases Left(rs, c, |rs|)
  {
    hide Mergeable, Precedes;
    var i := Pick(key, rs, c, |rs|);
    var d := Drain(key, rs, c);
    LeftAfter(rs, c, i, |rs|);
    var c' := c[i := c[i] + 1];
    var d' := Drain(key, rs, c');
    assert d == [Place(i, c[i])] + d';
    DrainMembers(key, rs, c', d'[y - 1]);
    if x == 0 {
      PickedPrecedes(key, rs, c, d[y]);
    } else {
      MergeIsSorted(key, rs, c', x - 1, y - 1);
    }
  }

  function RecordAt(rs: Runs, x: Place): Bytes
    requires InRuns(rs, x)
  {
    rs[x.run][x.rec]
  }

  function RecordsOf(rs: Runs, d: seq<Place>): seq<Bytes>
    requires forall i :: 0 <= i < |d| ==> InRuns(rs, d[i])
  {
    seq(|d|, i requires 0 <= i < |d| => RecordAt(rs, d[i]))
  }

  lemma DrainInRuns(key: SortKey, rs: Runs, c: seq<nat>)
    requires Cursors(rs, c)
    ensures forall i :: 0 <= i < |Drain(key, rs, c)| ==> InRuns(rs, Drain(key, rs, c)[i])
  {
    var d := Drain(key, rs, c);
    forall i | 0 <= i < |d| ensures InRuns(rs, d[i]) {
      DrainMembers(key, rs, c, d[i]);
    }
  }

  /** What the merge returns from `c` on. */
  function Output(key: SortKey, rs: Runs, c: seq<nat>): (out: seq<Bytes>)
    requires Cursors(rs, c)
  {
    DrainInRuns(key, rs, c);
    RecordsOf(rs, Drain(key, rs, c))
  }

  /** next() returns the smallest record waiting, and the rest afterwards. */
  lemma OutputStep(key: SortKey, rs: Runs, c: seq<nat>)
    requires Cursors(rs, c)
    ensures var i := Pick(key, rs, c, |rs|);
            if i < 0 then Output(key, rs, c) == []
            else
              && Cursors(rs, c[i := c[i] + 1]) && Left(rs, c[i := c[i] + 1], |rs|) < Left(rs, c, |rs|)
              && Output(key, rs, c) == [Head(rs, c, i)] + Output(key, rs, c[i := c[i] + 1])
  {
    var i := Pick(key, rs, c, |rs|);
    if i >= 0 {
      LeftAfter(rs, c, i, |rs|);
      var c' := c[i := c[i] + 1];
      DrainInRuns(key, rs, c);
      DrainInRuns(key, rs, c');
      assert Output(key, rs, c) == [Head(rs, c, i)] + Output(key, rs, c');
    }
  }

  // ----- the merge loses nothing

  /** The records not taken yet from the first `n` runs. */
  ghost function Rest(rs: Runs, c: seq<nat>, n: nat): multiset<Bytes>
    requires n <= |rs| && Cursors(rs, c)
  {
    if n == 0 then multiset{} else Rest(rs, c, n - 1) + multiset(rs[n - 1][c[n - 1]..])
  }

  lemma {:induction false} RestAfter(rs: Runs, c: seq<nat>, i: nat, n: nat)
    requires n <= |rs| && Cursors(rs, c) && Waiting(rs, c, i) && Cursors(rs, c[i := c[i] + 1])
    ensures Rest(rs, c, n) == Rest(rs, c[i := c[i] + 1], n) + if i < n then multiset{Head(rs, c, i)} else multiset{}
  {
    if n > 0 {
      RestAfter(rs, c, i, n - 1);
      if i == n - 1 {
        assert rs[i][c[i]..] == [rs[i][c[i]]] + rs[i][c[i] + 1..];
      }
    }
  }

  lemma {:induction false} NothingRests(key: SortKey, rs: Runs, c: seq<nat>, n: nat)
    requires n <= |rs| && Cursors(rs, c) && Pick(key, rs, c, n) < 0
    ensures Rest(rs, c, n) == multiset{}
  {
    if n > 0 {
      NothingRests(key, rs, c, n - 1);
      assert rs[n - 1][c[n - 1]..] == [];
    }
  }

  lemma {:induction false} MergeConserves(key: SortKey, rs: Runs, c: seq<nat>)
    requires Cursors(rs, c)
    ensures multiset(Output(key, rs, c)) == Rest(rs, c, |rs|)
    decreases Left(rs, c, |rs|)
  {
    hide Drain;
    OutputStep(key, rs, c);
    var i := Pick(key, rs, c, |rs|);
    if i < 0 {
      NothingRests(key, rs, c, |rs|);
    } else {
      var c' := c[i := c[i] + 1];
      MergeConserves(key, rs, c');
      RestAfter(rs, c, i, |rs|);
    }
  }

  // ----- splitting into runs

  /** The source cut into pieces of `m` records, the last of which may be shorter. */
  function Chunks(recs: seq<Bytes>, m: int): (cs: Runs)
    requires m >= 1
    ensures forall k :: 0 <= k < |cs| ==> 1 <= |cs[k]| <= m && (k < |cs| - 1 ==> |cs[k]| == m)
    decreases |recs|
  {
    if recs == [] then [] else if |recs| <= m then [recs] else [recs[..m]] + Chunks(recs[m..], m)
  }

  lemma QuotientIs(a: int, m: int, q: int, r: int)
    requires 0 <= r < m && a == q * m + r
    ensures a / m == q
  {
    var d := a / m - q;
    assert a == a / m * m + a % m;
    assert d * m == r - a % m;
    Multiples(d, m);
  }

  lemma Multiples(d: int, m: int)
    requires m >= 1
    ensures d >= 1 ==> d * m >= m
    ensures d <= -1 ==> d * m <= -m
  {
  }

  /** There are as many pieces as `m` goes into the number of records, rounded up. */
  lemma {:induction false} ChunkCount(recs: seq<Bytes>, m: int)
    requires m >= 1
    ensures |Chunks(recs, m)| == (|recs| + m - 1) / m
    decreases |recs|
  {
    var n := |recs|;
    if n == 0 {
      QuotientIs(m - 1, m, 0, m - 1);
    } else if n <= m {
      QuotientIs(n + m - 1, m, 1, n - 1);
    } else {
      ChunkCount(recs[m..], m);
      QuotientIs(n + m - 1, m, (n - 1) / m + 1, (n - 1) % m);
    }
  }

  /** Any two of the records can be compared. */
  ghost predicate AllOrdered(key: SortKey, recs: seq<Bytes>) {
    && (forall i :: 0 <= i < |recs| ==> NumberKey(key, recs[i]))
    && (forall i, j :: 0 <= i < |recs| && 0 <= j < |recs| && i != j ==> Ordered(key, recs[i], recs[j]))
  }

  /** A run made of a piece of the source: sorted if the attributes can be compared. */
  ghost predicate SortedCopy(key: SortKey, chunk: seq<Bytes>, run: seq<Bytes>) {
    multiset(run) == multiset(chunk) && (AllOrdered(key, chunk) ==> RunSorted(key, run))
  }

  /** The runs are sorted copies of the pieces. */
  ghost predicate Generated(key: SortKey, cs: Runs, rs: Runs) {
    |rs| == |cs| && forall k :: 0 <= k < |cs| ==> SortedCopy(key, cs[k], rs[k])
  }

  ghost function All(rs: Runs, n: nat): multiset<Bytes>
    requires n <= |rs|
  {
    if n == 0 then multiset{} else All(rs, n - 1) + multiset(rs[n - 1])
  }

  lemma {:induction false} AllHead(rs: Runs, n: nat)
    requires 1 <= n <= |rs|
    ensures All(rs, n) == multiset(rs[0]) + All(rs[1..], n - 1)
  {
    if n > 1 {
      AllHead(rs, n - 1);
    }
  }

  lemma {:induction false} ChunksCover(recs: seq<Bytes>, m: int)
    requires m >= 1
    ensures All(Chunks(recs, m), |Chunks(recs, m)|) == multiset(recs)
    decreases |recs|
  {
    var cs := Chunks(recs, m);
    if |recs| > m {
      ChunksCover(recs[m..], m);
      assert cs[1..] == Chunks(recs[m..], m);
      AllHead(cs, |cs|);
      assert recs == recs[..m] + recs[m..];
    } else if recs != [] {
      AllHead(cs, 1);
    }
  }

  lemma {:induction false} SameAll(key: SortKey, cs: Runs, rs: Runs, n: nat)
    requires Generated(key, cs, rs) && n <= |rs|
    ensures All(rs, n) == All(cs, n)
  {
    if n > 0 {
      SameAll(key, cs, rs, n - 1);
      assert SortedCopy(key, cs[n - 1], rs[n - 1]);
    }
  }

  function Zeros(n: nat): seq<nat> {
    seq(n, _ => 0)
  }

  lemma {:induction false} RestOfAll(rs: Runs, n: nat)
    requires n <= |rs|
    ensures Cursors(rs, Zeros(|rs|)) && Rest(rs, Zeros(|rs|), n) == All(rs, n)
  {
    if n > 0 {
      RestOfAll(rs, n - 1);
      assert rs[n - 1][0..] == rs[n - 1];
    }
  }

  /** Where record `p` of piece `k` is in the source. */
  function SourcePlace(recs: seq<Bytes>, m: int, k: nat, p: nat): (x: nat)
    requires m >= 1 && k < |Chunks(recs, m)| && p < |Chunks(recs, m)[k]|
    ensures x < |recs| && recs[x] == Chunks(recs, m)[k][p] && (if k > 0 then x >= m else x == p)
    decreases |recs|
  {
    if k == 0 then p else m + SourcePlace(recs[m..], m, k - 1, p)
  }

  lemma PlaceBehind(recs: seq<Bytes>, m: int, k: nat, p: nat)
    requires m >= 1 && 0 < k < |Chunks(recs, m)| && p < |Chunks(recs, m)[k]|
    ensures |recs| > m && k - 1 < |Chunks(recs[m..], m)| && p < |Chunks(recs[m..], m)[k - 1]|
    ensures SourcePlace(recs, m, k, p) == m + SourcePlace(recs[m..], m, k - 1, p)
  {
  }

  /** Different pieces are at different places. */
  lemma {:induction false} PlacesDiffer(recs: seq<Bytes>, m: int, k: nat, p: nat, l: nat, q: nat)
    requires m >= 1 && k < |Chunks(recs, m)| && p < |Chunks(recs, m)[k]| && l < |Chunks(recs, m)| &&
             q < |Chunks(recs, m)[l]|
    requires k != l || p != q
    ensures SourcePlace(recs, m, k, p) != SourcePlace(recs, m, l, q)
    decreases |recs|
  {
    hide Chunks, SourcePlace;
    if k > 0 && l > 0 {
      PlaceBehind(recs, m, k, p);
      PlaceBehind(recs, m, l, q);
      PlacesDiffer(recs[m..], m, k - 1, p, l - 1, q);
    }
  }

  lemma PiecesOrdered(key: SortKey, recs: seq<Bytes>, m: int, k: nat, p: nat, l: nat, q: nat)
    requires m >= 1 && AllOrdered(key, recs)
    requires k < |Chunks(recs, m)| && p < |Chunks(recs, m)[k]| && l < |Chunks(recs, m)| && q < |Chunks(recs, m)[l]|
    ensures NumberKey(key, Chunks(recs, m)[k][p])
    ensures k != l || p != q ==> Ordered(key, Chunks(recs, m)[k][p], Chunks(recs, m)[l][q])
  {
    hide Ordered, NumberKey, Chunks;
    var x, y := SourcePlace(recs, m, k, p), SourcePlace(recs, m, l, q);
    if k != l || p != q {
      PlacesDiffer(recs, m, k, p, l, q);
    }
  }

  lemma PieceOrdered(key: SortKey, recs: seq<Bytes>, m: int, k: nat)
    requires m >= 1 && AllOrdered(key, recs) && k < |Chunks(recs, m)|
    ensures AllOrdered(key, Chunks(recs, m)[k])
  {
    hide Ordered, NumberKey, Chunks;
    var c := Chunks(recs, m)[k];
    forall i | 0 <= i < |c| ensures NumberKey(key, c[i]) {
      PiecesOrdered(key, recs, m, k, i, k, i);
    }
    forall i, j | 0 <= i < |c| && 0 <= j < |c| && i != j ensures Ordered(key, c[i], c[j]) {
      PiecesOrdered(key, recs, m, k, i, k, j);
    }
  }

  lemma PlaceIn(chunk: seq<Bytes>, run: seq<Bytes>, p: nat) returns (x: nat)
    requires multiset(run) == multiset(chunk) && p < |run|
    ensures x < |chunk| && chunk[x] == run[p]
  {
    assert run[p] in multiset(run);
    assert run[p] in chunk;
    x :| 0 <= x < |chunk| && chunk[x] == run[p];
  }

  lemma RunsMergeable(key: SortKey, recs: seq<Bytes>, m: int, rs: Runs)
    requires m >= 1 && AllOrdered(key, recs) && Generated(key, Chunks(recs, m), rs)
    ensures Mergeable(key, rs)
  {
    hide Ordered, NumberKey, RunSorted, AllOrdered, Chunks;
    var cs := Chunks(recs, m);
    forall k | 0 <= k < |rs| ensures RunSorted(key, rs[k]) {
      PieceOrdered(key, recs, m, k);
      assert SortedCopy(key, cs[k], rs[k]);
    }
    forall i, p | 0 <= i < |rs| && 0 <= p < |rs[i]| ensures NumberKey(key, rs[i][p]) {
      assert SortedCopy(key, cs[i], rs[i]);
      var x := PlaceIn(cs[i], rs[i], p);
      PiecesOrdered(key, recs, m, i, x, i, x);
    }
    forall i, p, j, q | 0 <= i < |rs| && 0 <= p < |rs[i]| && 0 <= j < |rs| && 0 <= q < |rs[j]| && i != j
      ensures Ordered(key, rs[i][p], rs[j][q]) {
      assert SortedCopy(key, cs[i], rs[i]) && SortedCopy(key, cs[j], rs[j]);
      var x := PlaceIn(cs[i], rs[i], p);
      var y := PlaceIn(cs[j], rs[j], q);
      PiecesOrdered(key, recs, m, i, x, j, y);
    }
  }

  /** Whatever qsort makes of the pieces, the output is a permutation of the source. */
  lemma SortConserves(key: SortKey, recs: seq<Bytes>, maxItems: int, rs: Runs)
    requires maxItems >= 1 && Generated(key, Chunks(recs, maxItems), rs)
    ensures Cursors(rs, Zeros(|rs|)) && multiset(Output(key, rs, Zeros(|rs|))) == multiset(recs)
  {
    hide Output;
    var cs, c := Chunks(recs, maxItems), Zeros(|rs|);
    ChunksCover(recs, maxItems);
    SameAll(key, cs, rs, |rs|);
    RestOfAll(rs, |rs|);
    MergeConserves(key, rs, c);
  }

  /** The external sort: whatever the run size, the output is a sorted permutation of the source. */
  lemma ExternalSort(key: SortKey, recs: seq<Bytes>, maxItems: int, rs: Runs)
    requires maxItems >= 1 && AllOrdered(key, recs) && Generated(key, Chunks(recs, maxItems), rs)
    ensures Cursors(rs, Zeros(|rs|))
    ensures var out := Output(key, rs, Zeros(|rs|)); multiset(out) == multiset(recs) && RunSorted(key, out)
  {
    var c := Zeros(|rs|);
    SortConserves(key, recs, maxItems, rs);
    RunsMergeable(key, recs, maxItems, rs);
    var out, d := Output(key, rs, c), Drain(key, rs, c);
    forall x, y | 0 <= x < y < |out| ensures Le(key, out[x], out[y]) {
      MergeIsSorted(key, rs, c, x, y);
    }
  }

  // ----- when the sort is right

  function Copies(a: Bytes, m: nat): (r: seq<Bytes>)
    ensures |r| == m && forall i :: 0 <= i < m ==> r[i] == a
  {
    seq(m, _ => a)
  }

  /** Every source made of these records comes out sorted. */
  ghost predicate SortsAll(key: SortKey, vals: set<Bytes>, m: int)
    requires m >= 1
  {
    forall recs: seq<Bytes>, rs: Runs ::
      (forall i :: 0 <= i < |recs| ==> recs[i] in vals) && Generated(key, Chunks(recs, m), rs) ==>
        Cursors(rs, Zeros(|rs|)) && RunSorted(key, Output(key, rs, Zeros(|rs|)))
  }

  /** The first record of a merge of two runs of equal records. */
  lemma FirstOfTwo(key: SortKey, a: Bytes, b: Bytes, m: int)
    requires m >= 1
    ensures var rs := [Copies(a, m), Copies(b, m)];
            && Cursors(rs, Zeros(2)) && Output(key, rs, Zeros(2)) != []
            && Output(key, rs, Zeros(2))[0] == if CodeCompare(key, a, b) == Greater then b else a
  {
    hide CodeCompare, Output, Drain;
    var rs, c := [Copies(a, m), Copies(b, m)], Zeros(2);
    assert Waiting(rs, c, 0) && Waiting(rs, c, 1) && Head(rs, c, 0) == a && Head(rs, c, 1) == b;
    assert Pick(key, rs, c, 0) == -1;
    assert Pick(key, rs, c, 1) == 0;
    OutputStep(key, rs, c);
  }

  /** The merge loses neither of them. */
  lemma BothOfTwo(key: SortKey, a: Bytes, b: Bytes, m: int)
    requires m >= 1
    ensures var rs := [Copies(a, m), Copies(b, m)];
            Cursors(rs, Zeros(2)) && a in Output(key, rs, Zeros(2)) && b in Output(key, rs, Zeros(2))
  {
    hide Output, Drain;
    var rs, c := [Copies(a, m), Copies(b, m)], Zeros(2);
    MergeConserves(key, rs, c);
    RestOfAll(rs, 2);
    assert All(rs, 1) == All(rs, 0) + multiset(rs[0]);
    assert rs[0][0] == a && rs[1][0] == b;
    assert a in multiset(rs[0]) && b in multiset(rs[1]);
    assert a in multiset(Output(key, rs, c)) && b in multiset(Output(key, rs, c));
  }

  lemma TwoChunks(a: Bytes, b: Bytes, m: int)
    requires m >= 1
    ensures Chunks(Copies(a, m) + Copies(b, m), m) == [Copies(a, m), Copies(b, m)]
  {
    var recs := Copies(a, m) + Copies(b, m);
    assert recs[..m] == Copies(a, m) && recs[m..] == Copies(b, m);
  }

  lemma CopiesSorted(key: SortKey, a: Bytes, m: nat)
    requires key.kind != FLOAT
    ensures SortedCopy(key, Copies(a, m), Copies(a, m))
  {
    hide Word, Field, Before;
  }

  /** A comparison of integers that goes wrong puts the greater record first. */
  lemma WrongOrder(key: SortKey, a: Bytes, b: Bytes)
    requires key.kind != FLOAT && !Ordered(key, a, b)
    ensures if CodeCompare(key, a, b) == Greater then !Le(key, b, a) else !Le(key, a, b)
  {
    hide Word;
    WrapOrder(Int32(a, key.offset) - Int32(b, key.offset));
  }

  lemma WronglySorted(key: SortKey, a: Bytes, b: Bytes, m: int)
    requires m >= 1 && key.kind != FLOAT && !Ordered(key, a, b)
    ensures var rs := [Copies(a, m), Copies(b, m)];
            && Generated(key, Chunks(Copies(a, m) + Copies(b, m), m), rs)
            && Cursors(rs, Zeros(2)) && !RunSorted(key, Output(key, rs, Zeros(2)))
  {
    hide Output, CodeCompare, KeyOrder, Ordered, SortedCopy, Chunks, Le;
    TwoChunks(a, b, m);
    CopiesSorted(key, a, m);
    CopiesSorted(key, b, m);
    FirstOfTwo(key, a, b, m);
    BothOfTwo(key, a, b, m);
    WrongOrder(key, a, b);
    var out := Output(key, [Copies(a, m), Copies(b, m)], Zeros(2));
    var other := if CodeCompare(key, a, b) == Greater then a else b;
    var i :| 0 <= i < |out| && out[i] == other;
    Reflexive(key, a);
    assert !Le(key, out[0], out[i]);
  }

  lemma Reflexive(key: SortKey, a: Bytes)
    requires key.kind != FLOAT
    ensures Le(key, a, a)
  {
    hide Word, Field, Before;
  }

  /** One run is not changed by the merge. */
  lemma {:induction false} OneRun(key: SortKey, r: seq<Bytes>, c: nat)
    requires c <= |r|
    ensures Cursors([r], [c]) && Output(key, [r], [c]) == r[c..]
    decreases |r| - c
  {
    hide Output, Drain;
    var rs := [r];
    assert Pick(key, rs, [c], 0) == -1;
    assert Pick(key, rs, [c], 1) == if c < |r| then 0 else -1;
    OutputStep(key, rs, [c]);
    if c < |r| {
      OneRun(key, r, c + 1);
      assert [c][0 := c + 1] == [c + 1];
      assert r[c..] == [r[c]] + r[c + 1..];
    }
  }

  /** Two equal infinities leave qsort without a consistent comparison, and it may put another number between them. */
  lemma InfinitiesApart(key: SortKey, a: Bytes, e: Bytes, m: int)
    requires m >= 3 && NumberKey(key, a) && NumberKey(key, e) && !Ordered(key, a, a) && KeyOrder(key, a, e) != Equal
    ensures var rs := [[a, e, a]];
            && Generated(key, Chunks([a, a, e], m), rs)
            && Cursors(rs, Zeros(1)) && !RunSorted(key, Output(key, rs, Zeros(1)))
  {
    hide Output, Ordered, NumberKey, KeyOrder;
    var recs, run := [a, a, e], [a, e, a];
    assert Chunks(recs, m) == [recs];
    assert !AllOrdered(key, recs) by {
      assert recs[0] == a && recs[1] == a;
    }
    assert multiset(recs) == multiset(run);
    assert Zeros(1) == [0];
    OneRun(key, run, 0);
    LeTotal(key, a, e);
    assert run[0] == a && run[1] == e && run[2] == a;
  }

  ghost predicate AllComparable(key: SortKey, vals: set<Bytes>) {
    forall a, b :: a in vals && b in vals ==> Ordered(key, a, b)
  }

  ghost predicate AllEqual(key: SortKey, vals: set<Bytes>) {
    forall a, b :: a in vals && b in vals ==> KeyOrder(key, a, b) == Equal
  }

  lemma ComparableSorts(key: SortKey, vals: set<Bytes>, m: int)
    requires m >= 1 && AllComparable(key, vals)
    ensures SortsAll(key, vals, m)
  {
    hide Output, Ordered, RunSorted, Generated, Chunks, NumberKey;
    forall recs: seq<Bytes>, rs: Runs | (forall i :: 0 <= i < |recs| ==> recs[i] in vals) &&
      Generated(key, Chunks(recs, m), rs)
      ensures Cursors(rs, Zeros(|rs|)) && RunSorted(key, Output(key, rs, Zeros(|rs|)))
    {
      forall i | 0 <= i < |recs| ensures NumberKey(key, recs[i]) {
        OrderedNumbers(key, recs[i], recs[i]);
      }
      ExternalSort(key, recs, m, rs);
    }
  }

  lemma OrderedNumbers(key: SortKey, a: Bytes, b: Bytes)
    requires Ordered(key, a, b)
    ensures NumberKey(key, a) && NumberKey(key, b)
  {
  }

  lemma EqualSorts(key: SortKey, vals: set<Bytes>, m: int)
    requires m >= 1 && AllEqual(key, vals)
    ensures SortsAll(key, vals, m)
  {
    hide Output, KeyOrder, Generated, Chunks;
    forall recs: seq<Bytes>, rs: Runs | (forall i :: 0 <= i < |recs| ==> recs[i] in vals) &&
      Generated(key, Chunks(recs, m), rs)
      ensures Cursors(rs, Zeros(|rs|)) && RunSorted(key, Output(key, rs, Zeros(|rs|)))
    {
      SortConserves(key, recs, m, rs);
      var out := Output(key, rs, Zeros(|rs|));
      forall i | 0 <= i < |out| ensures out[i] in vals {
        var x := PlaceIn(recs, out, i);
      }
    }
  }

  /**
   Sources made of given records come out sorted, whatever the run size, if every two of the records can be compared
   or all have equal attributes. For integers and strings, and for floats in runs of at least three, only then.
   */
  lemma SortsAllIff(key: SortKey, vals: set<Bytes>, m: int)
    requires m >= 1 && forall a :: a in vals ==> NumberKey(key, a)
    ensures AllComparable(key, vals) || AllEqual(key, vals) ==> SortsAll(key, vals, m)
    ensures key.kind != FLOAT || m >= 3 ==>
              (SortsAll(key, vals, m) <==> AllComparable(key, vals) || AllEqual(key, vals))
  {
    hide Output, Ordered, RunSorted, Generated, Chunks, NumberKey, KeyOrder;
    if AllComparable(key, vals) {
      ComparableSorts(key, vals, m);
    } else if AllEqual(key, vals) {
      EqualSorts(key, vals, m);
    } else if key.kind != FLOAT {
      var a, b :| a in vals && b in vals && !Ordered(key, a, b);
      WronglySorted(key, a, b, m);
      assert |[Copies(a, m), Copies(b, m)]| == 2;
      assert !SortsAll(key, vals, m);
    } else if m >= 3 {
      var a, b :| a in vals && b in vals && !Ordered(key, a, b);
      var c, d :| c in vals && d in vals && KeyOrder(key, c, d) != Equal;
      FloatsNotOrdered(key, a, b, c, d);
      var e := if KeyOrder(key, a, c) != Equal then c else d;
      InfinitiesApart(key, a, e, m);
      assert |[[a, e, a]]| == 1;
      assert !SortsAll(key, vals, m);
    }
  }

  lemma FloatsNotOrdered(key: SortKey, a: Bytes, b: Bytes, c: Bytes, d: Bytes)
    requires key.kind == FLOAT && NumberKey(key, a) && NumberKey(key, b) && NumberKey(key, c) && NumberKey(key, d)
    requires !Ordered(key, a, b) && KeyOrder(key, c, d) != Equal
    ensures !Ordered(key, a, a) && (KeyOrder(key, a, c) != Equal || KeyOrder(key, a, d) != Equal)
  {
    hide Float32;
  }

  // ----- the sort buffer

  /** An element of the sort buffer: a copy of the attribute, and where its record is. */
  datatype SortRec = SortRec(field: Bytes, rid: RID)

  function FieldsOf(b: seq<SortRec>): seq<Bytes> {
    seq(|b|, i requires 0 <= i < |b| => b[i].field)
  }

  /** What qsort guarantees if the comparison function is consistent. */
  ghost predicate SortedBuffer(key: SortKey, b: seq<SortRec>, q: seq<SortRec>) {
    multiset(q) == multiset(b) && (AllOrdered(key, FieldsOf(b)) ==> RunSorted(key, FieldsOf(q)))
  }

  /** The attribute of a record, copied on its own. */
  function Alone(key: SortKey): SortKey {
    SortKey(0, key.length, key.kind)
  }

  function KeyField(key: SortKey, rec: Bytes): Bytes {
    Field(rec, key.offset, key.length)
  }

  lemma FieldAgain(rec: Bytes, offset: nat, n: nat)
    ensures Field(Field(rec, offset, n), 0, n) == Field(rec, offset, n)
  {
    forall i | 0 <= i < n ensures Field(Field(rec, offset, n), 0, n)[i] == Field(rec, offset, n)[i] {
      FieldAt(rec, offset, n, i);
    }
  }

  /** Copies of the attributes compare as the records do. */
  lemma AloneCompares(key: SortKey, a: Bytes, b: Bytes)
    requires key.kind == STRING || key.length == 4
    ensures Ordered(Alone(key), KeyField(key, a), KeyField(key, b)) == Ordered(key, a, b)
    ensures Le(Alone(key), KeyField(key, a), KeyField(key, b)) == Le(key, a, b)
    ensures NumberKey(Alone(key), KeyField(key, a)) == NumberKey(key, a)
  {
    hide Field, Word, Before, FloatOf, Wrap32;
    if key.kind == STRING {
      FieldAgain(a, key.offset, key.length);
      FieldAgain(b, key.offset, key.length);
    } else {
      FieldWord(a, key.offset, key.length);
      FieldWord(b, key.offset, key.length);
    }
  }

  /** The buffer holds attribute and RID of each of the records. */
  ghost predicate Buffers(key: SortKey, es: seq<Entry>, b: seq<SortRec>) {
    |b| == |es| && forall i :: 0 <= i < |b| ==> b[i] == SortRec(KeyField(key, es[i].bytes), es[i].rid)
  }

  /** The records that RIDs stand for. */
  function Records(all: map<RID, Bytes>, b: seq<SortRec>): seq<Bytes> {
    seq(|b|, i requires 0 <= i < |b| => if b[i].rid in all then all[b[i].rid] else [])
  }

  lemma RecordsConcat(all: map<RID, Bytes>, a: seq<SortRec>, b: seq<SortRec>)
    ensures Records(all, a + b) == Records(all, a) + Records(all, b)
  {
  }

  lemma Cancel(x: multiset<SortRec>, a: multiset<SortRec>, b: multiset<SortRec>)
    requires x + a == x + b
    ensures a == b
  {
    forall y ensures a[y] == b[y] {
      assert (x + a)[y] == x[y] + a[y] && (x + b)[y] == x[y] + b[y];
    }
  }

  lemma TakeOut(x: SortRec, b: seq<SortRec>, q: seq<SortRec>) returns (front: seq<SortRec>, back: seq<SortRec>)
    requires multiset([x] + b) == multiset(q)
    ensures q == front + ([x] + back) && multiset(b) == multiset(front + back)
  {
    assert x in multiset([x] + b);
    var i :| 0 <= i < |q| && q[i] == x;
    front, back := q[..i], q[i + 1..];
    assert q == front + ([x] + back);
    assert multiset(q) == multiset{x} + multiset(front + back);
    Cancel(multiset{x}, multiset(b), multiset(front + back));
  }

  lemma {:induction false} RecordsPermuted(all: map<RID, Bytes>, b: seq<SortRec>, q: seq<SortRec>)
    requires multiset(b) == multiset(q)
    ensures multiset(Records(all, b)) == multiset(Records(all, q))
    decreases |b|
  {
    hide Records;
    if b == [] {
      assert |q| == |multiset(q)| == 0;
    } else {
      var x := b[0];
      assert b == [x] + b[1..];
      var front, back := TakeOut(x, b[1..], q);
      RecordsPermuted(all, b[1..], front + back);
      RecordsConcat(all, [x], b[1..]);
      RecordsConcat(all, front, [x] + back);
      RecordsConcat(all, [x], back);
      RecordsConcat(all, front, back);
    }
  }

  /** The map gives every RID among the entries its record. */
  ghost predicate Finds(all: map<RID, Bytes>, es: seq<Entry>) {
    forall i :: 0 <= i < |es| ==> es[i].rid in all && all[es[i].rid] == es[i].bytes
  }

  lemma FieldBehind(key: SortKey, all: map<RID, Bytes>, es: seq<Entry>, b: seq<SortRec>, q: seq<SortRec>, i: nat)
    requires Finds(all, es) && Buffers(key, es, b) && multiset(q) == multiset(b) && i < |q|
    ensures q[i].field == KeyField(key, Records(all, q)[i])
  {
    hide KeyField;
    assert q[i] in multiset(q);
    assert q[i] in b;
  }

  /** Records fetched in the order of the sorted buffer are a sorted copy of the records that were buffered. */
  lemma BufferSorted(key: SortKey, all: map<RID, Bytes>, es: seq<Entry>, b: seq<SortRec>, q: seq<SortRec>)
    requires (key.kind == STRING || key.length == 4) && Finds(all, es) && Buffers(key, es, b) &&
             SortedBuffer(Alone(key), b, q)
    ensures SortedCopy(key, BytesOf(es), Records(all, q))
  {
    hide KeyField, Le, Ordered, NumberKey, Finds, Alone;
    var recs, run := BytesOf(es), Records(all, q);
    InOrder(all, key, es, b);
    RecordsPermuted(all, b, q);
    if AllOrdered(key, recs) {
      forall i, j | 0 <= i < |b| && 0 <= j < |b|
        ensures NumberKey(Alone(key), b[i].field) && (i != j ==> Ordered(Alone(key), b[i].field, b[j].field)) {
        FieldBehind(key, all, es, b, b, i);
        FieldBehind(key, all, es, b, b, j);
        AloneCompares(key, recs[i], recs[j]);
      }
      forall i, j | 0 <= i < j < |run| ensures Le(key, run[i], run[j]) {
        FieldBehind(key, all, es, b, q, i);
        FieldBehind(key, all, es, b, q, j);
        AloneCompares(key, run[i], run[j]);
        assert Le(Alone(key), FieldsOf(q)[i], FieldsOf(q)[j]);
      }
    }
  }

  lemma InOrder(all: map<RID, Bytes>, key: SortKey, es: seq<Entry>, b: seq<SortRec>)
    requires Finds(all, es) && Buffers(key, es, b)
    ensures Records(all, b) == BytesOf(es)
  {
    hide KeyField, BytesOf;
    BytesOfEach(es);
  }

  lemma BytesOfEach(es: seq<Entry>)
    ensures |BytesOf(es)| == |es| && forall i :: 0 <= i < |es| ==> BytesOf(es)[i] == es[i].bytes
  {
    if es != [] {
      forall i | 0 <= i < |es| ensures |BytesOf(es)| == |es| && BytesOf(es)[i] == es[i].bytes {
        BytesOfAt(es, i);
      }
      BytesOfAt(es, 0);
    }
  }

  lemma {:induction false} BytesOfAt(es: seq<Entry>, i: nat)
    requires i < |es|
    ensures |BytesOf(es)| == |es| && BytesOf(es)[i] == es[i].bytes
  {
    if |es| > 1 {
      BytesOfAt(es[1..], if i > 0 then i - 1 else 0);
    }
  }

  // ----- a sorting function as qsort is assumed to be

  function InsertRec(key: SortKey, r: SortRec, s: seq<SortRec>): seq<SortRec> {
    if s == [] || Le(key, r.field, s[0].field) then [r] + s else [s[0]] + InsertRec(key, r, s[1..])
  }

  function SortRecs(key: SortKey, b: seq<SortRec>): seq<SortRec> {
    if b == [] then [] else InsertRec(key, b[0], SortRecs(key, b[1..]))
  }

  lemma {:induction false} InsertRecKeeps(key: SortKey, r: SortRec, s: seq<SortRec>)
    ensures multiset(InsertRec(key, r, s)) == multiset(s) + multiset{r}
  {
    hide Le;
    if s != [] && !Le(key, r.field, s[0].field) {
      InsertRecKeeps(key, r, s[1..]);
      assert s == [s[0]] + s[1..];
    }
  }

  lemma {:induction false} SortRecsKeeps(key: SortKey, b: seq<SortRec>)
    ensures multiset(SortRecs(key, b)) == multiset(b)
  {
    hide InsertRec;
    if b != [] {
      SortRecsKeeps(key, b[1..]);
      InsertRecKeeps(key, b[0], SortRecs(key, b[1..]));
      assert b == [b[0]] + b[1..];
    }
  }

  /** The attributes are numbers and in order. */
  ghost predicate InOrderOf(key: SortKey, s: seq<SortRec>) {
    && (forall i :: 0 <= i < |s| ==> NumberKey(key, s[i].field))
    && (forall i, j :: 0 <= i < j < |s| ==> Le(key, s[i].field, s[j].field))
  }

  lemma {:induction false} InsertRecSorts(key: SortKey, r: SortRec, s: seq<SortRec>)
    requires InOrderOf(key, s) && NumberKey(key, r.field)
    ensures InOrderOf(key, InsertRec(key, r, s))
  {
    hide KeyOrder, NumberKey;
    if s != [] {
      LeTotal(key, r.field, s[0].field);
      if Le(key, r.field, s[0].field) {
        forall i | 0 <= i < |s| ensures Le(key, r.field, s[i].field) {
          if i > 0 {
            LeTransitive(key, r.field, s[0].field, s[i].field);
          }
        }
      } else {
        InsertRecSorts(key, r, s[1..]);
        var t := InsertRec(key, r, s[1..]);
        InsertRecKeeps(key, r, s[1..]);
        forall i | 0 <= i < |t| ensures Le(key, s[0].field, t[i].field) {
          assert t[i] in multiset(t);
          assert t[i] == r || t[i] in s[1..];
        }
      }
    }
  }

  lemma {:induction false} SortRecsSorts(key: SortKey, b: seq<SortRec>)
    requires forall i :: 0 <= i < |b| ==> NumberKey(key, b[i].field)
    ensures InOrderOf(key, SortRecs(key, b))
  {
    hide NumberKey, InsertRec, Le;
    if b != [] {
      SortRecsSorts(key, b[1..]);
      InsertRecSorts(key, b[0], SortRecs(key, b[1..]));
    }
  }

  /** There is such a function. */
  lemma InsertionSortIsSort(key: SortKey, b: seq<SortRec>)
    ensures SortedBuffer(key, b, SortRecs(key, b))
  {
    hide SortRecs, NumberKey, Le, Ordered;
    SortRecsKeeps(key, b);
    if AllOrdered(key, FieldsOf(b)) {
      forall i | 0 <= i < |b| ensures NumberKey(key, b[i].field) {
        assert b[i].field == FieldsOf(b)[i];
      }
      SortRecsSorts(key, b);
    }
  }
}
