/**
 Runs of a whole session: heap-file objects are opened, work, and are destroyed, in any order and on any
 files. The pins of the pool are exactly those of the live objects, and the open count of a file is the
 number of live objects on it, as long as createHeapFile is not called for a file that exists.
 */
module Session {
  import opened Common
  import opened BufHash
  import opened BufRefine
  import opened BufRuns
  import opened Chain
  import BufSpec

  // ----- the pins of all live objects

  function Mine(hs: seq<Hold>, k: Key): int {
    if hs == [] then 0 else hs[0].Mine(k) + Mine(hs[1..], k)
  }

  function Due(hs: seq<Hold>, k: Key): int {
    if hs == [] then 0 else hs[0].Due(k) + Due(hs[1..], k)
  }

  /** Pins and debts that do not belong to the objects under consideration. */
  datatype Base = Base(pins: multiset<Key>, owed: multiset<Key>)

  ghost predicate OverAt(b: Base, v: View, hs: seq<Hold>, k: Key) {
    && v.pins[k] == b.pins[k] + Mine(hs, k) && v.owed[k] == b.owed[k] + Due(hs, k) && b.owed[k] <= b.pins[k]
    && PointersAt(v, hs, k)
  }

  /** Whoever has page `k` pinned has a pointer to the frame it is in. */
  ghost predicate PointersAt(v: View, hs: seq<Hold>, k: Key) {
    forall i :: 0 <= i < |hs| && hs[i].Mine(k) > 0 ==> FrameOf(v, k) == hs[i].Pointer(k)
  }

  /** The pins and debts are those of the objects on top of `b`, and the objects' pointers are good. */
  ghost predicate Over(b: Base, v: View, hs: seq<Hold>) {
    forall k :: OverAt(b, v, hs, k)
  }

  lemma {:induction false} Replaced(hs: seq<Hold>, i: nat, o: Hold, k: Key)
    requires i < |hs|
    ensures Mine(hs[i := o], k) == Mine(hs, k) - hs[i].Mine(k) + o.Mine(k)
    ensures Due(hs[i := o], k) == Due(hs, k) - hs[i].Due(k) + o.Due(k)
  {
    if i == 0 {
      assert hs[i := o][1..] == hs[1..];
    } else {
      Replaced(hs[1..], i - 1, o, k);
      assert hs[i := o][1..] == hs[1..][i - 1 := o];
    }
  }

  lemma {:induction false} Added(hs: seq<Hold>, o: Hold, k: Key)
    ensures Mine(hs + [o], k) == Mine(hs, k) + o.Mine(k) && Due(hs + [o], k) == Due(hs, k) + o.Due(k)
  {
    if hs != [] {
      Added(hs[1..], o, k);
      assert (hs + [o])[1..] == hs[1..] + [o];
    }
  }

  function Without(hs: seq<Hold>, i: nat): seq<Hold>
    requires i < |hs|
  {
    hs[..i] + hs[i + 1..]
  }

  lemma {:induction false} Removed(hs: seq<Hold>, i: nat, k: Key)
    requires i < |hs|
    ensures Mine(Without(hs, i), k) == Mine(hs, k) - hs[i].Mine(k) &&
            Due(Without(hs, i), k) == Due(hs, k) - hs[i].Due(k)
  {
    if i == 0 {
      assert Without(hs, 0) == hs[1..];
    } else {
      Removed(hs[1..], i - 1, k);
      assert Without(hs, i)[1..] == Without(hs[1..], i - 1);
    }
  }

  lemma OpenOver(b: Base, v: View, hs: seq<Hold>, v': View, o: Hold)
    requires Over(b, v, hs) && Opened(v, v', o) && Holding(v', o)
    ensures Over(b, v', hs + [o])
  {
    forall k ensures OverAt(b, v', hs + [o], k) {
      assert OverAt(b, v, hs, k) && OpenedAt(v, v', o, k) && HoldingAt(v', o, k);
      Added(hs, o, k);
      forall i | 0 <= i < |hs| && hs[i].Mine(k) > 0 ensures FrameOf(v', k) == FrameOf(v, k) {
        DebtsWithin(hs, i, k);
      }
    }
  }

  lemma WorkOver(b: Base, v: View, hs: seq<Hold>, i: nat, v': View, o: Hold)
    requires Over(b, v, hs) && i < |hs| && Exchanged(v, hs[i], v', o) && Holding(v', o)
    ensures Over(b, v', hs[i := o])
  {
    var hs' := hs[i := o];
    forall k ensures OverAt(b, v', hs', k) {
      assert OverAt(b, v, hs, k) && ExchangedAt(v, hs[i], v', o, k) && HoldingAt(v', o, k);
      Replaced(hs, i, o, k);
      forall j | 0 <= j < |hs| && j != i && hs[j].Mine(k) > 0 ensures FrameOf(v', k) == FrameOf(v, k) {
        TwoOf(hs, i, j, k);
      }
    }
  }

  lemma CloseOver(b: Base, v: View, hs: seq<Hold>, i: nat, v': View)
    requires Over(b, v, hs) && i < |hs| && Closed(v, hs[i], v')
    ensures Over(b, v', Without(hs, i))
  {
    var hs' := Without(hs, i);
    forall k ensures OverAt(b, v', hs', k) {
      assert OverAt(b, v, hs, k) && ClosedAt(v, hs[i], v', k);
      Removed(hs, i, k);
      forall j | 0 <= j < |hs'| && hs'[j].Mine(k) > 0 ensures FrameOf(v', k) == hs'[j].Pointer(k) {
        var j' := if j < i then j else j + 1;
        assert hs'[j] == hs[j'];
        TwoOf(hs, i, j', k);
      }
    }
  }

  /** What an object has pinned stays where it is while another object works. */
  lemma PinnedByOther(b: Base, v: View, hs: seq<Hold>, i: nat, j: nat, k: Key)
    requires Over(b, v, hs) && i < |hs| && j < |hs| && i != j && hs[j].Mine(k) > 0
    ensures v.pins[k] > hs[i].Mine(k) && FrameOf(v, k) == hs[j].Pointer(k)
  {
    assert OverAt(b, v, hs, k);
    TwoOf(hs, i, j, k);
  }

  lemma TwoOf(hs: seq<Hold>, i: nat, j: nat, k: Key)
    requires i < |hs| && j < |hs| && i != j
    ensures Mine(hs, k) >= hs[i].Mine(k) + hs[j].Mine(k)
  {
    var rest, j' := Without(hs, i), if j < i then j else j - 1;
    assert rest[j'] == hs[j];
    Removed(hs, i, k);
    DebtsWithin(rest, j', k);
  }

  lemma {:induction false} NoneOf(hs: seq<Hold>, k: Key)
    requires forall j :: 0 <= j < |hs| ==> hs[j].Mine(k) == 0
    ensures Mine(hs, k) == 0
  {
    if hs != [] {
      NoneOf(hs[1..], k);
    }
  }

  /** What only one object has pinned is pinned as often as that object does. */
  lemma OnlyOne(hs: seq<Hold>, i: nat, k: Key)
    requires i < |hs| && forall j :: 0 <= j < |hs| && j != i ==> hs[j].Mine(k) == 0
    ensures Mine(hs, k) == hs[i].Mine(k)
  {
    Removed(hs, i, k);
    NoneOf(Without(hs, i), k);
  }

  lemma {:induction false} DebtsWithin(hs: seq<Hold>, i: nat, k: Key)
    requires i < |hs|
    ensures hs[i].Mine(k) <= Mine(hs, k) && hs[i].Due(k) <= Due(hs, k)
    ensures Due(hs, k) - hs[i].Due(k) <= Mine(hs, k) - hs[i].Mine(k)
  {
    Removed(hs, i, k);
    NoExcess(Without(hs, i), k);
  }

  lemma {:induction false} NoExcess(hs: seq<Hold>, k: Key)
    ensures 0 <= Due(hs, k) <= Mine(hs, k)
  {
    if hs != [] {
      NoExcess(hs[1..], k);
    }
  }

  /** An object among many holds what it should, so its operations may go on whatever the others do. */
  lemma EachHolds(b: Base, v: View, hs: seq<Hold>, i: nat)
    requires Over(b, v, hs) && i < |hs|
    ensures Holding(v, hs[i])
  {
    forall k ensures HoldingAt(v, hs[i], k) {
      assert OverAt(b, v, hs, k);
      DebtsWithin(hs, i, k);
    }
  }

  /** Without objects everything is as it was. */
  lemma NothingOver(b: Base, v: View)
    requires Over(b, v, [])
    ensures v.pins == b.pins && v.owed == b.owed
  {
    assert forall k :: OverAt(b, v, [], k) ==> v.pins[k] == b.pins[k] && v.owed[k] == b.owed[k];
  }

  lemma OverItself(v: View)
    requires forall k :: v.owed[k] <= v.pins[k]
    ensures Over(Base(v.pins, v.owed), v, [])
  {
    assert forall k :: OverAt(Base(v.pins, v.owed), v, [], k);
  }

  // ----- open counts

  /** How many objects have file `f` open. */
  function OpenOn(hs: seq<Hold>, f: int): nat {
    if hs == [] then 0 else (if hs[0].h.file == f then 1 else 0) + OpenOn(hs[1..], f)
  }

  /** Objects pin pages of their own file only. */
  ghost predicate OneFile(o: Hold) {
    o.c.file == o.h.file
  }

  lemma {:induction false} OpenOnConcat(a: seq<Hold>, b: seq<Hold>, f: int)
    ensures OpenOn(a + b, f) == OpenOn(a, f) + OpenOn(b, f)
  {
    if a == [] {
      assert a + b == b;
    } else {
      OpenOnConcat(a[1..], b, f);
      assert (a + b)[1..] == a[1..] + b;
    }
  }

  lemma OpenOnAt(hs: seq<Hold>, i: nat, f: int)
    requires i < |hs|
    ensures OpenOn(hs, f) == OpenOn(Without(hs, i), f) + OpenOn([hs[i]], f)
  {
    OpenOnConcat(hs[..i], hs[i + 1..], f);
    OpenOnConcat(hs[..i], [hs[i]] + hs[i + 1..], f);
    OpenOnConcat([hs[i]], hs[i + 1..], f);
    assert hs == hs[..i] + ([hs[i]] + hs[i + 1..]);
  }

  lemma OpenOnReplaced(hs: seq<Hold>, i: nat, o: Hold, f: int)
    requires i < |hs| && o.h == hs[i].h
    ensures OpenOn(hs[i := o], f) == OpenOn(hs, f)
  {
    OpenOnAt(hs, i, f);
    OpenOnAt(hs[i := o], i, f);
    assert Without(hs[i := o], i) == Without(hs, i);
  }

  lemma {:induction false} NobodyPins(hs: seq<Hold>, k: Key)
    requires forall i :: 0 <= i < |hs| ==> OneFile(hs[i])
    requires OpenOn(hs, k.file) == 0
    ensures Mine(hs, k) == 0
  {
    if hs != [] {
      NobodyPins(hs[1..], k);
    }
  }

  // ----- runs

  /**
   The objects alive and what is lost: `leaked` counts the opens of each file that nothing will close, made by
   createHeapFile for a file that exists and by calls that ran out of frames; `lost` are the pins of such calls.
   */
  datatype Books = Books(live: seq<Hold>, leaked: multiset<int>, lost: Base)

  const NOTHING := Books([], multiset{}, Base(multiset{}, multiset{}))

  datatype State = State(view: View, openCnt: map<int, int>, books: Books)

  /** The pins a call leaves behind that ran out of frames: the header page of file `f`, if it came that far. */
  function Leftover(f: int, pinned: bool): multiset<Key> {
    if pinned then multiset{Key(f, 1)} else multiset{}
  }

  datatype Event =
    | Opens(o: Hold)
    | OpenFails(f: int, pinned: bool)
    | Works(i: nat, o: Hold)
    | Closes(i: nat)
    | Creates(f: int)
    | CreatesExisting(f: int)
    | CreateFails(f: int, pinned: bool)
    | Destroys(f: int)

  function CountAfterClose(n: int): int {
    if n <= 0 then n else n - 1
  }

  /** An open and a close leave the count of a file as it was. */
  lemma OpenThenClose(counts: map<int, int>, f: int)
    requires f in counts && counts[f] >= 0
    ensures counts[f := counts[f] + 1][f := CountAfterClose(counts[f] + 1)] == counts
  {
  }

  /** One operation on the database, as the heap-file methods guarantee it. */
  ghost predicate Step(s: State, e: Event, t: State) {
    match e
    case Opens(o) =>
      && OneFile(o) && o.h.file in s.openCnt && t.view.free.Keys == s.view.free.Keys
      && Opened(s.view, t.view, o) && Holding(t.view, o)
      && t.openCnt == s.openCnt[o.h.file := s.openCnt[o.h.file] + 1]
      && t.books == s.books.(live := s.books.live + [o])
    case OpenFails(f, pinned) =>
      && f in s.openCnt && t.view.free.Keys == s.view.free.Keys && t.openCnt == s.openCnt[f := s.openCnt[f] + 1]
      && t.view.pins == s.view.pins + Leftover(f, pinned) && t.view.owed == s.view.owed && KeepsFrames(s.view, t.view)
      && t.books == Failed(s.books, f, pinned, false)
    case Works(i, o) =>
      && i < |s.books.live| && OneFile(o) && o.h == s.books.live[i].h && t.view.free.Keys == s.view.free.Keys
      && Exchanged(s.view, s.books.live[i], t.view, o) && Holding(t.view, o) && t.openCnt == s.openCnt
      && t.books == s.books.(live := s.books.live[i := o])
    case Closes(i) =>
      && i < |s.books.live| && s.books.live[i].h.file in s.openCnt && t.view.free.Keys == s.view.free.Keys
      && Closed(s.view, s.books.live[i], t.view)
      && t.openCnt == s.openCnt[s.books.live[i].h.file := CountAfterClose(s.openCnt[s.books.live[i].h.file])]
      && t.books == s.books.(live := Without(s.books.live, i))
    case Creates(f) =>
      && f !in s.view.free && t.view.free.Keys == s.view.free.Keys + {f} && t.openCnt == s.openCnt[f := 0]
      && t.view.pins == s.view.pins && t.view.owed == s.view.owed && KeepsFrames(s.view, t.view)
      && t.books == s.books
    case CreatesExisting(f) =>
      && f in s.openCnt && t.view == s.view && t.openCnt == s.openCnt[f := s.openCnt[f] + 1]
      && t.books == Failed(s.books, f, false, false)
    case CreateFails(f, pinned) =>
      && f !in s.view.free && t.view.free.Keys == s.view.free.Keys + {f} && t.openCnt == s.openCnt[f := 1]
      && t.view.pins == s.view.pins + Leftover(f, pinned) && t.view.owed == s.view.owed + Leftover(f, pinned)
      && KeepsFrames(s.view, t.view) && t.books == Failed(s.books, f, pinned, true)
    case Destroys(f) =>
      && f in s.openCnt && s.openCnt[f] == 0 && t.openCnt == s.openCnt - {f} &&
         t.view.free.Keys == s.view.free.Keys - {f}
      && t.view.pins == s.view.pins && t.view.owed == s.view.owed && KeepsFrames(s.view, t.view)
      && t.books == s.books
  }

  /** An open of file `f` that nothing will close, and a pin on its header page if `pinned`, written if `written`. */
  function Failed(books: Books, f: int, pinned: bool, written: bool): Books {
    books.(leaked := books.leaked + multiset{f},
           lost := Base(books.lost.pins + Leftover(f, pinned), books.lost.owed + Leftover(f, pinned && written)))
  }

  ghost predicate CountsAt(s: State, f: int) {
    f in s.openCnt ==> s.openCnt[f] == OpenOn(s.books.live, f) + s.books.leaked[f]
  }

  /** The accounts of a session. */
  ghost predicate Accounts(s: State) {
    && Over(s.books.lost, s.view, s.books.live) && s.openCnt.Keys == s.view.free.Keys
    && LiveFiles(s) && LeakedFiles(s) && (forall f :: CountsAt(s, f))
  }

  lemma AccountsParts(s: State)
    requires Accounts(s)
    ensures Over(s.books.lost, s.view, s.books.live) && s.openCnt.Keys == s.view.free.Keys && LiveFiles(s) &&
            LeakedFiles(s)
    ensures forall f :: CountsAt(s, f)
  {
    hide Over, LiveFiles, LeakedFiles, CountsAt;
  }

  lemma StepKeepsAccounts(s: State, e: Event, t: State)
    requires Accounts(s) && Step(s, e, t)
    ensures Accounts(t)
  {
    hide Over, Step, LiveFiles, LeakedFiles, CountsAt;
    StepOver(s, e, t);
    if e.Destroys? {
      assert CountsAt(s, e.f);
    }
    StepFiles(s, e, t);
    forall f ensures CountsAt(t, f) {
      StepCounts(s, e, t, f);
    }
  }

  lemma StepOver(s: State, e: Event, t: State)
    requires Over(s.books.lost, s.view, s.books.live) && Step(s, e, t)
    ensures Over(t.books.lost, t.view, t.books.live)
  {
    hide Over, Opened, Exchanged, Closed, Holding, KeepsFrames;
    var lost, live := s.books.lost, s.books.live;
    match e
    case Opens(o) => OpenOver(lost, s.view, live, t.view, o);
    case OpenFails(f, pinned) => LostOver(lost, s.view, live, t.view, Leftover(f, pinned), multiset{});
    case Works(i, o) => WorkOver(lost, s.view, live, i, t.view, o);
    case Closes(i) => CloseOver(lost, s.view, live, i, t.view);
    case Creates(f) => LostOver(lost, s.view, live, t.view, multiset{}, multiset{});
    case CreatesExisting(f) =>
      FramesStay(s.view);
      LostOver(lost, s.view, live, t.view, multiset{}, multiset{});
    case CreateFails(f, pinned) => LostOver(lost, s.view, live, t.view, Leftover(f, pinned), Leftover(f, pinned));
    case Destroys(f) => LostOver(lost, s.view, live, t.view, multiset{}, multiset{});
  }

  lemma StepFiles(s: State, e: Event, t: State)
    requires s.openCnt.Keys == s.view.free.Keys && LiveFiles(s) && LeakedFiles(s) && Step(s, e, t)
    requires e.Destroys? ==> CountsAt(s, e.f)
    ensures t.openCnt.Keys == t.view.free.Keys && LiveFiles(t) && LeakedFiles(t)
  {
    hide Step, LiveFiles, LeakedFiles, CountsAt;
    StepKeys(s, e, t);
    if e.Destroys? {
      StepDestroys(s, e.f, t);
    } else {
      StepLive(s, e, t);
      StepLeaks(s, e, t);
    }
  }

  lemma StepDestroys(s: State, f: int, t: State)
    requires LiveFiles(s) && LeakedFiles(s) && CountsAt(s, f) && Step(s, Destroys(f), t)
    ensures LiveFiles(t) && LeakedFiles(t)
  {
    hide KeepsFrames, LiveFiles, LeakedFiles, CountsAt;
    FileGone(s, f, t);
  }

  lemma StepLive(s: State, e: Event, t: State)
    requires LiveFiles(s) && Step(s, e, t) && s.openCnt.Keys <= t.openCnt.Keys
    ensures LiveFiles(t)
  {
    hide Over, Opened, Exchanged, Closed, Holding, KeepsFrames, LiveFiles, OneFile, Leftover;
    KnownFiles(s, t);
    match e
    case Opens(o) => LiveAdded(s, o, t);
    case Works(i, o) => LiveReplaced(s, i, o, t);
    case Closes(i) => LiveRemoved(s, i, t);
    case _ =>
  }

  lemma StepLeaks(s: State, e: Event, t: State)
    requires LeakedFiles(s) && Step(s, e, t) && s.openCnt.Keys <= t.openCnt.Keys
    ensures LeakedFiles(t)
  {
    hide Over, Opened, Exchanged, Closed, Holding, KeepsFrames, LeakedFiles, OneFile, Failed, Leftover;
    KnownLeaks(s, t);
    match e
    case OpenFails(f, pinned) => LeakAdded(s, f, pinned, false, t);
    case CreatesExisting(f) => LeakAdded(s, f, false, false, t);
    case CreateFails(f, pinned) => LeakAdded(s, f, pinned, true, t);
    case _ =>
  }

  lemma StepKeys(s: State, e: Event, t: State)
    requires s.openCnt.Keys == s.view.free.Keys && Step(s, e, t)
    ensures t.openCnt.Keys == t.view.free.Keys && (e.Destroys? || s.openCnt.Keys <= t.openCnt.Keys)
  {
    hide Over, Opened, Exchanged, Closed, Holding, KeepsFrames, Failed, OneFile;
    match e
    case Opens(o) => KeysAfter(s.openCnt, o.h.file, s.openCnt[o.h.file] + 1);
    case OpenFails(f, _) => KeysAfter(s.openCnt, f, s.openCnt[f] + 1);
    case Works(_, _) =>
    case Closes(i) =>
      var f := s.books.live[i].h.file;
      KeysAfter(s.openCnt, f, CountAfterClose(s.openCnt[f]));
    case Creates(f) => KeysAfter(s.openCnt, f, 0);
    case CreatesExisting(f) => KeysAfter(s.openCnt, f, s.openCnt[f] + 1);
    case CreateFails(f, _) => KeysAfter(s.openCnt, f, 1);
    case Destroys(f) => assert (s.openCnt - {f}).Keys == s.openCnt.Keys - {f};
  }

  lemma KeysAfter(m: map<int, int>, f: int, n: int)
    ensures m[f := n].Keys == m.Keys + {f} && (f in m ==> m[f := n].Keys == m.Keys)
  {
  }

  /** Each object is on a file that is there. */
  ghost predicate LiveFiles(s: State) {
    var live := s.books.live;
    forall i :: 0 <= i < |live| ==> OneFile(live[i]) && live[i].h.file in s.openCnt
  }

  /** Leaks are on files that are there, and lost pins on files with leaks. */
  ghost predicate LeakedFiles(s: State) {
    && (forall f :: f in s.books.leaked ==> f in s.openCnt)
    && (forall k :: k in s.books.lost.pins ==> k.file in s.books.leaked)
  }

  lemma KnownFiles(s: State, t: State)
    requires LiveFiles(s) && s.openCnt.Keys <= t.openCnt.Keys
    ensures t.books.live == s.books.live ==> LiveFiles(t)
  {
    KeysStay(s, t);
  }

  lemma KnownLeaks(s: State, t: State)
    requires LeakedFiles(s) && s.openCnt.Keys <= t.openCnt.Keys
    ensures t.books.leaked == s.books.leaked && t.books.lost == s.books.lost ==> LeakedFiles(t)
  {
    KeysStay(s, t);
  }

  lemma KeysStay(s: State, t: State)
    requires s.openCnt.Keys <= t.openCnt.Keys
    ensures forall f :: f in s.openCnt ==> f in t.openCnt
  {
    forall f | f in s.openCnt ensures f in t.openCnt {
      assert f in s.openCnt.Keys;
    }
  }

  /** A file that is not open has neither objects nor leaks. */
  lemma FileGone(s: State, f: int, t: State)
    requires LiveFiles(s) && LeakedFiles(s) && CountsAt(s, f) && f in s.openCnt && s.openCnt[f] == 0
    requires t.openCnt == s.openCnt - {f} && t.books == s.books
    ensures LiveFiles(t) && LeakedFiles(t)
  {
    forall i | 0 <= i < |s.books.live| ensures s.books.live[i].h.file != f {
      OpenOnAt(s.books.live, i, f);
    }
  }

  lemma LiveAdded(s: State, o: Hold, t: State)
    requires LiveFiles(s) && OneFile(o) && o.h.file in s.openCnt && s.openCnt.Keys <= t.openCnt.Keys
    requires t.books.live == s.books.live + [o]
    ensures LiveFiles(t)
  {
    KeysStay(s, t);
  }

  lemma LiveReplaced(s: State, i: nat, o: Hold, t: State)
    requires LiveFiles(s) && i < |s.books.live| && OneFile(o) && o.h == s.books.live[i].h && t.openCnt == s.openCnt
    requires t.books.live == s.books.live[i := o]
    ensures LiveFiles(t)
  {
  }

  lemma LiveRemoved(s: State, i: nat, t: State)
    requires LiveFiles(s) && i < |s.books.live| && s.openCnt.Keys <= t.openCnt.Keys
    requires t.books.live == Without(s.books.live, i)
    ensures LiveFiles(t)
  {
    KeysStay(s, t);
  }

  lemma LeakAdded(s: State, f: int, pinned: bool, written: bool, t: State)
    requires LeakedFiles(s) && t.books == Failed(s.books, f, pinned, written) && f in t.openCnt
    requires s.openCnt.Keys <= t.openCnt.Keys
    ensures LeakedFiles(t)
  {
    KeysStay(s, t);
  }

  lemma FramesStay(v: View)
    ensures KeepsFrames(v, v)
  {
  }

  /** Pins that nobody will give back come on top. */
  lemma LostOver(b: Base, v: View, hs: seq<Hold>, w: View, pins: multiset<Key>, owed: multiset<Key>)
    requires Over(b, v, hs) && KeepsFrames(v, w) && owed <= pins
    requires w.pins == v.pins + pins && w.owed == v.owed + owed
    ensures Over(Base(b.pins + pins, b.owed + owed), w, hs) && (pins == owed == multiset{} ==> Over(b, w, hs))
  {
    var b' := Base(b.pins + pins, b.owed + owed);
    forall k ensures OverAt(b', w, hs, k) {
      assert OverAt(b, v, hs, k);
      forall i | 0 <= i < |hs| && hs[i].Mine(k) > 0 ensures FrameOf(w, k) == hs[i].Pointer(k) {
        DebtsWithin(hs, i, k);
      }
    }
    if pins == owed == multiset{} {
      assert b' == b;
    }
  }

  lemma {:induction false} NobodyOn(hs: seq<Hold>, f: int)
    requires forall i :: 0 <= i < |hs| ==> hs[i].h.file != f
    ensures OpenOn(hs, f) == 0
  {
    if hs != [] {
      NobodyOn(hs[1..], f);
    }
  }

  /** A session starts with closed files and no objects. */
  lemma StartAccounts(s: State)
    requires s.view.pins == multiset{} && s.view.owed == multiset{} && s.books == NOTHING
    requires s.openCnt.Keys == s.view.free.Keys && forall f :: f in s.openCnt ==> s.openCnt[f] == 0
    ensures Accounts(s)
  {
    OverItself(s.view);
  }

  lemma StepCounts(s: State, e: Event, t: State, f: int)
    requires Accounts(s) && Step(s, e, t) && CountsAt(s, f)
    ensures CountsAt(t, f)
  {
    hide Opened, Exchanged, Closed, Over, Holding, KeepsFrames, OneFile, CountsAt, Accounts, LiveFiles, LeakedFiles,
         Failed, Leftover;
    var live := s.books.live;
    AccountsParts(s);
    match e
    case Opens(o) =>
      OpenOnConcat(live, [o], f);
      CountMoves(s, t, o.h.file, f);
    case OpenFails(g, pinned) => LeakMoves(s, t, g, pinned, false, f);
    case Works(i, o) =>
      OpenOnReplaced(live, i, o, f);
      CountStays(s, t, f);
    case Closes(i) =>
      OpenOnAt(live, i, f);
      CountDrops(s, t, live[i].h.file, f);
    case Creates(g) => NewStarts(s, t, g, f);
    case CreatesExisting(g) => LeakMoves(s, t, g, false, false, f);
    case CreateFails(g, pinned) => LeakStarts(s, t, g, pinned, f);
    case Destroys(g) => CountEnds(s, t, g, f);
  }

  lemma CountEnds(s: State, t: State, g: int, f: int)
    requires CountsAt(s, f) && t.openCnt == s.openCnt - {g} && t.books == s.books
    ensures CountsAt(t, f)
  {
  }

  /** The count of file `g` and what it counts change together. */
  lemma CountMoves(s: State, t: State, g: int, f: int)
    requires CountsAt(s, f) && g in s.openCnt && g in t.openCnt && t.openCnt == s.openCnt[g := t.openCnt[g]]
    requires var counted := OpenOn(t.books.live, f) + t.books.leaked[f] - OpenOn(s.books.live, f) - s.books.leaked[f];
             counted == if f == g then t.openCnt[g] - s.openCnt[g] else 0
    ensures CountsAt(t, f)
  {
  }

  lemma CountStays(s: State, t: State, f: int)
    requires CountsAt(s, f) && t.openCnt == s.openCnt && OpenOn(t.books.live, f) == OpenOn(s.books.live, f)
    requires t.books.leaked == s.books.leaked
    ensures CountsAt(t, f)
  {
  }

  lemma CountDrops(s: State, t: State, g: int, f: int)
    requires CountsAt(s, f) && g in s.openCnt && t.openCnt == s.openCnt[g := CountAfterClose(s.openCnt[g])]
    requires t.books.leaked == s.books.leaked &&
             OpenOn(s.books.live, f) == OpenOn(t.books.live, f) + if f == g then 1 else 0
    ensures CountsAt(t, f)
  {
  }

  lemma CountStarts(s: State, t: State, g: int, f: int)
    requires CountsAt(s, f) && LiveFiles(s) && LeakedFiles(s) && g !in s.openCnt && t.books.live == s.books.live
    requires t.openCnt == s.openCnt[g := t.books.leaked[g]] && (f != g ==> t.books.leaked[f] == s.books.leaked[f])
    ensures CountsAt(t, f)
  {
    if f == g {
      NobodyOn(s.books.live, f);
    }
  }

  lemma LeakMoves(s: State, t: State, g: int, pinned: bool, written: bool, f: int)
    requires CountsAt(s, f) && g in s.openCnt && t.openCnt == s.openCnt[g := s.openCnt[g] + 1]
    requires t.books == Failed(s.books, g, pinned, written)
    ensures CountsAt(t, f)
  {
    hide Leftover;
  }

  lemma NewStarts(s: State, t: State, g: int, f: int)
    requires CountsAt(s, f) && LiveFiles(s) && LeakedFiles(s) && g !in s.openCnt && t.openCnt == s.openCnt[g := 0]
    requires t.books == s.books
    ensures CountsAt(t, f)
  {
    CountStarts(s, t, g, f);
  }

  lemma LeakStarts(s: State, t: State, g: int, pinned: bool, f: int)
    requires CountsAt(s, f) && LiveFiles(s) && LeakedFiles(s) && g !in s.openCnt && t.openCnt == s.openCnt[g := 1]
    requires t.books == Failed(s.books, g, pinned, true)
    ensures CountsAt(t, f)
  {
    hide Leftover;
    CountStarts(s, t, g, f);
  }

  /** A run: every state follows from the one before by its event. */
  ghost predicate Run(states: seq<State>, events: seq<Event>) {
    |states| == |events| + 1 && forall i :: 0 <= i < |events| ==> Step(states[i], events[i], states[i + 1])
  }

  lemma {:induction false} RunKeepsAccounts(states: seq<State>, events: seq<Event>, n: nat)
    requires Run(states, events) && Accounts(states[0]) && n <= |events|
    ensures Accounts(states[n])
  {
    hide Step, Accounts;
    if n > 0 {
      RunKeepsAccounts(states, events, n - 1);
      StepKeepsAccounts(states[n - 1], events[n - 1], states[n]);
    }
  }

  /**
   In every run, when the last object on a file is destroyed the only pages of the file still pinned are those of calls
   that ran out of frames, and the file is closed, and so flushed, if and only if there was no such call and
   createHeapFile was never called for it while it existed.
   */
  lemma LastCloseFlushesIff(states: seq<State>, events: seq<Event>, n: nat)
    requires Run(states, events) && Accounts(states[0])
    requires n < |events| && events[n].Closes? && events[n].i < |states[n].books.live|
    requires var f := states[n].books.live[events[n].i].h.file; OpenOn(states[n + 1].books.live, f) == 0
    ensures var f := states[n].books.live[events[n].i].h.file;
            && (forall k: Key :: k.file == f ==> states[n + 1].view.pins[k] == states[n].books.lost.pins[k])
            && (states[n].openCnt[f] == 1 <==> f !in states[n].books.leaked)
            && (f !in states[n].books.leaked ==> forall k: Key :: k.file == f ==> states[n + 1].view.pins[k] == 0)
  {
    hide Opened, Exchanged, Closed, Holding, KeepsFrames, Accounts;
    RunKeepsAccounts(states, events, n);
    RunKeepsAccounts(states, events, n + 1);
    AccountsParts(states[n]);
    AccountsParts(states[n + 1]);
    var s, t, i := states[n], states[n + 1], events[n].i;
    var f := s.books.live[i].h.file;
    assert CountsAt(s, f);
    OpenOnAt(s.books.live, i, f);
    forall k: Key | k.file == f ensures t.view.pins[k] == s.books.lost.pins[k] {
      assert OverAt(t.books.lost, t.view, t.books.live, k);
      NobodyPins(t.books.live, k);
    }
  }

  /** So without such calls the flush of the last close succeeds and puts every page of the file on disk. */
  lemma LastCloseDurable(states: seq<State>, events: seq<Event>, n: nat, p: BufSpec.Pool)
    requires Run(states, events) && Accounts(states[0])
    requires n < |events| && events[n].Closes? && events[n].i < |states[n].books.live|
    requires var f := states[n].books.live[events[n].i].h.file;
             OpenOn(states[n + 1].books.live, f) == 0 && f >= 1 && f !in states[n].books.leaked
    requires Coherent(p, states[n + 1].view)
    ensures var f, v := states[n].books.live[events[n].i].h.file, states[n + 1].view;
            var (st, q) := BufSpec.FlushFile(p, f);
            states[n].openCnt[f] == 1 && st == OK && Coherent(q, v) && Durable(q, v, f)
  {
    hide Coherent, Durable, BufSpec.FlushFile, Accounts, Step;
    LastCloseFlushesIff(states, events, n);
    FlushMakesDurable(p, states[n + 1].view, states[n].books.live[events[n].i].h.file);
  }
}
