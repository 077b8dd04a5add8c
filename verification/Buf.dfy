/** The file layer and the buffer manager as they run: arrays of descriptors and frames, updated in place. */
module Buf {
  import opened Common
  import opened DiskSpec
  import opened BufHash
  import opened BufSpec

  /** The Unix files behind the open File objects, by the address of the object. */
  class DB {
    var files: Disk
    /** How often each file has been opened and not yet closed. */
    var openCnt: map<int, int>

    constructor ()
      ensures files == map[] && openCnt == map[]
    {
      files := map[];
      openCnt := map[];
    }

    /** Takes a page from the free list or extends the file. */
    method AllocatePageIn(f: int) returns (st: Status, pageNo: int)
      requires f in files && HeaderShape(files[f])
      modifies this`files
      ensures var (st', n, pages') := AllocatePage(old(files)[f]);
              st == st' && pageNo == n && files == old(files)[f := pages']
    {
      ghost var pages := files[f];
      var header := files[f][0];
      if header.nextFree != -1 {
        pageNo := header.nextFree;
        if !(0 <= pageNo < |files[f]|) {
          assert files[f := files[f]] == files;
          return UNIXERR, pageNo;
        }
        var firstFree := files[f][pageNo];
        header := header.(nextFree := NextFree(firstFree));
      } else {
        pageNo := header.numPages;
        files := files[f := files[f] + [Zeroed]];
        header := header.(numPages := header.numPages + 1);
        if header.firstPage == -1 {
          header := header.(firstPage := pageNo);
        }
      }
      files := files[f := files[f][0 := header]];
      assert files[f] == AllocatePage(pages).2;
      return OK, pageNo;
    }

    method DisposePageIn(f: int, pageNo: int) returns (st: Status)
      requires f in files && HeaderShape(files[f])
      modifies this`files
      ensures var (st', pages') := DisposePage(old(files)[f], pageNo);
              st == st' && files == old(files)[f := pages']
    {
      ghost var pages := files[f];
      assert files[f := files[f]] == files;
      if pageNo < 1 {
        return BADPAGENO;
      }
      var header := files[f][0];
      if header.firstPage == pageNo || pageNo >= header.numPages {
        return BADPAGENO;
      }
      var away := FreeBlock(header.nextFree);
      header := header.(nextFree := pageNo);
      files := files[f := files[f][pageNo := away]];
      files := files[f := files[f][0 := header]];
      assert files[f] == DisposePage(pages, pageNo).1;
      return OK;
    }

    method Read(k: Key) returns (st: Status, b: Block)
      ensures st == if OnDisk(files, k) then OK else if k.page < 1 then BADPAGENO else UNIXERR
      ensures st == OK ==> b == files[k.file][k.page]
    {
      if k.page < 1 {
        return BADPAGENO, Zeroed;
      }
      if !(k.file in files && k.page < |files[k.file]|) {
        return UNIXERR, Zeroed;
      }
      return OK, files[k.file][k.page];
    }

    method Write(k: Key, b: Block) returns (st: Status)
      requires OnDisk(files, k)
      modifies this`files
      ensures st == OK && files == WritePage(old(files), k, b)
    {
      files := files[k.file := files[k.file][k.page := b]];
      return OK;
    }
  }

  lemma AllocBufIs(p: Pool)
    requires Inv(p)
    ensures var s := Sweep(p.desc, p.hand, 2 * |p.desc|);
            && 0 <= p.hand < |p.desc| && 0 <= s.hand < |p.desc| == |s.desc|
            && (!s.ok ==> BufSpec.AllocBuf(p) == (BUFFEREXCEEDED, p.(desc := s.desc, hand := s.hand)))
            && (s.ok ==>
                  var d := s.desc[s.hand];
                  && (d.valid ==> OnDisk(p.disk, d.Owner()) && d.Owner().Hashable())
                  && (!d.valid ==> !d.dirty)
                  && BufSpec.AllocBuf(p) ==
                     (OK, Pool(s.desc, p.page, s.hand,
                               if d.valid then p.table - {d.Owner()} else p.table,
                               if d.dirty then WritePage(p.disk, d.Owner(), p.page[s.hand]) else p.disk)))
  {
    SweepSteps(p.desc, p.hand, 2 * |p.desc|);
    hide Sweep;
    var s := Sweep(p.desc, p.hand, 2 * |p.desc|);
    assert FrameOk(p.desc[s.hand], s.hand, p);
  }

  lemma SweepEnd(desc: seq<Desc>, hand: int)
    requires |desc| >= 1
    ensures Sweep(desc, hand, 0) == Swept(desc, hand, false)
  {
  }

  lemma SweepStep(desc: seq<Desc>, hand: int, left: nat, h: int)
    requires |desc| >= 1 && left > 0 && h == (hand + 1) % |desc|
    ensures Replaceable(desc[h]) ==> Sweep(desc, hand, left) == Swept(desc, h, desc[h].valid || left > 1)
    ensures !Replaceable(desc[h]) ==>
              Sweep(desc, hand, left) == Sweep(desc[h := desc[h].(refbit := false)], h, left - 1)
  {
  }

  class BufMgr {
    const db: DB
    const hashTable: BufHashTbl
    const bufTable: array<Desc>
    const bufPool: array<Block>
    const numBufs: int
    var clockHand: int

    /** The state of the pool as a value. */
    ghost var pool: Pool

    ghost predicate Tied()
      reads this, db, hashTable, hashTable.ht, bufTable, bufPool
    {
      && numBufs == bufTable.Length == bufPool.Length && hashTable.Valid()
      && pool == Pool(bufTable[..], bufPool[..], clockHand, hashTable.entries, db.files)
    }

    ghost predicate Valid()
      reads this, db, hashTable, hashTable.ht, bufTable, bufPool
    {
      Tied() && Inv(pool)
    }

    constructor (bufs: int, database: DB)
      requires bufs >= 1
      requires forall f :: f in database.files ==> f >= 1 && HeaderShape(database.files[f])
      ensures Valid() && db == database && numBufs == bufs && pool.disk == database.files && pool.table == map[]
      ensures fresh(hashTable) && fresh(hashTable.ht) && fresh(bufTable) && fresh(bufPool)
    {
      numBufs := bufs;
      db := database;
      bufTable := new Desc[bufs](_ => Desc(NULLFILE, 0, 0, false, false, false));
      bufPool := new Block[bufs](_ => Zeroed);
      hashTable := new BufHashTbl(bufs * 12 / 10 / 2 * 2 + 1);
      clockHand := bufs - 1;
      new;
      pool := Pool(bufTable[..], bufPool[..], clockHand, hashTable.entries, db.files);
    }

    /** The loop of allocBuf: `found` if it stopped at an unpinned page, `scanned` the steps it took. */
    method SweepClock() returns (found: bool, scanned: int)
      requires numBufs == bufTable.Length >= 1 && 0 <= clockHand < numBufs
      modifies this`clockHand, bufTable
      ensures var s := Sweep(old(bufTable[..]), old(clockHand), 2 * numBufs);
              && bufTable[..] == s.desc && clockHand == s.hand && 0 <= clockHand < numBufs
              && s.ok == (found || scanned < 2 * numBufs)
              && (s.ok ==> found == s.desc[s.hand].valid)
    {
      hide Sweep;
      scanned, found := 0, false;
      ghost var desc, hand, n := bufTable[..], clockHand, numBufs;
      while scanned < 2 * numBufs
        invariant 0 <= scanned <= 2 * n && 0 <= clockHand < n
        invariant Sweep(desc, hand, 2 * n) == Sweep(bufTable[..], clockHand, 2 * n - scanned)
        invariant !found
      {
        ghost var now, was := bufTable[..], clockHand;
        clockHand := (clockHand + 1) % numBufs;
        SweepStep(now, was, 2 * n - scanned, clockHand);
        scanned := scanned + 1;
        if !bufTable[clockHand].valid {
          return;
        }
        if !bufTable[clockHand].refbit {
          if bufTable[clockHand].pinCnt == 0 {
            found := true;
            return;
          }
        } else {
          bufTable[clockHand] := bufTable[clockHand].(refbit := false);
        }
        assert bufTable[..] == now[clockHand := now[clockHand].(refbit := false)];
      }
      SweepEnd(bufTable[..], clockHand);
    }

    /** Flushes the frame's changes to disk if there are any. */
    method WriteBack(i: int)
      requires 0 <= i < bufTable.Length == bufPool.Length
      requires bufTable[i].dirty ==> OnDisk(db.files, bufTable[i].Owner())
      modifies db`files
      ensures db.files == if bufTable[i].dirty then WritePage(old(db.files), bufTable[i].Owner(), bufPool[i])
              else old(db.files)
    {
      if bufTable[i].dirty {
        var st := db.Write(bufTable[i].Owner(), bufPool[i]);
      }
    }

    method AllocBuf() returns (st: Status, frame: int)
      requires Valid()
      modifies this, db`files, hashTable, hashTable.ht, bufTable
      ensures Tied()
      ensures st == BufSpec.AllocBuf(old(pool)).0 && pool == BufSpec.AllocBuf(old(pool)).1
      ensures st == OK ==> frame == clockHand
    {
      hide Sweep, Inv, BufSpec.AllocBuf;
      ghost var p := pool;
      AllocBufIs(p);
      var found, scanned := SweepClock();
      if !found && scanned >= 2 * numBufs {
        pool := BufSpec.AllocBuf(p).1;
        return BUFFEREXCEEDED, -1;
      }
      var d := bufTable[clockHand];
      if found {
        st := hashTable.Remove(d.Owner());
      }
      WriteBack(clockHand);
      pool := BufSpec.AllocBuf(p).1;
      return OK, clockHand;
    }

    /** Sets up the descriptor of a frame and enters the page in the hash table. */
    method Enter(k: Key, frameNo: int) returns (st: Status)
      requires Tied() && 0 <= frameNo < numBufs && k.Hashable()
      modifies this`pool, hashTable, hashTable.ht, bufTable
      ensures Tied()
      ensures st == if k in old(pool).table then HASHTBLERROR else OK
      ensures var p := old(pool);
              pool == p.(desc := p.desc[frameNo := SetDesc(k)],
                         table := if k in p.table then p.table else p.table[k := frameNo])
    {
      bufTable[frameNo] := SetDesc(k);
      st := hashTable.Insert(k, frameNo);
      pool := pool.(desc := bufTable[..], table := hashTable.entries);
    }

    method ReadPage(k: Key) returns (st: Status, frameNo: int)
      requires Valid() && k.Hashable()
      modifies this, db`files, hashTable, hashTable.ht, bufTable, bufPool
      ensures Tied()
      ensures st == BufSpec.ReadPage(old(pool), k).0 && pool == BufSpec.ReadPage(old(pool), k).1
      ensures st == OK ==> k in pool.table && frameNo == pool.table[k]
    {
      hide Inv, BufSpec.AllocBuf;
      ghost var p := pool;
      st, frameNo := hashTable.Find(k);
      Indexed(p, k);
      if st == OK {
        var d := bufTable[frameNo];
        bufTable[frameNo] := d.(refbit := true, pinCnt := d.pinCnt + 1);
        pool := pool.(desc := bufTable[..]);
        return OK, frameNo;
      }
      st, frameNo := AllocBuf();
      if st != OK {
        return st, frameNo;
      }
      var b;
      st, b := db.Read(k);
      if st != OK {
        return st, frameNo;
      }
      bufPool[frameNo] := b;
      pool := pool.(page := bufPool[..]);
      NotIndexed(p, k);
      st := Enter(k, frameNo);
    }

    method UnPinPage(k: Key, dirty: bool) returns (st: Status)
      requires Valid() && k.Hashable()
      modifies this`pool, bufTable
      ensures Tied()
      ensures st == BufSpec.UnPinPage(old(pool), k, dirty).0 && pool == BufSpec.UnPinPage(old(pool), k, dirty).1
    {
      hide Inv;
      ghost var p := pool;
      Indexed(p, k);
      var frameNo;
      st, frameNo := hashTable.Find(k);
      if st != OK {
        return st;
      }
      if dirty {
        bufTable[frameNo] := bufTable[frameNo].(dirty := dirty);
      }
      if bufTable[frameNo].pinCnt == 0 {
        pool := pool.(desc := bufTable[..]);
        return PAGENOTPINNED;
      }
      bufTable[frameNo] := bufTable[frameNo].(pinCnt := bufTable[frameNo].pinCnt - 1);
      pool := pool.(desc := bufTable[..]);
      return OK;
    }

    method FlushFile(f: int) returns (st: Status)
      requires Valid()
      modifies this`pool, db`files, hashTable, hashTable.ht, bufTable
      ensures Valid()
      ensures st == BufSpec.FlushFile(old(pool), f).0 && pool == BufSpec.FlushFile(old(pool), f).1
    {
      hide Inv, FlushFrom, DropFrame;
      ghost var p := pool;
      var i := 0;
      while i < numBufs
        invariant 0 <= i <= numBufs && Valid()
        invariant FlushFrom(p, f, 0) == FlushFrom(pool, f, i)
      {
        ghost var q := pool;
        FlushStep(q, f, i);
        var d := bufTable[i];
        if d.valid && d.file == f {
          if d.pinCnt > 0 {
            return PAGEPINNED;
          }
          DropOne(i);
        } else if !d.valid && d.file == f {
          return BADBUFFER;
        }
        i := i + 1;
      }
      FlushEnd(pool, f);
      return OK;
    }

    method DropOne(i: int)
      requires Valid() && 0 <= i < numBufs && bufTable[i].valid && bufTable[i].pinCnt == 0
      modifies this`pool, db`files, hashTable, hashTable.ht, bufTable
      ensures Valid() && pool == DropFrame(old(pool), i)
    {
      hide Inv;
      ghost var p := pool;
      HeldOnDisk(p, i);
      DropKeepsInv(p, i);
      var d := bufTable[i];
      WriteBack(i);
      bufTable[i] := d.(dirty := false);
      var st := hashTable.Remove(d.Owner());
      bufTable[i] := bufTable[i].(file := NULLFILE, pageNo := -1, valid := false);
      pool := DropFrame(p, i);
    }

    method DisposePage(k: Key) returns (st: Status)
      requires Valid() && k.Hashable() && k.file in db.files
      modifies this, db`files, hashTable, hashTable.ht, bufTable
      ensures Tied()
      ensures st == DisposeBufPage(old(pool), k).0 && pool == DisposeBufPage(old(pool), k).1
    {
      hide Inv, DiskSpec.DisposePage;
      ghost var p := pool;
      Indexed(p, k);
      HeaderOk(p, k.file);
      var frameNo;
      st, frameNo := hashTable.Find(k);
      if st == OK {
        bufTable[frameNo] := bufTable[frameNo].Clear();
      }
      st := hashTable.Remove(k);
      st := db.DisposePageIn(k.file, k.page);
      pool := DisposeBufPage(p, k).1;
    }

    method AllocPage(f: int) returns (st: Status, pageNo: int, frameNo: int)
      requires Valid() && f in db.files
      modifies this, db`files, hashTable, hashTable.ht, bufTable, bufPool
      ensures Tied()
      ensures st == BufSpec.AllocPage(old(pool), f).0 && pool == BufSpec.AllocPage(old(pool), f).1
      ensures st == OK ==> pageNo == DiskSpec.AllocatePage(old(pool).disk[f]).1
      ensures st == OK ==> Key(f, pageNo) in pool.table && frameNo == pool.table[Key(f, pageNo)]
    {
      hide Inv, BufSpec.AllocBuf, AllocatePage;
      ghost var p := pool;
      HeaderOk(p, f);
      st, pageNo := db.AllocatePageIn(f);
      frameNo := -1;
      if st != OK {
        return;
      }
      pool := pool.(disk := db.files);
      AllocateKeepsInv(p, f);
      st, frameNo := AllocBuf();
      if st != OK {
        return;
      }
      st := Enter(Key(f, pageNo), frameNo);
    }
  }

  lemma Indexed(p: Pool, k: Key)
    requires Inv(p)
    ensures k in p.table ==> EntryOk(p, k)
  {
  }

  lemma HeldOnDisk(p: Pool, i: int)
    requires Inv(p) && 0 <= i < |p.desc| && p.desc[i].valid
    ensures OnDisk(p.disk, p.desc[i].Owner()) && p.desc[i].Owner().Hashable()
  {
    assert FrameOk(p.desc[i], i, p);
  }

  lemma NotIndexed(p: Pool, k: Key)
    requires Inv(p) && k !in p.table
    ensures k !in BufSpec.AllocBuf(p).1.table
  {
  }

  lemma FlushEnd(p: Pool, f: int)
    requires Inv(p)
    ensures FlushFrom(p, f, |p.desc|) == (OK, p)
  {
  }

  lemma HeaderOk(p: Pool, f: int)
    requires Inv(p) && f in p.disk
    ensures f >= 1 && HeaderShape(p.disk[f]) && (AllocatePage(p.disk[f]).0 == OK ==> AllocatePage(p.disk[f]).1 >= 0)
    ensures AllocatePage(p.disk[f]).0 != OK ==> p.disk[f := AllocatePage(p.disk[f]).2] == p.disk
  {
  }

  lemma FlushStep(p: Pool, f: int, i: nat)
    requires Inv(p) && i < |p.desc|
    ensures p.desc[i].pinCnt >= 0
    ensures p.desc[i].valid && p.desc[i].file == f && p.desc[i].pinCnt > 0 ==> FlushFrom(p, f, i) == (PAGEPINNED, p)
    ensures p.desc[i].valid && p.desc[i].file == f && p.desc[i].pinCnt == 0 ==>
              Inv(DropFrame(p, i)) && FlushFrom(p, f, i) == FlushFrom(DropFrame(p, i), f, i + 1)
    ensures !p.desc[i].valid && p.desc[i].file == f ==> FlushFrom(p, f, i) == (BADBUFFER, p)
    ensures p.desc[i].file != f ==> FlushFrom(p, f, i) == FlushFrom(p, f, i + 1)
  {
    assert FrameOk(p.desc[i], i, p);
    if p.desc[i].valid && p.desc[i].pinCnt == 0 {
      DropKeepsInv(p, i);
    }
  }
}
