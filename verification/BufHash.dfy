/** The chained hash table that maps (file, page) to a frame of the buffer pool. */
module BufHash {
  import opened Common

  /** A page of an open file; the file is named by the address of its File object. */
  datatype Key = Key(file: int, page: int) {
    /** The sum that is hashed is not negative, as for a real address. */
    predicate Hashable() {
      file + page >= 0
    }
  }

  datatype HashBucket = HashBucket(key: Key, frameNo: int)

  function Hash(k: Key, size: int): (i: int)
    requires k.Hashable() && size >= 1
    ensures 0 <= i < size
  {
    (k.file + k.page) % size
  }

  /** What walking a chain finds. */
  function Lookup(c: seq<HashBucket>, k: Key): Option<int> {
    if c == [] then None
    else if c[0].key == k then Some(c[0].frameNo)
    else Lookup(c[1..], k)
  }

  ghost predicate NoDuplicates(c: seq<HashBucket>) {
    forall i, j :: 0 <= i < j < |c| ==> c[i].key != c[j].key
  }

  lemma {:induction false} LookupSkips(c: seq<HashBucket>, i: nat, k: Key)
    requires i <= |c| && forall j :: 0 <= j < i ==> c[j].key != k
    ensures Lookup(c, k) == Lookup(c[i..], k)
  {
    if i > 0 {
      assert c[1..][i - 1..] == c[i..];
      LookupSkips(c[1..], i - 1, k);
    }
  }

  lemma {:induction false} LookupSplits(c: seq<HashBucket>, d: seq<HashBucket>, k: Key)
    ensures Lookup(c + d, k) == (if Lookup(c, k).Some? then Lookup(c, k) else Lookup(d, k))
  {
    if c == [] {
      assert c + d == d;
    } else {
      assert (c + d)[1..] == c[1..] + d;
      LookupSplits(c[1..], d, k);
    }
  }

  lemma {:induction false} LookupAbsent(c: seq<HashBucket>, k: Key)
    ensures Lookup(c, k).None? <==> forall j :: 0 <= j < |c| ==> c[j].key != k
  {
    if c != [] {
      LookupAbsent(c[1..], k);
      assert forall j :: 1 <= j < |c| ==> c[j] == c[1..][j - 1];
    }
  }

  /** Unlinking the bucket of one key loses that key and no other. */
  lemma RemoveFromChain(c: seq<HashBucket>, i: nat, k: Key)
    requires i < |c| && NoDuplicates(c)
    ensures NoDuplicates(c[..i] + c[i + 1..])
    ensures Lookup(c[..i] + c[i + 1..], k) == (if k == c[i].key then None else Lookup(c, k))
  {
    LookupSplits(c[..i], c[i + 1..], k);
    LookupSplits(c[..i], c[i..], k);
    assert c == c[..i] + c[i..];
    assert c[i..][1..] == c[i + 1..];
    LookupAbsent(c[..i], k);
    LookupAbsent(c[i + 1..], k);
  }

  class BufHashTbl {
    const ht: array<seq<HashBucket>>
    /** The table as a map. */
    ghost var entries: map<Key, int>

    ghost predicate Valid()
      reads this, ht
    {
      && ht.Length >= 1
      && (forall i :: 0 <= i < ht.Length ==> NoDuplicates(ht[i]))
      && (forall k :: k in entries ==> k.Hashable())
      && (forall k: Key :: k.Hashable() ==>
            Lookup(ht[Hash(k, ht.Length)], k) == if k in entries then Some(entries[k]) else None)
    }

    constructor (htSize: int)
      requires htSize >= 1
      ensures Valid() && entries == map[] && fresh(ht)
    {
      ht := new seq<HashBucket>[htSize](_ => []);
      entries := map[];
    }

    method Insert(k: Key, frameNo: int) returns (st: Status)
      requires Valid() && k.Hashable()
      modifies this, ht
      ensures Valid()
      ensures st == if k in old(entries) then HASHTBLERROR else OK
      ensures entries == if k in old(entries) then old(entries) else old(entries)[k := frameNo]
    {
      var index := Hash(k, ht.Length);
      var chain := ht[index];
      var i := 0;
      while i < |chain|
        invariant i <= |chain|
        invariant forall j :: 0 <= j < i ==> chain[j].key != k
      {
        if chain[i].key == k {
          LookupAbsent(chain, k);
          return HASHTBLERROR;
        }
        i := i + 1;
      }
      LookupAbsent(chain, k);
      ht[index] := [HashBucket(k, frameNo)] + chain;
      entries := entries[k := frameNo];
      return OK;
    }

    method Find(k: Key) returns (st: Status, frameNo: int)
      requires Valid() && k.Hashable()
      ensures st == if k in entries then OK else HASHNOTFOUND
      ensures k in entries ==> frameNo == entries[k]
    {
      var chain := ht[Hash(k, ht.Length)];
      var i := 0;
      while i < |chain|
        invariant i <= |chain|
        invariant forall j :: 0 <= j < i ==> chain[j].key != k
      {
        if chain[i].key == k {
          LookupSkips(chain, i, k);
          return OK, chain[i].frameNo;
        }
        i := i + 1;
      }
      LookupAbsent(chain, k);
      return HASHNOTFOUND, 0;
    }

    method Remove(k: Key) returns (st: Status)
      requires Valid() && k.Hashable()
      modifies this, ht
      ensures Valid()
      ensures st == if k in old(entries) then OK else HASHTBLERROR
      ensures entries == old(entries) - {k}
    {
      var index := Hash(k, ht.Length);
      var chain := ht[index];
      var i := 0;
      while i < |chain|
        invariant i <= |chain|
        invariant forall j :: 0 <= j < i ==> chain[j].key != k
      {
        if chain[i].key == k {
          LookupAbsent(chain, k);
          forall q ensures Lookup(chain[..i] + chain[i + 1..], q) == if q == k then None else Lookup(chain, q) {
            RemoveFromChain(chain, i, q);
          }
          RemoveFromChain(chain, i, k);
          ht[index] := chain[..i] + chain[i + 1..];
          entries := entries - {k};
          return OK;
        }
        i := i + 1;
      }
      LookupAbsent(chain, k);
      assert entries - {k} == entries;
      return HASHTBLERROR;
    }
  }
}
