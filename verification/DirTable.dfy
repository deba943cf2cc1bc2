/** Directories as sequences of 32-byte records, wherever they lie on the card, and that a search
    finds in them what it should. */
module DirTable {
  import opened Bits
  import opened Card
  import opened FatVolume
  import opened FileEngine
  import opened DirModel
  import opened DirEngine

  type Record = r: seq<byte> | |r| == 32 witness Zeros(32)

  // ------------------------------------------------------- where records lie

  /** recs are the records of the root directory: byte k of record i is byte 32 i + k of the root
      area, which has a whole number of sectors. */
  ghost predicate InRoot(d: Image, v: Volume, recs: seq<Record>) {
    && |recs| == v.nRootdir <= 0x1_0000 && v.nRootdir > 0 && v.nRootdir % 16 == 0
    && v.dirbase + v.nRootdir / 16 <= |d|
    && forall i, k :: 0 <= i < |recs| && 0 <= k < 32 ==> RootByte(d, v, 32 * i + k) == recs[i][k]
  }

  function RootByte(d: Image, v: Volume, p: nat): byte {
    Byte(d, v.dirbase + p / 512, p % 512)
  }

  /** recs are the records in the clusters of a chain, but not more than 65536 of them. */
  ghost predicate InChain(d: Image, v: Volume, chain: seq<nat>, recs: seq<Record>) {
    && IsChain(d, v, chain) && chain != []
    && |recs| == Min(0x1_0000, 16 * (v.csize * |chain|))
    && forall i :: 0 <= i < |recs| ==> Content(d, v, chain, 32 * i + 32)[32 * i..] == recs[i]
  }

  /** recs are the records of the table at start, 0 being the root directory. */
  ghost predicate TableAt(d: Image, v: Volume, start: nat, recs: seq<Record>) {
    if start == 0 then InRoot(d, v, recs)
    else exists chain: seq<nat> :: chain != [] && chain[0] == start && InChain(d, v, chain, recs)
  }

  /** Entry i of the table is record i, and behind the last record the table ends. */
  ghost predicate Tabulates(d: Image, v: Volume, start: nat, recs: seq<Record>)
    requires v.csize > 0
  {
    && PlaceOf(d, v, start, |recs|) == End
    && forall i :: 0 <= i < |recs| ==> EntryIs(d, v, start, i, recs[i])
  }

  ghost predicate EntryIs(d: Image, v: Volume, start: nat, i: nat, rec: Record)
    requires v.csize > 0
  {
    var p := PlaceOf(d, v, start, i);
    p.At? && p.sect < |d| && EntryAt(d, p.sect, i) == rec
  }

  lemma RootEntry(d: Image, v: Volume, recs: seq<Record>, i: nat)
    requires v.csize > 0 && InRoot(d, v, recs) && i < |recs|
    ensures EntryIs(d, v, 0, i, recs[i])
  {
    var s := v.dirbase + i / 16;
    assert i / 16 < v.nRootdir / 16;
    forall k | 0 <= k < 32 ensures EntryAt(d, s, i)[k] == recs[i][k] {
      var p := 32 * i + k;
      assert p / 512 == i / 16 && p % 512 == i % 16 * 32 + k;
      assert RootByte(d, v, p) == recs[i][k];
    }
  }

  lemma ChainEntry(d: Image, v: Volume, chain: seq<nat>, recs: seq<Record>, i: nat)
    requires Sound(v, |d|) && InChain(d, v, chain, recs) && i < |recs|
    ensures EntryIs(d, v, chain[0], i, recs[i])
  {
    InCluster(i, v.csize, |chain|);
    DirIsFile(d, v, chain, i);
  }

  /** Record i lies in one of the n clusters exactly if it is one of their records. */
  lemma InCluster(i: nat, c: nat, n: nat)
    requires c > 0
    ensures i < 16 * (c * n) <==> i / 16 / c < n
    ensures i == 16 * (c * n) ==> i / 16 / c == n
  {
    var j, m := i / 16, c * n;
    assert i < 16 * m <==> j < m;
    Quotient(j, c, n, m);
  }

  lemma Quotient(j: nat, c: nat, n: nat, m: nat)
    requires c > 0 && m == c * n
    ensures j < m <==> j / c < n
    ensures j == m ==> j / c == n
  {
    var q := j / c;
    DivModEq(j, c);
    if q < n {
      MulLe(q + 1, n, c);
      MulSucc(q, c);
    } else {
      MulLe(n, q, c);
    }
    if j == m { DivModUnique(j, c, n, 0); }
  }

  lemma ChainEnds(d: Image, v: Volume, chain: seq<nat>, recs: seq<Record>)
    requires Sound(v, |d|) && InChain(d, v, chain, recs)
    ensures PlaceOf(d, v, chain[0], |recs|) == End
  {
    if |recs| < 0x1_0000 {
      InCluster(|recs|, v.csize, |chain|);
      DirIsFile(d, v, chain, |recs|);
    }
  }

  lemma ChainTabulates(d: Image, v: Volume, chain: seq<nat>, recs: seq<Record>)
    requires Sound(v, |d|) && InChain(d, v, chain, recs)
    ensures Tabulates(d, v, chain[0], recs)
  {
    ChainEnds(d, v, chain, recs);
    forall i | 0 <= i < |recs| ensures EntryIs(d, v, chain[0], i, recs[i]) {
      ChainEntry(d, v, chain, recs, i);
    }
  }

  /** So the code reads the records of every table in their order, and no more. */
  lemma TableRead(d: Image, v: Volume, start: nat, recs: seq<Record>)
    requires Sound(v, |d|) && TableAt(d, v, start, recs)
    ensures Tabulates(d, v, start, recs)
  {
    if start == 0 {
      forall i | 0 <= i < |recs| ensures EntryIs(d, v, start, i, recs[i]) {
        RootEntry(d, v, recs, i);
      }
    } else {
      var chain: seq<nat> :| chain != [] && chain[0] == start && InChain(d, v, chain, recs);
      ChainTabulates(d, v, chain, recs);
    }
  }

  // ------------------------------------------------------------- the search

  /** The record is in use as the object called name: it has those 11 bytes, and bit 3 of its
      attributes, the volume label's, is clear. */
  predicate Named(r: Record, name: seq<byte>) {
    r[..11] == name && r[11] / 8 % 2 == 0
  }

  /** Record n is the first one called name, and no record before it ends the table. */
  predicate FoundAt(recs: seq<Record>, name: seq<byte>, n: nat) {
    && n < |recs| && recs[n][0] != 0 && Named(recs[n], name)
    && forall i :: 0 <= i < n ==> recs[i][0] != 0 && !Named(recs[i], name)
  }

  /** No record before the first that starts with 0 is called name. */
  predicate Absent(recs: seq<Record>, name: seq<byte>) {
    forall n :: 0 <= n < |recs| ==> !FoundAt(recs, name, n)
  }

  lemma VolumeBit(a: byte)
    ensures BitAnd(a, 0x08) == 8 * (a as int / 8 % 2)
  {
    AndEven(a, 4, 8);
    AndEven(a as int / 2, 2, 4);
    AndEven(a as int / 2 / 2, 1, 2);
    AndOdd(a as int / 2 / 2 / 2, 0, 1);
  }

  lemma KindOfRecord(d: Image, v: Volume, start: nat, name: seq<byte>, recs: seq<Record>, i: nat)
    requires v.csize > 0 && Tabulates(d, v, start, recs) && i < |recs|
    ensures KindOf(d, v, start, name, i) == if recs[i][0] == 0 then Stop else if Named(recs[i], name) then Hit else Miss
  {
    assert EntryIs(d, v, start, i, recs[i]);
    VolumeBit(recs[i][11]);
  }

  /** The search is decided at the record found. */
  lemma SearchFinds(d: Image, v: Volume, start: nat, name: seq<byte>, recs: seq<Record>, n: nat)
    requires v.csize > 0 && Tabulates(d, v, start, recs) && FoundAt(recs, name, n)
    ensures DecidedAt(d, v, start, name, n) && KindOf(d, v, start, name, n) == Hit
    ensures EntryIs(d, v, start, n, recs[n])
  {
    forall i | 0 <= i <= n ensures KindOf(d, v, start, name, i) == if i < n then Miss else Hit {
      KindOfRecord(d, v, start, name, recs, i);
    }
  }

  /** Or it is decided at the end of the table. */
  lemma SearchFails(d: Image, v: Volume, start: nat, name: seq<byte>, recs: seq<Record>) returns (n: nat)
    requires v.csize > 0 && Tabulates(d, v, start, recs) && Absent(recs, name)
    ensures DecidedAt(d, v, start, name, n) && KindOf(d, v, start, name, n) == Stop
  {
    n := 0;
    while n < |recs| && recs[n][0] != 0
      invariant n <= |recs| && AllMiss(d, v, start, name, n)
      invariant forall i :: 0 <= i < n ==> recs[i][0] != 0 && !Named(recs[i], name)
    {
      assert !FoundAt(recs, name, n);
      KindOfRecord(d, v, start, name, recs, n);
      n := n + 1;
    }
    if n < |recs| { KindOfRecord(d, v, start, name, recs, n); }
  }

  /** dir_find in a table of records: FR_OK with the first record called name, before the one that
      starts with 0, or FR_NO_FILE exactly if there is none. */
  method FindRecord(dj: Directory, name: seq<byte>, ghost recs: seq<Record>) returns (res: FResult, dir: seq<byte>)
    requires dj.Mounted() && |name| == 11 && TableAt(dj.fs.card.sectors, dj.fs.vol, dj.sclust, recs)
    modifies dj`index, dj`clust, dj`sect
    modifies dj.fs.card`transfer, dj.fs.card`clocked, dj.fs.card`forwarded, dj.fs.card`ops
    ensures dj.Mounted() && old(dj.fs.card.ops) <= dj.fs.card.ops
    ensures dj.fs.card.FaultSince(old(dj.fs.card.ops)) ==> res == FrDiskErr
    ensures !dj.fs.card.FaultSince(old(dj.fs.card.ops)) ==>
      if Absent(recs, name) then res == FrNoFile
      else res == FrOk && FoundAt(recs, name, dj.index) && dir == recs[dj.index]
  {
    ghost var d, v, start, n := dj.fs.card.sectors, dj.fs.vol, dj.sclust, 0;
    TableRead(d, v, start, recs);
    res, dir, n := dj.Find(name);
    if !dj.fs.card.FaultSince(old(dj.fs.card.ops)) {
      ghost var once := DecidedOnce(d, v, start, name);
      if Absent(recs, name) {
        ghost var end := SearchFails(d, v, start, name, recs);
      } else {
        ghost var at: nat :| at < |recs| && FoundAt(recs, name, at);
        SearchFinds(d, v, start, name, recs, at);
      }
    }
  }
}
