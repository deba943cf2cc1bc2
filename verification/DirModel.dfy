/** Directories as tables of 32-byte entries: where entry i lies, and what a search
    by name should find. */
module DirModel {
  import opened Bits
  import opened Card
  import opened FatVolume

  const DIR_ATTR := 11
  const AM_VOL := 0x08
  const AM_DIR := 0x10

  /** The index of a directory entry is 16 bits wide. */
  const INDEX_LIMIT := 0x1_0000

  /** The k-th cluster of a table: there is one, the table has ended, or its chain is damaged. */
  datatype Link = In(c: nat) | Ended | Damaged

  function Follow(d: Image, v: Volume, l: Link): Link {
    match l
    case In(c) =>
      var e := FatEntry(d, v, c);
      if e <= 1 then Damaged else if e >= v.nFatent then Ended else In(e)
    case _ => l
  }

  function DirCluster(d: Image, v: Volume, start: nat, k: nat): (l: Link)
    ensures l.In? ==> 2 <= l.c < v.nFatent
  {
    if k == 0 then (if 2 <= start < v.nFatent then In(start) else Damaged)
    else Follow(d, v, DirCluster(d, v, start, k - 1))
  }

  /** Where entry i lies: start 0 stands for the root directory's fixed area, of which
      a sector is read if it is the first or begins before the last root entry. */
  datatype Place = At(sect: nat) | End | Bad

  function PlaceOf(d: Image, v: Volume, start: nat, i: nat): Place
    requires v.csize > 0
  {
    if i >= INDEX_LIMIT then End
    else if start == 0 then
      if i < 16 || i - i % 16 < v.nRootdir then At(v.dirbase + i / 16) else End
    else match DirCluster(d, v, start, i / 16 / v.csize)
      case In(c) => At(Clust2Sect(v, c) + i / 16 % v.csize)
      case Ended => End
      case Damaged => Bad
  }

  function EntryAt(d: Image, sect: nat, i: nat): (e: seq<byte>)
    requires sect < |d|
    ensures |e| == 32
  {
    d[sect][i % 16 * 32..i % 16 * 32 + 32]
  }

  /** Entry e is the object called name: not a volume label, and the same 11 bytes. */
  predicate Matches(e: seq<byte>, name: seq<byte>)
    requires |e| == 32
  {
    BitAnd(e[DIR_ATTR], AM_VOL) == 0 && e[..11] == name
  }

  /** What a search for name meets at index i. */
  datatype Kind = Hit | Miss | Stop | Fail

  function KindOf(d: Image, v: Volume, start: nat, name: seq<byte>, i: nat): Kind
    requires v.csize > 0
  {
    match PlaceOf(d, v, start, i)
    case End => Stop
    case Bad => Fail
    case At(sect) =>
      if sect >= |d| then Fail
      else if EntryAt(d, sect, i)[0] == 0 then Stop
      else if Matches(EntryAt(d, sect, i), name) then Hit
      else Miss
  }

  ghost predicate AllMiss(d: Image, v: Volume, start: nat, name: seq<byte>, n: nat)
    requires v.csize > 0
  {
    forall k :: 0 <= k < n ==> KindOf(d, v, start, name, k) == Miss
  }

  lemma MissMore(d: Image, v: Volume, start: nat, name: seq<byte>, n: nat)
    requires v.csize > 0 && AllMiss(d, v, start, name, n) && KindOf(d, v, start, name, n) == Miss
    ensures AllMiss(d, v, start, name, n + 1)
  {}

  /** n is the first index at which the search is decided. */
  ghost predicate DecidedAt(d: Image, v: Volume, start: nat, name: seq<byte>, n: nat)
    requires v.csize > 0
  {
    AllMiss(d, v, start, name, n) && KindOf(d, v, start, name, n) != Miss
  }

  /** Every search is decided, at one index only, whatever the chain looks like. */
  lemma DecidedOnce(d: Image, v: Volume, start: nat, name: seq<byte>) returns (n: nat)
    requires v.csize > 0
    ensures n <= INDEX_LIMIT && DecidedAt(d, v, start, name, n)
    ensures forall m: nat :: DecidedAt(d, v, start, name, m) ==> m == n
  {
    n := 0;
    while n < INDEX_LIMIT && KindOf(d, v, start, name, n) == Miss
      invariant n <= INDEX_LIMIT
      invariant AllMiss(d, v, start, name, n)
    {
      n := n + 1;
    }
  }

  // ------------------------------------------------------------ the cursor

  /** The cursor fields stand at entry i. */
  ghost predicate StandsAt(d: Image, v: Volume, start: nat, i: nat, clust: nat, sect: nat)
    requires v.csize > 0
  {
    && i < INDEX_LIMIT
    && PlaceOf(d, v, start, i) == At(sect)
    && if start == 0 then clust == 0 else DirCluster(d, v, start, i / 16 / v.csize) == In(clust)
  }

  lemma StandsOnSector(d: Image, v: Volume, start: nat, i: nat, clust: nat, sect: nat)
    requires Sound(v, |d|) && StandsAt(d, v, start, i, clust, sect)
    ensures sect > 0 && (clust == 0 <==> start == 0)
  {
    if start == 0 {
      StandsInRoot(d, v, i, clust, sect);
    } else {
      var r := StandsInCluster(d, v, start, i, clust, sect);
      ClusterOnCard(v, clust, |d|);
    }
  }

  lemma StandsInRoot(d: Image, v: Volume, i: nat, clust: nat, sect: nat)
    requires v.csize > 0 && StandsAt(d, v, 0, i, clust, sect)
    ensures clust == 0 && sect >= v.dirbase
  {}

  lemma StandsInCluster(d: Image, v: Volume, start: nat, i: nat, clust: nat, sect: nat) returns (r: nat)
    requires v.csize > 0 && start != 0 && StandsAt(d, v, start, i, clust, sect)
    ensures 2 <= clust < v.nFatent && sect == Clust2Sect(v, clust) + r
  {
    r := i / 16 % v.csize;
  }

  lemma ClusterOnCard(v: Volume, c: nat, size: nat)
    requires Sound(v, size) && 2 <= c < v.nFatent
    ensures Clust2Sect(v, c) > 0
  {
    Clust2SectExact(v, c, size);
  }

  /** 16-bit increment of the index. */
  lemma NextIndex(d: Image, v: Volume, start: nat, i: nat)
    requires v.csize > 0 && i < INDEX_LIMIT
    ensures (i + 1) % 0x1_0000 == if i + 1 == INDEX_LIMIT then 0 else i + 1
    ensures i + 1 == INDEX_LIMIT ==> PlaceOf(d, v, start, i + 1) == End
  {}

  lemma NextInSector(d: Image, v: Volume, start: nat, i: nat, clust: nat, sect: nat)
    requires v.csize > 0 && StandsAt(d, v, start, i, clust, sect)
    requires (i + 1) % 16 != 0
    ensures StandsAt(d, v, start, i + 1, clust, sect)
  {
    assert (i + 1) / 16 == i / 16;
  }

  lemma NextInRoot(d: Image, v: Volume, i: nat, clust: nat, sect: nat)
    requires v.csize > 0 && StandsAt(d, v, 0, i, clust, sect)
    requires (i + 1) % 16 == 0 && i + 1 < INDEX_LIMIT
    ensures i + 1 >= v.nRootdir ==> PlaceOf(d, v, 0, i + 1) == End
    ensures i + 1 < v.nRootdir ==> StandsAt(d, v, 0, i + 1, clust, sect + 1)
  {
    assert (i + 1) / 16 == i / 16 + 1;
  }

  lemma NextInCluster(d: Image, v: Volume, start: nat, i: nat, clust: nat, sect: nat)
    requires v.csize > 0 && start != 0 && StandsAt(d, v, start, i, clust, sect)
    requires (i + 1) % 16 == 0 && (i + 1) / 16 % v.csize != 0 && i + 1 < INDEX_LIMIT
    ensures StandsAt(d, v, start, i + 1, clust, sect + 1)
  {
    var j := (i + 1) / 16;
    assert j == i / 16 + 1;
    DivPred(j, v.csize);
    DivModEq(j, v.csize);
    DivModEq(j - 1, v.csize);
  }

  lemma NextCluster(d: Image, v: Volume, start: nat, i: nat, clust: nat, sect: nat)
    requires v.csize > 0 && start != 0 && StandsAt(d, v, start, i, clust, sect)
    requires (i + 1) % 16 == 0 && (i + 1) / 16 % v.csize == 0 && i + 1 < INDEX_LIMIT
    ensures var e := FatEntry(d, v, clust);
            if e <= 1 then PlaceOf(d, v, start, i + 1) == Bad
            else if e >= v.nFatent then PlaceOf(d, v, start, i + 1) == End
            else StandsAt(d, v, start, i + 1, e, Clust2Sect(v, e))
  {
    var j := (i + 1) / 16;
    assert j == i / 16 + 1;
    DivPred(j, v.csize);
  }

  // ------------------------------------------- a directory is a file of entries

  lemma {:induction false} DirClusterOfChain(d: Image, v: Volume, chain: seq<nat>, k: nat)
    requires IsChain(d, v, chain) && chain != [] && k <= |chain|
    ensures DirCluster(d, v, chain[0], k) == if k < |chain| then In(chain[k]) else Ended
  {
    if k > 0 {
      DirClusterOfChain(d, v, chain, k - 1);
      assert Linked(d, v, chain, k - 1);
    }
  }

  /** Entry i of a sector is 32 bytes of the file that the sector belongs to. */
  lemma EntryIsSlice(d: Image, v: Volume, chain: seq<nat>, i: nat, s: nat)
    requires s == FileSector(v, chain, i / 16) < |d|
    ensures EntryAt(d, s, i) == Content(d, v, chain, 32 * i + 32)[32 * i..]
  {
    var a, b := EntryAt(d, s, i), Content(d, v, chain, 32 * i + 32)[32 * i..];
    forall j | 0 <= j < 32 ensures a[j] == b[j] {
      var p := 32 * i + j;
      assert p / 512 == i / 16 && p % 512 == i % 16 * 32 + j;
      assert b[j] == FileByte(d, v, chain, p);
    }
  }

  /** On an undamaged chain the entries are the 32-byte records of the chain's bytes,
      and the table ends where the chain does. */
  lemma DirIsFile(d: Image, v: Volume, chain: seq<nat>, i: nat)
    requires Sound(v, |d|) && IsChain(d, v, chain) && chain != []
    requires i < INDEX_LIMIT && i / 16 / v.csize <= |chain|
    ensures PlaceOf(d, v, chain[0], i)
         == if i / 16 / v.csize < |chain| then At(FileSector(v, chain, i / 16)) else End
    ensures i / 16 / v.csize < |chain| ==>
      var s := FileSector(v, chain, i / 16);
      s < |d| && EntryAt(d, s, i) == Content(d, v, chain, 32 * i + 32)[32 * i..]
  {
    DirClusterOfChain(d, v, chain, i / 16 / v.csize);
    if i / 16 / v.csize < |chain| {
      FileSectorInData(d, v, |d|, chain, i / 16);
      EntryIsSlice(d, v, chain, i, FileSector(v, chain, i / 16));
    }
  }
}
