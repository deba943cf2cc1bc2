/** A FAT12/FAT16 volume as values: geometry, the allocation table, cluster
    chains, and a file as the bytes of its chain. */
module FatVolume {
  import opened Bits
  import opened Card

  datatype FatType = Fat12 | Fat16

  /** The part of the FATFS structure that pf_mount fills in. */
  datatype Volume = Volume(
    fsType: FatType,
    csize: nat,       // sectors per cluster
    nRootdir: nat,    // entries of the root directory
    nFatent: nat,     // number of clusters + 2
    fatbase: nat,
    dirbase: nat,
    database: nat)

  /** The cluster sizes that the FAT specification allows. */
  predicate GoodCsize(c: nat) {
    c in {1, 2, 4, 8, 16, 32, 64, 128}
  }

  lemma CsizeLog(c: nat) returns (k: nat)
    requires GoodCsize(c)
    ensures k <= 7 && c == Pow2(k)
  {
    assert Pow2(3) == 8 && Pow2(7) == 16 * Pow2(3);
    k := if c == 1 then 0 else if c == 2 then 1 else if c == 4 then 2 else if c == 8 then 3
         else if c == 16 then 4 else if c == 32 then 5 else if c == 64 then 6 else 7;
  }

  /** Number of the sector in its cluster, as the code computes it. */
  lemma MaskCluster(j: nat, c: nat)
    requires GoodCsize(c)
    ensures BitAnd(j, c - 1) == j % c
  {
    var k := CsizeLog(c);
    AndLowMask(j, k);
  }

  /** Byte of the table just past the entry of the last cluster. */
  function FatBytes(v: Volume): nat {
    match v.fsType
    case Fat12 => v.nFatent + v.nFatent / 2 + 2
    case Fat16 => 2 * v.nFatent
  }

  /** The geometry is that of a volume on a card with size sectors: the table comes
      before the data area, and the data area lies on the card. */
  predicate Sound(v: Volume, size: nat) {
    && GoodCsize(v.csize)
    && 2 <= v.nFatent < 0xFFF7
    && (v.fsType.Fat12? ==> v.nFatent < 0xFF7)
    && v.fatbase + FatBytes(v) / 512 < v.database
    && 0 < v.dirbase
    && v.database + (v.nFatent - 2) * v.csize <= size
  }

  // ---------------------------------------------------------------- clusters

  /** clust2sect: the subtraction wraps at 16 bits. */
  function Clust2Sect(v: Volume, c: nat): nat {
    var k := (c + 0xFFFE) % 0x1_0000;
    if k >= v.nFatent - 2 then 0 else k * v.csize + v.database
  }

  lemma Clust2SectExact(v: Volume, c: nat, size: nat)
    requires Sound(v, size) && c < 0x1_0000
    ensures 2 <= c < v.nFatent ==> Clust2Sect(v, c) == v.database + (c - 2) * v.csize
    ensures !(2 <= c < v.nFatent) ==> Clust2Sect(v, c) == 0
  {}

  lemma BlocksDisjoint(m: nat, a: nat, r: nat, b: nat, s: nat)
    requires r < m && s < m && a * m + r == b * m + s
    ensures a == b && r == s
  {
    DivModUnique(a * m + r, m, a, r);
    DivModUnique(b * m + s, m, b, s);
  }

  /** Clusters are disjoint blocks of the data area. */
  lemma ClustersDisjoint(v: Volume, size: nat, a: nat, r: nat, b: nat, s: nat)
    requires Sound(v, size)
    requires 2 <= a < v.nFatent && 2 <= b < v.nFatent && r < v.csize && s < v.csize
    ensures v.database <= Clust2Sect(v, a) + r < v.database + (v.nFatent - 2) * v.csize
    ensures Clust2Sect(v, a) + r == Clust2Sect(v, b) + s ==> a == b && r == s
  {
    Clust2SectExact(v, a, size);
    Clust2SectExact(v, b, size);
    MulLe(a - 2 + 1, v.nFatent - 2, v.csize);
    if Clust2Sect(v, a) + r == Clust2Sect(v, b) + s {
      BlocksDisjoint(v.csize, a - 2, r, b - 2, s);
    }
  }

  // ------------------------------------------------------- allocation table

  function Byte(d: Image, lba: nat, ofs: nat): byte
    requires ofs < 512
  {
    if lba < |d| then d[lba][ofs] else 0
  }

  /** The two bytes at bc of the table that starts at sector base. */
  function TableWord(d: Image, base: nat, bc: nat): (w: nat)
    ensures w < 0x1_0000
  {
    Byte(d, base + bc / 512, bc % 512) as int + 256 * Byte(d, base + (bc + 1) / 512, (bc + 1) % 512) as int
  }

  /** What get_fat returns when every transfer succeeds. */
  function FatEntry(d: Image, v: Volume, c: nat): (e: nat)
    ensures e < 0x1_0000
  {
    if c < 2 || c >= v.nFatent then 1
    else match v.fsType
      case Fat12 =>
        var w := TableWord(d, v.fatbase, c + c / 2);
        if c % 2 == 1 then w / 16 else w % 4096
      case Fat16 => TableWord(d, v.fatbase, 2 * c)
  }

  /** Two images that agree before the data area hold the same table. */
  lemma FatFrame(d: Image, d': Image, v: Volume, size: nat, c: nat)
    requires Sound(v, size) && |d| == |d'| == size
    requires forall s :: 0 <= s < v.database ==> d[s] == d'[s]
    ensures FatEntry(d, v, c) == FatEntry(d', v, c)
  {
    if 2 <= c < v.nFatent {
      var bc := if v.fsType.Fat12? then c + c / 2 else 2 * c;
      assert bc + 1 < FatBytes(v);
      DivMono(bc, FatBytes(v), 512);
      DivMono(bc + 1, FatBytes(v), 512);
    }
  }

  // ------------------------------------------------------------------ chains

  /** chain is a complete cluster chain: distinct clusters of the volume, each
      linked to the next, the last one marked as the end. */
  ghost predicate IsChain(d: Image, v: Volume, chain: seq<nat>) {
    && (forall i :: 0 <= i < |chain| ==> 2 <= chain[i] < v.nFatent)
    && (forall i, j :: 0 <= i < j < |chain| ==> chain[i] != chain[j])
    && (forall i :: 0 <= i < |chain| ==> Linked(d, v, chain, i))
  }

  /** Cluster i of the chain leads to the next one, or ends the chain. */
  ghost predicate Linked(d: Image, v: Volume, chain: seq<nat>, i: nat)
    requires i < |chain|
  {
    var e := FatEntry(d, v, chain[i]);
    if i + 1 < |chain| then e == chain[i + 1] else e >= v.nFatent
  }

  lemma ChainFrame(d: Image, d': Image, v: Volume, size: nat, chain: seq<nat>)
    requires Sound(v, size) && |d| == |d'| == size
    requires forall s :: 0 <= s < v.database ==> d[s] == d'[s]
    requires IsChain(d, v, chain)
    ensures IsChain(d', v, chain)
  {
    forall i | 0 <= i < |chain| ensures Linked(d', v, chain, i) {
      assert Linked(d, v, chain, i);
      FatFrame(d, d', v, size, chain[i]);
    }
  }

  /** Following k links from c. */
  ghost function Walk(d: Image, v: Volume, c: nat, k: nat): nat {
    if k == 0 then c else FatEntry(d, v, Walk(d, v, c, k - 1))
  }

  lemma {:induction false} WalkIsChain(d: Image, v: Volume, chain: seq<nat>, k: nat)
    requires IsChain(d, v, chain) && k < |chain|
    ensures Walk(d, v, chain[0], k) == chain[k]
  {
    if k > 0 {
      WalkIsChain(d, v, chain, k - 1);
      assert Linked(d, v, chain, k - 1);
    }
  }

  // ------------------------------------------------------------------- files

  /** The sector that holds the j-th 512 bytes of a file. */
  function FileSector(v: Volume, chain: seq<nat>, j: nat): nat {
    if v.csize > 0 && j / v.csize < |chain| then Clust2Sect(v, chain[j / v.csize]) + j % v.csize else 0
  }

  function FileByte(d: Image, v: Volume, chain: seq<nat>, i: nat): byte {
    Byte(d, FileSector(v, chain, i / 512), i % 512)
  }

  /** The first n bytes of a file. */
  function Content(d: Image, v: Volume, chain: seq<nat>, n: nat): (s: seq<byte>)
    ensures |s| == n
  {
    seq(n, i requires i >= 0 => FileByte(d, v, chain, i))
  }

  /** The chain is long enough for n bytes. */
  predicate Covers(v: Volume, chain: seq<nat>, n: nat)
    requires v.csize > 0
  {
    n > 0 ==> (n - 1) / 512 / v.csize < |chain|
  }

  lemma CoversSector(v: Volume, chain: seq<nat>, n: nat, i: nat)
    requires v.csize > 0 && Covers(v, chain, n) && i < n
    ensures i / 512 / v.csize < |chain|
  {
    DivMono(i, n - 1, 512);
    DivMono(i / 512, (n - 1) / 512, v.csize);
  }

  lemma FileSectorInData(d: Image, v: Volume, size: nat, chain: seq<nat>, j: nat)
    requires Sound(v, size) && IsChain(d, v, chain) && j / v.csize < |chain|
    ensures v.database <= FileSector(v, chain, j) < size
  {
    ClustersDisjoint(v, size, chain[j / v.csize], j % v.csize, 2, 0);
  }

  /** Distinct parts of a file lie in distinct sectors. */
  lemma FileSectorInjective(d: Image, v: Volume, size: nat, chain: seq<nat>, i: nat, j: nat)
    requires Sound(v, size) && IsChain(d, v, chain)
    requires i / v.csize < |chain| && j / v.csize < |chain| && i != j
    ensures FileSector(v, chain, i) != FileSector(v, chain, j)
  {
    ClustersDisjoint(v, size, chain[i / v.csize], i % v.csize, chain[j / v.csize], j % v.csize);
    DivModEq(i, v.csize);
    DivModEq(j, v.csize);
  }
}
