/** A write that starts fresh inside the first sector of a later cluster: what pf_write does
    then, and that it is not what a write should do. */
module WriteSlip {
  import opened Bits
  import opened Card
  import opened FatVolume
  import opened FileModel

  /** From a bad start the cursor is that of the file without its first cluster. */
  lemma SlipCursor(v: Volume, chain: seq<nat>, fptr: nat, curr: nat, dsect: nat)
    requires v.csize > 0 && CursorOk(v, chain, fptr, curr, dsect) && !FreshStartOk(v, fptr)
    ensures |chain| > 1 && CursorOk(v, chain[1..], RoundDown(fptr), curr, dsect)
    ensures 0 < RoundDown(fptr) <= (|chain| - 1) * ClusterBytes(v)
  {
    var j, p := fptr / 512, RoundDown(fptr);
    var k := j / v.csize;
    assert p == 512 * j && (fptr - 1) / 512 == j && (p - 1) / 512 == j - 1;
    DivModEq(j, v.csize);
    DivPred(j, v.csize);
    assert k > 0 && (j - 1) / v.csize == k - 1;
    MulLe(k, |chain| - 1, ClusterBytes(v));
    assert p == k * ClusterBytes(v);
  }

  lemma TailIsFile(d: Image, v: Volume, chain: seq<nat>, n: nat, org: nat, m: nat)
    requires FileOk(d, v, chain, n, org) && |chain| > 1 && m <= n && Covers(v, chain[1..], m)
    ensures FileOk(d, v, chain[1..], m, chain[1])
  {
    var tail := chain[1..];
    forall i | 0 <= i < |tail| ensures Linked(d, v, tail, i) {
      assert Linked(d, v, chain, i + 1);
    }
  }

  /** How many bytes from the start of the chain a write up to end can reach. */
  function Reach(v: Volume, chain: seq<nat>, end: nat): nat {
    Min(end, |chain| * ClusterBytes(v))
  }

  lemma ReachCovered(v: Volume, chain: seq<nat>, end: nat)
    requires v.csize > 0 && chain != []
    ensures Covers(v, chain, Reach(v, chain, end))
    ensures Reach(v, chain, end) == end || Fills(v, chain, Reach(v, chain, end))
    ensures Reach(v, chain, end) == end <==> Covers(v, chain, end)
  {
    var n := |chain| * ClusterBytes(v);
    FillsAt(v, chain, n);
    if 0 < end <= n {
      DivMono(end - 1, n - 1, 512);
      DivMono((end - 1) / 512, (n - 1) / 512, v.csize);
    } else if end > n {
      DivMono(n, end - 1, 512);
      DivMono(n / 512, (end - 1) / 512, v.csize);
    }
  }

  /** Whether the chain without its first cluster has room for a write of data from fptr. */
  predicate SlipFits(v: Volume, chain: seq<nat>, fsize: nat, fptr: nat, data: seq<byte>)
    requires v.csize > 0 && RoundDown(fptr) <= fsize
  {
    |chain| > 1 && Covers(v, chain[1..], RoundDown(fptr) + |Fit(data, fsize - RoundDown(fptr))|)
  }

  /** What pf_write does from a bad start: it writes, without an error, to the file that
      lacks the first cluster. */
  ghost predicate Slipped(s: Progress, t: Progress, v: Volume, chain: seq<nat>, fsize: nat, data: seq<byte>) {
    var pos := RoundDown(s.fptr);
    && pos <= fsize && |chain| > 1
    && t.image == WriteRun(s.image, v, chain[1..], pos, Fit(data, fsize - pos))
    && t.fptr == pos + |Fit(data, fsize - pos)|
  }

  /** The file that such a write works on: the chain without its first cluster, as far as
      the write can reach. */
  lemma SlipPlan(d: Image, v: Volume, chain: seq<nat>, fsize: nat, org: nat, fptr: nat, data: seq<byte>,
                 pos: nat, size: nat) returns (c: seq<nat>, n: nat, o: nat)
    requires FileOk(d, v, chain, fsize, org) && |chain| > 1
    requires pos == RoundDown(fptr) <= fsize && size == |Fit(data, fsize - pos)|
    requires pos <= (|chain| - 1) * ClusterBytes(v)
    ensures c == chain[1..] && pos <= n && FileOk(d, v, c, n, o)
    ensures if SlipFits(v, chain, fsize, fptr, data) then pos + size <= n else pos + size > n && Fills(v, c, n)
  {
    c, n, o := chain[1..], Reach(v, chain[1..], pos + size), chain[1];
    ReachCovered(v, c, pos + size);
    TailIsFile(d, v, chain, fsize, org, n);
  }

  lemma SlippedIs(s: Progress, t: Progress, v: Volume, chain: seq<nat>, fsize: nat, data: seq<byte>, g: Destination)
    requires |chain| > 1 && g.chain == chain[1..] && !s.wip && Leads(s, t, v, fsize, data, g)
    ensures Slipped(s, t, v, chain, fsize, data)
  {}

  lemma ShiftSector(v: Volume, chain: seq<nat>, j: nat)
    requires v.csize > 0 && |chain| > 1
    ensures (j + v.csize) / v.csize == j / v.csize + 1
    ensures FileSector(v, chain, j + v.csize) == FileSector(v, chain[1..], j)
  {
    var q, r := j / v.csize, j % v.csize;
    DivModEq(j, v.csize);
    MulSucc(q, v.csize);
    DivModUnique(j + v.csize, v.csize, q + 1, r);
  }

  /** A byte of the file without its first cluster is the byte one cluster later. */
  lemma ShiftByte(d: Image, v: Volume, chain: seq<nat>, i: nat)
    requires v.csize > 0 && |chain| > 1
    ensures FileByte(d, v, chain, i + ClusterBytes(v)) == FileByte(d, v, chain[1..], i)
  {
    assert (i + ClusterBytes(v)) / 512 == i / 512 + v.csize;
    ShiftSector(v, chain, i / 512);
  }

  lemma ShiftOverwrite(was: byte, pos: nat, data: seq<byte>, i: nat, csize: nat, late: nat, p: nat)
    requires late == pos + csize * 512 && p == i + csize * 512
    ensures OverwriteByte(was, pos, data, i) == OverwriteByte(was, late, data, p)
  {
    assert RoundUp(late + |data|) == RoundUp(pos + |data|) + csize * 512;
  }

  lemma TailCovers(v: Volume, chain: seq<nat>, n: nat, i: nat)
    requires v.csize > 0 && |chain| > 1 && Covers(v, chain, n) && i + ClusterBytes(v) < n
    ensures Covers(v, chain[1..], i + 1)
  {
    CoversSector(v, chain, n, i + ClusterBytes(v));
    assert (i + ClusterBytes(v)) / 512 == i / 512 + v.csize;
    ShiftSector(v, chain, i / 512);
  }

  /** A sector of the first cluster is none of those of the other clusters. */
  lemma SlipApart(d: Image, v: Volume, chain: seq<nat>, n: nat, org: nat, end: nat, i: nat, k: nat, j: nat)
    requires FileOk(d, v, chain, n, org) && |chain| > 1 && k < v.csize
    requires Covers(v, chain[1..], end) && i < end && j == i / 512
    ensures FileSector(v, chain, k) != FileSector(v, chain[1..], j)
  {
    CoversSector(v, chain[1..], end, i);
    ShiftSector(v, chain, j);
    DivModUnique(k, v.csize, 0, k);
    FileSectorInjective(d, v, |d|, chain, k, j + v.csize);
  }

  /** Positions in the first cluster are out of reach of a write to the other ones. */
  lemma SlipSpares(d: Image, v: Volume, chain: seq<nat>, org: nat, pos: nat, data: seq<byte>, n: nat, i: nat, w: Image)
    requires FileOk(d, v, chain, n, org) && |chain| > 1 && i < n && i < ClusterBytes(v)
    requires Covers(v, chain[1..], pos + |data|) && w == WriteRun(d, v, chain[1..], pos, data)
    ensures FileByte(w, v, chain, i) == FileByte(d, v, chain, i)
  {
    var k := i / 512;
    CoversSector(v, chain, n, i);
    FileSectorInData(d, v, |d|, chain, k);
    if data != [] {
      forall j | pos <= 512 * j + 511 && 512 * j < pos + |data|
        ensures FileSector(v, chain, k) != FileSector(v, chain[1..], j)
      {
        var q := if 512 * j < pos then pos else 512 * j;
        assert q / 512 == j;
        SlipApart(d, v, chain, n, org, pos + |data|, q, k, j);
      }
      WriteRunFrame(d, v, chain[1..], pos, data, FileSector(v, chain, k));
    }
  }

  lemma SlipTail(d: Image, v: Volume, chain: seq<nat>, org: nat, pos: nat, data: seq<byte>, n: nat, i: nat, w: Image)
    returns (was: byte, now: byte)
    requires FileOk(d, v, chain, n, org) && |chain| > 1 && i + ClusterBytes(v) < n && pos + |data| <= n
    requires Covers(v, chain[1..], pos + |data|) && w == WriteRun(d, v, chain[1..], pos, data)
    ensures was == FileByte(d, v, chain[1..], i) && now == FileByte(w, v, chain[1..], i)
    ensures now == OverwriteByte(was, pos, data, i)
  {
    var m := if i < pos + |data| then pos + |data| else i + 1;
    TailCovers(v, chain, n, i);
    TailIsFile(d, v, chain, n, org, m);
    was := FileByte(d, v, chain[1..], i);
    now := WriteRunRest(d, v, chain[1..], m, chain[1], pos, data, i, w, was);
  }

  /** Positions in the other clusters change as by a write one cluster later. */
  lemma SlipMoves(d: Image, v: Volume, chain: seq<nat>, org: nat, pos: nat, data: seq<byte>, n: nat, i: nat, w: Image,
                  p: nat, late: nat)
    requires FileOk(d, v, chain, n, org) && |chain| > 1 && p == i + ClusterBytes(v) < n && pos + |data| <= n
    requires late == pos + ClusterBytes(v)
    requires Covers(v, chain[1..], pos + |data|) && w == WriteRun(d, v, chain[1..], pos, data)
    ensures FileByte(w, v, chain, p) == OverwriteByte(FileByte(d, v, chain, p), late, data, p)
  {
    var was, now := SlipTail(d, v, chain, org, pos, data, n, i, w);
    ShiftOverwrite(was, pos, data, i, v.csize, late, p);
    ShiftByte(d, v, chain, i);
    ShiftByte(w, v, chain, i);
  }

  lemma SlipByte(d: Image, v: Volume, chain: seq<nat>, org: nat, pos: nat, data: seq<byte>, n: nat, w: Image,
                 p: nat, late: nat)
    requires FileOk(d, v, chain, n, org) && |chain| > 1 && p < n && pos + |data| <= n && late == pos + ClusterBytes(v)
    requires Covers(v, chain[1..], pos + |data|) && w == WriteRun(d, v, chain[1..], pos, data)
    ensures FileByte(w, v, chain, p) == OverwriteByte(FileByte(d, v, chain, p), late, data, p)
  {
    if p < ClusterBytes(v) {
      SlipSpares(d, v, chain, org, pos, data, n, p, w);
    } else {
      SlipMoves(d, v, chain, org, pos, data, n, p - ClusterBytes(v), w, p, late);
    }
  }

  /** From a bad start the data lands exactly one cluster too far: the file's contents change
      as by a write at that later position. */
  lemma SlipContent(
      d: Image, v: Volume, chain: seq<nat>, org: nat, pos: nat, data: seq<byte>, n: nat, w: Image, late: nat)
    requires FileOk(d, v, chain, n, org) && |chain| > 1 && pos + |data| <= n && late == pos + ClusterBytes(v)
    requires Covers(v, chain[1..], pos + |data|) && w == WriteRun(d, v, chain[1..], pos, data)
    ensures Content(w, v, chain, n) == Overwrite(Content(d, v, chain, n), late, data)
  {
    forall p | 0 <= p < n
      ensures Content(w, v, chain, n)[p] == Overwrite(Content(d, v, chain, n), late, data)[p]
    {
      SlipByte(d, v, chain, org, pos, data, n, w, p, late);
    }
  }

  // ------------------------------------------------------------ an example

  /** A card of six sectors: a FAT12 table in sector 1 that links the clusters 2, 3 and 4, and
      their sectors 3, 4 and 5, which hold zeros. */
  ghost predicate ThreeClusters(d: Image, v: Volume) {
    && v == Volume(Fat12, 1, 0, 5, 1, 2, 3)
    && |d| == 6 && d[4] == Zeros(512)
    && d[1][3] == 3 && d[1][4] == 0x40 && d[1][5] == 0 && d[1][6] == 0xFF && d[1][7] == 0x0F
  }

  lemma ThreeCard() returns (d: Image, v: Volume)
    ensures ThreeClusters(d, v)
  {
    var blank, table := Zeros(512), Zeros(512)[3 := 3][4 := 0x40][6 := 0xFF][7 := 0x0F];
    d, v := [blank, table, blank, blank, blank, blank], Volume(Fat12, 1, 0, 5, 1, 2, 3);
  }

  lemma ThreeLinks(d: Image, v: Volume)
    requires ThreeClusters(d, v)
    ensures FatEntry(d, v, 2) == 3 && FatEntry(d, v, 3) == 4 && FatEntry(d, v, 4) == 0xFFF
  {}

  lemma ThreeFile(d: Image, v: Volume, chain: seq<nat>)
    requires ThreeClusters(d, v) && chain == [2, 3, 4]
    ensures FileOk(d, v, chain, 1536, 2) && CursorOk(v, chain, 600, 3, 4)
    ensures !FreshStartOk(v, 600) && SlipFits(v, chain, 1536, 600, [1])
  {
    ThreeLinks(d, v);
    forall i | 0 <= i < 3 ensures Linked(d, v, chain, i) {}
  }

  lemma ThreeSlip(d: Image, v: Volume, chain: seq<nat>, w: Image)
    requires ThreeClusters(d, v) && chain == [2, 3, 4] && w == WriteRun(d, v, chain[1..], 512, [1])
    ensures Content(w, v, chain, 1536)[512] == 0 && Content(w, v, chain, 1536)[1024] == 1
  {
    ThreeFile(d, v, chain);
    SlipContent(d, v, chain, 2, 512, [1], 1536, w, 1024);
  }

  /** A write of one byte at position 600 of that file begins at position 512.  It succeeds and
      leaves the byte there as it was: the byte goes to position 1024. */
  lemma SlipExample() returns (d: Image, v: Volume, chain: seq<nat>, w: Image)
    ensures FileOk(d, v, chain, 1536, 2) && CursorOk(v, chain, 600, 3, 4)
    ensures !FreshStartOk(v, 600) && SlipFits(v, chain, 1536, 600, [1])
    ensures Slipped(Progress(d, 600, false), Progress(w, 513, true), v, chain, 1536, [1])
    ensures Content(w, v, chain, 1536)[512] == 0 && Content(w, v, chain, 1536)[1024] == 1
  {
    d, v := ThreeCard();
    chain := [2, 3, 4];
    w := WriteRun(d, v, chain[1..], 512, [1]);
    ThreeFile(d, v, chain);
    ThreeSlip(d, v, chain, w);
  }
}
