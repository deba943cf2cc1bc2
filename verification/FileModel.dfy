/** What the file operations mean, as functions of the card image and of the
    file's contents, independent of the cursor that the code keeps. */
module FileModel {
  import opened Bits
  import opened Card
  import opened FatVolume

  /** chain holds a file of n bytes that starts at cluster org. */
  ghost predicate FileOk(d: Image, v: Volume, chain: seq<nat>, n: nat, org: nat) {
    && Sound(v, |d|)
    && IsChain(d, v, chain)
    && Covers(v, chain, n)
    && (chain != [] ==> org == chain[0])
    && n < 0x1_0000_0000
  }

  // ------------------------------------------------------------ the cursor

  /** The cursor fields agree with the chain: curr is the cluster of the byte before
      fptr, and inside a sector dsect is the sector of fptr. */
  ghost predicate CursorOk(v: Volume, chain: seq<nat>, fptr: nat, curr: nat, dsect: nat)
    requires v.csize > 0
  {
    && (fptr > 0 ==> (fptr - 1) / 512 / v.csize < |chain| && curr == chain[(fptr - 1) / 512 / v.csize])
    && (fptr % 512 != 0 ==> dsect == FileSector(v, chain, fptr / 512))
  }

  /** The cluster that pf_read and pf_write select on a sector boundary. */
  function ChosenCluster(d: Image, v: Volume, org: nat, curr: nat, fptr: nat): nat
    requires v.csize > 0
  {
    if fptr / 512 % v.csize != 0 then curr
    else if fptr == 0 then org
    else FatEntry(d, v, curr)
  }

  lemma ChosenIsChain(d: Image, v: Volume, chain: seq<nat>, fptr: nat, curr: nat, dsect: nat)
    requires v.csize > 0 && IsChain(d, v, chain) && CursorOk(v, chain, fptr, curr, dsect)
    requires fptr % 512 == 0 && chain != [] && fptr / 512 / v.csize < |chain|
    ensures ChosenCluster(d, v, chain[0], curr, fptr) == chain[fptr / 512 / v.csize]
  {
    var j := fptr / 512;
    if j > 0 {
      assert (fptr - 1) / 512 == j - 1;
      DivPred(j, v.csize);
      assert Linked(d, v, chain, (j - 1) / v.csize);
    }
  }

  /** So on a sector boundary the code finds the sector that holds fptr. */
  lemma ChosenIsSector(d: Image, v: Volume, chain: seq<nat>, n: nat, org: nat, fptr: nat, curr: nat, dsect: nat)
    requires FileOk(d, v, chain, n, org)
    requires CursorOk(v, chain, fptr, curr, dsect) && fptr % 512 == 0 && fptr < n
    ensures var c := ChosenCluster(d, v, org, curr, fptr);
            && c > 1 && Clust2Sect(v, c) != 0
            && Located(d, v, chain, fptr, c, Clust2Sect(v, c) + fptr / 512 % v.csize)
  {
    CoversSector(v, chain, n, fptr);
    ChosenIsChain(d, v, chain, fptr, curr, dsect);
    SectorOfChain(d, v, chain, fptr / 512, fptr / 512 / v.csize);
  }

  lemma SectorOfChain(d: Image, v: Volume, chain: seq<nat>, j: nat, k: nat)
    requires Sound(v, |d|) && IsChain(d, v, chain) && k == j / v.csize < |chain|
    ensures chain[k] > 1 && Clust2Sect(v, chain[k]) != 0
    ensures FileSector(v, chain, j) == Clust2Sect(v, chain[k]) + j % v.csize
    ensures v.database <= FileSector(v, chain, j) < |d|
  {
    Clust2SectExact(v, chain[k], |d|);
    FileSectorInData(d, v, |d|, chain, j);
  }

  /** The cursor is in the sector that holds fptr. */
  ghost predicate Located(d: Image, v: Volume, chain: seq<nat>, fptr: nat, curr: nat, dsect: nat) {
    && v.csize > 0
    && fptr / 512 / v.csize < |chain|
    && curr == chain[fptr / 512 / v.csize]
    && dsect == FileSector(v, chain, fptr / 512)
    && v.database <= dsect < |d|
  }

  lemma CursorAdvance(d: Image, v: Volume, chain: seq<nat>, fptr: nat, n: nat, curr: nat, dsect: nat)
    requires Located(d, v, chain, fptr, curr, dsect)
    requires 1 <= n <= 512 - fptr % 512
    ensures CursorOk(v, chain, fptr + n, curr, dsect)
  {
    assert (fptr + n - 1) / 512 == fptr / 512;
  }

  /** Inside a sector the cursor is already there. */
  lemma CursorInside(d: Image, v: Volume, chain: seq<nat>, n: nat, org: nat, fptr: nat, curr: nat, dsect: nat)
    requires FileOk(d, v, chain, n, org)
    requires CursorOk(v, chain, fptr, curr, dsect) && fptr % 512 != 0
    ensures Located(d, v, chain, fptr, curr, dsect)
  {
    assert (fptr - 1) / 512 == fptr / 512;
    FileSectorInData(d, v, |d|, chain, fptr / 512);
  }

  function RoundDown(fptr: nat): nat {
    fptr - fptr % 512
  }

  /** Whether a fresh write may start here: not inside the first sector of a cluster
      other than the file's first. */
  predicate FreshStartOk(v: Volume, fptr: nat)
    requires v.csize > 0
  {
    fptr % 512 == 0 || fptr < 512 || fptr / 512 % v.csize != 0
  }

  /** pf_write rounds fptr down but leaves the cluster where it was.  It then selects
      the cluster of the rounded position exactly when FreshStartOk holds. */
  lemma RoundDownExact(d: Image, v: Volume, chain: seq<nat>, fptr: nat, curr: nat, dsect: nat)
    requires v.csize > 0 && IsChain(d, v, chain) && CursorOk(v, chain, fptr, curr, dsect)
    requires chain != [] && fptr / 512 / v.csize < |chain|
    ensures ChosenCluster(d, v, chain[0], curr, RoundDown(fptr)) == chain[fptr / 512 / v.csize]
            <==> FreshStartOk(v, fptr)
  {
    var j, p := fptr / 512, RoundDown(fptr);
    assert p == 512 * j && p / 512 == j;
    if fptr % 512 == 0 {
      ChosenIsChain(d, v, chain, fptr, curr, dsect);
    } else {
      assert (fptr - 1) / 512 == j;
      var k := j / v.csize;
      assert Linked(d, v, chain, k);
      assert FatEntry(d, v, curr) != chain[k];
      assert p == 0 ==> k == 0;
    }
  }

  lemma RoundDownCursor(v: Volume, chain: seq<nat>, fptr: nat, curr: nat, dsect: nat)
    requires v.csize > 0 && CursorOk(v, chain, fptr, curr, dsect) && FreshStartOk(v, fptr)
    ensures CursorOk(v, chain, RoundDown(fptr), curr, dsect)
  {
    var j := fptr / 512;
    if fptr % 512 != 0 && j > 0 {
      assert (fptr - 1) / 512 == j && (RoundDown(fptr) - 1) / 512 == j - 1;
      DivPred(j, v.csize);
    }
  }

  lemma RoundDownAligned(fptr: nat)
    ensures RoundDown(fptr) % 512 == 0 && RoundDown(fptr) <= fptr
  {}

  lemma MaskSector(fptr: nat)
    requires fptr < 0x1_0000_0000
    ensures BitAnd(fptr, 0xFFFF_FE00) == RoundDown(fptr)
  {
    Pow2Of32();
    assert Pow2(9) == 512;
    AndHighMask(fptr, 9, 32);
  }

  lemma NextClusterSector(v: Volume, chain: seq<nat>, j: nat)
    requires v.csize > 0 && j % v.csize == 0 && j / v.csize + 1 < |chain|
    ensures (j + v.csize) / v.csize == j / v.csize + 1
    ensures FileSector(v, chain, j + v.csize) == Clust2Sect(v, chain[j / v.csize + 1])
  {
    var k := j / v.csize;
    DivModEq(j, v.csize);
    MulSucc(k, v.csize);
    DivModUnique(j + v.csize, v.csize, k + 1, 0);
  }

  lemma RoundDownSteps(d: Image, v: Volume, chain: seq<nat>, org: nat, fptr: nat, curr: nat, dsect: nat, j: nat)
    requires v.csize > 0 && CursorOk(v, chain, fptr, curr, dsect) && !FreshStartOk(v, fptr) && j == fptr / 512
    ensures j % v.csize == 0 && j / v.csize < |chain| && curr == chain[j / v.csize]
    ensures ChosenCluster(d, v, org, curr, RoundDown(fptr)) == FatEntry(d, v, curr)
  {
    var p := RoundDown(fptr);
    assert p / 512 == j && (fptr - 1) / 512 == j && p > 0;
  }

  /** Outside FreshStartOk the write lands exactly one cluster too far, or, in the
      last cluster of the file, finds no sector at all. */
  lemma RoundDownWrong(d: Image, v: Volume, chain: seq<nat>, n: nat, org: nat, fptr: nat, curr: nat, dsect: nat, j: nat)
    requires FileOk(d, v, chain, n, org) && CursorOk(v, chain, fptr, curr, dsect)
    requires !FreshStartOk(v, fptr) && j == fptr / 512
    ensures var sect := Clust2Sect(v, ChosenCluster(d, v, org, curr, RoundDown(fptr)));
            if j / v.csize + 1 < |chain|
            then sect == FileSector(v, chain, j + v.csize) != FileSector(v, chain, j)
            else sect == 0
  {
    RoundDownSteps(d, v, chain, org, fptr, curr, dsect, j);
    NextSector(d, v, chain, j, j / v.csize, FatEntry(d, v, curr));
  }

  lemma NextSector(d: Image, v: Volume, chain: seq<nat>, j: nat, k: nat, e: nat)
    requires Sound(v, |d|) && IsChain(d, v, chain) && j % v.csize == 0 && k == j / v.csize < |chain|
    requires e == FatEntry(d, v, chain[k])
    ensures if k + 1 < |chain|
            then Clust2Sect(v, e) == FileSector(v, chain, j + v.csize) != FileSector(v, chain, j)
            else Clust2Sect(v, e) == 0
  {
    assert Linked(d, v, chain, k);
    if k + 1 < |chain| {
      NextClusterSector(v, chain, j);
      FileSectorInjective(d, v, |d|, chain, j, j + v.csize);
    } else {
      Clust2SectExact(v, e, |d|);
    }
  }

  /** A file of n bytes fills its chain. */
  ghost predicate Fills(v: Volume, chain: seq<nat>, n: nat) {
    chain != [] && n == |chain| * ClusterBytes(v)
  }

  lemma FillsAt(v: Volume, chain: seq<nat>, n: nat)
    requires v.csize > 0 && Fills(v, chain, n)
    ensures n > 0 && n % 512 == 0 && (n - 1) / 512 / v.csize == |chain| - 1
    ensures n / 512 / v.csize == |chain| && n / 512 % v.csize == 0
  {
    MulSucc(|chain| - 1, ClusterBytes(v));
    SeekEnd(v, |chain| - 1, ClusterBytes(v));
    assert n == 512 * (|chain| * v.csize);
    DivModUnique(n / 512, v.csize, |chain|, 0);
  }

  /** Behind the last cluster of the chain the code finds no sector. */
  lemma ChosenIsNone(d: Image, v: Volume, chain: seq<nat>, n: nat, org: nat, fptr: nat, curr: nat, dsect: nat)
    requires FileOk(d, v, chain, n, org) && CursorOk(v, chain, fptr, curr, dsect) && Fills(v, chain, fptr)
    ensures Clust2Sect(v, ChosenCluster(d, v, org, curr, fptr)) == 0
  {
    FillsAt(v, chain, fptr);
    assert Linked(d, v, chain, |chain| - 1);
    Clust2SectExact(v, FatEntry(d, v, curr), |d|);
  }

  /** One pass of the loop of pf_write stays in a file of n bytes. */
  predicate Passes(n: nat, fptr: nat, size: nat) {
    fptr + Min(512 - fptr % 512, size) <= n
  }

  /** One pass of the loop of pf_write stays in the file, unless it starts behind its chain. */
  lemma PassFits(v: Volume, chain: seq<nat>, n: nat, fptr: nat, size: nat)
    requires v.csize > 0 && fptr <= n && (fptr + size <= n || Fills(v, chain, n))
    ensures Passes(n, fptr, size) || (Fills(v, chain, fptr) && fptr % 512 == 0)
  {
    if fptr + size > n {
      assert n == 512 * (|chain| * v.csize);
    }
  }

  /** The cursor's cluster is the one that following the chain from its start leads to. */
  lemma CursorIsWalk(d: Image, v: Volume, chain: seq<nat>, n: nat, org: nat, fptr: nat, curr: nat, dsect: nat, j: nat)
    requires FileOk(d, v, chain, n, org) && CursorOk(v, chain, fptr, curr, dsect) && 0 < fptr <= n
    requires j == (fptr - 1) / 512 / v.csize
    ensures curr == Walk(d, v, org, j)
  {
    WalkIsChain(d, v, chain, j);
  }

  // ---------------------------------------------------------------- seeking

  function ClusterBytes(v: Volume): nat {
    v.csize * 512
  }

  /** Division by the cluster size, in one step and in two. */
  lemma ByCluster(i: nat, v: Volume)
    requires v.csize > 0
    ensures ClusterBytes(v) > 0 && i / ClusterBytes(v) == i / 512 / v.csize
  {
    DivDiv(i, 512, v.csize);
  }

  lemma ClusterLog(v: Volume) returns (k: nat)
    requires GoodCsize(v.csize)
    ensures k <= 16 && ClusterBytes(v) == Pow2(k)
  {
    var j := CsizeLog(v.csize);
    k := j + 9;
    Pow2Add(j, 9);
    assert Pow2(9) == 512;
  }

  /** pf_lseek clears the low bits of ifptr - 1: that is the start of its cluster. */
  lemma SeekStart(v: Volume, x: nat)
    requires GoodCsize(v.csize) && x < 0x1_0000_0000
    ensures ClusterBytes(v) <= 0x1_0000_0000
    ensures BitAnd(x, 0x1_0000_0000 - ClusterBytes(v)) == x / 512 / v.csize * ClusterBytes(v)
  {
    var k := ClusterLog(v);
    Pow2Of32();
    AndHighMask(x, k, 32);
    ByCluster(x, v);
    DivModEq(x, ClusterBytes(v));
  }

  /** The shortcut of pf_lseek, taken when the target's cluster is not before the
      current one: the current cluster starts before the target. */
  lemma SeekResume(v: Volume, ifptr: nat, ofs: nat, m: nat)
    requires GoodCsize(v.csize) && 0 < ifptr <= 0x1_0000_0000 && 0 < ofs
    requires ClusterBytes(v) > 0 && (ofs - 1) / ClusterBytes(v) >= (ifptr - 1) / ClusterBytes(v)
    requires m == (ifptr - 1) / 512 / v.csize
    ensures ClusterBytes(v) <= 0x1_0000_0000
    ensures BitAnd(ifptr - 1, 0x1_0000_0000 - ClusterBytes(v)) == m * ClusterBytes(v) < ofs
  {
    SeekStart(v, ifptr - 1);
    ByCluster(ifptr - 1, v);
    MulLe(m, (ofs - 1) / ClusterBytes(v), ClusterBytes(v));
    DivModEq(ofs - 1, ClusterBytes(v));
  }

  lemma Pow2Of32()
    ensures Pow2(32) == 0x1_0000_0000
  {
    assert Pow2(8) == 256;
    Pow2Add(8, 8);
    Pow2Add(16, 16);
  }

  /** A position rest bytes behind the start of cluster m, rest at most a cluster, ends in m. */
  lemma SeekEnd(v: Volume, m: nat, rest: nat)
    requires v.csize > 0 && 0 < rest <= ClusterBytes(v)
    ensures m * ClusterBytes(v) + rest > 0
    ensures (m * ClusterBytes(v) + rest - 1) / 512 / v.csize == m
  {
    ByCluster(m * ClusterBytes(v) + rest - 1, v);
    DivModUnique(m * ClusterBytes(v) + rest - 1, ClusterBytes(v), m, rest - 1);
  }

  /** If more than a cluster is left there is a next cluster. */
  lemma SeekMore(v: Volume, chain: seq<nat>, n: nat, m: nat, rest: nat)
    requires v.csize > 0 && Covers(v, chain, n)
    requires rest > ClusterBytes(v) && m * ClusterBytes(v) + rest <= n
    ensures m + 1 < |chain|
  {
    var i := (m + 1) * ClusterBytes(v);
    CoversSector(v, chain, n, i);
    ByCluster(i, v);
    DivModUnique(i, ClusterBytes(v), m + 1, 0);
  }

  /** Wherever a seek ends, the sector it computes from its cluster is the right one. */
  lemma SeekCursor(d: Image, v: Volume, chain: seq<nat>, n: nat, org: nat, fptr: nat, curr: nat)
    requires FileOk(d, v, chain, n, org) && fptr > 0 && (fptr - 1) / 512 / v.csize < |chain|
    requires curr == chain[(fptr - 1) / 512 / v.csize]
    ensures Clust2Sect(v, curr) != 0
    ensures CursorOk(v, chain, fptr, curr, Clust2Sect(v, curr) + fptr / 512 % v.csize)
  {
    Clust2SectExact(v, curr, |d|);
    if fptr % 512 != 0 {
      assert (fptr - 1) / 512 == fptr / 512;
    }
  }

  // ---------------------------------------------------------------- reading

  /** Part of the sector that the cursor is in is the file's bytes at that position. */
  lemma SectorSlice(d: Image, v: Volume, chain: seq<nat>, n: nat, fptr: nat, curr: nat, dsect: nat, cnt: nat)
    requires Located(d, v, chain, fptr, curr, dsect)
    requires fptr % 512 + cnt <= 512 && fptr + cnt <= n
    ensures d[dsect][fptr % 512..fptr % 512 + cnt] == Content(d, v, chain, n)[fptr..fptr + cnt]
  {
    var o := fptr % 512;
    var a, b := d[dsect][o..o + cnt], Content(d, v, chain, n)[fptr..fptr + cnt];
    forall i | 0 <= i < cnt ensures a[i] == b[i] {
      var p := fptr + i;
      assert p / 512 == fptr / 512 && p % 512 == o + i;
      assert b[i] == FileByte(d, v, chain, p);
    }
  }

  /** So reading there delivers the file's bytes and keeps the cursor good. */
  lemma ReadsHere(d: Image, v: Volume, chain: seq<nat>, n: nat, fptr: nat, curr: nat, dsect: nat, cnt: nat,
                  bytes: seq<byte>)
    requires Located(d, v, chain, fptr, curr, dsect) && bytes == Content(d, v, chain, n)
    requires 1 <= cnt <= 512 - fptr % 512 && fptr + cnt <= n
    ensures dsect < |d| && d[dsect][fptr % 512..fptr % 512 + cnt] == bytes[fptr..fptr + cnt]
    ensures CursorOk(v, chain, fptr + cnt, curr, dsect)
  {
    SectorSlice(d, v, chain, n, fptr, curr, dsect, cnt);
    CursorAdvance(d, v, chain, fptr, cnt, curr, dsect);
  }

  /** What a read of at most btr bytes delivers. */
  function ReadSpec(content: seq<byte>, fptr: nat, btr: nat): seq<byte>
    requires fptr <= |content|
  {
    content[fptr..fptr + Min(btr, |content| - fptr)]
  }

  lemma SliceOf(s: seq<byte>, a: nat, k: nat)
    requires a + k <= |s|
    ensures s[a..][..k] == s[a..a + k]
  {}

  lemma SliceJoin(s: seq<byte>, a: nat, b: nat, c: nat)
    requires a <= b <= c <= |s|
    ensures s[a..c] == s[a..b] + s[b..c]
  {}

  /** Reads of sum bytes in all have come from start to now and forwarded what lies between. */
  ghost predicate HasRead(bytes: seq<byte>, start: nat, now: nat, sum: nat, stream: seq<byte>, out: seq<byte>) {
    && start <= now <= |bytes|
    && bytes[start..now] == ReadSpec(bytes, start, sum) && out == stream + bytes[start..now]
  }

  /** One more read. */
  lemma ReadMore(bytes: seq<byte>, start: nat, mid: nat, now: nat, sum: nat, size: nat, stream: seq<byte>,
                 was: seq<byte>, out: seq<byte>)
    requires HasRead(bytes, start, mid, sum, stream, was)
    requires now == mid + Min(size, |bytes| - mid) && out == was + bytes[mid..now]
    ensures HasRead(bytes, start, now, sum + size, stream, out)
  {
    ReadTwice(bytes, start, sum, size, bytes[start..mid], mid);
    SliceJoin(bytes, start, mid, now);
  }

  function Sum(sizes: seq<nat>): nat {
    if sizes == [] then 0 else sizes[0] + Sum(sizes[1..])
  }

  lemma {:induction false} SumMore(sizes: seq<nat>, k: nat)
    requires k < |sizes|
    ensures Sum(sizes[..k + 1]) == Sum(sizes[..k]) + sizes[k]
  {
    if k > 0 {
      SumMore(sizes[1..], k - 1);
      assert sizes[1..][..k] == sizes[..k + 1][1..] && sizes[1..][..k - 1] == sizes[..k][1..];
    }
  }

  /** A read that goes on where another ended: both together are one. */
  lemma ReadTwice(content: seq<byte>, fptr: nat, a: nat, b: nat, first: seq<byte>, next: nat)
    requires fptr <= |content| && first == ReadSpec(content, fptr, a) && next == fptr + |first|
    ensures first + ReadSpec(content, next, b) == ReadSpec(content, fptr, a + b)
  {}

  // ---------------------------------------------------------------- writing

  /** A sector after part was sent into it from offset o on and the rest zero-filled. */
  function Patch(sec: Sector, o: nat, part: seq<byte>): Sector
    requires o + |part| <= 512
  {
    sec[..o] + part + Zeros(512 - o - |part|)
  }

  function PatchFile(d: Image, v: Volume, chain: seq<nat>, pos: nat, part: seq<byte>): (d': Image)
    requires pos % 512 + |part| <= 512
    ensures |d'| == |d|
  {
    var s := FileSector(v, chain, pos / 512);
    if s < |d| then d[s := Patch(d[s], pos % 512, part)] else d
  }

  /** The image after data was written sector by sector from file position pos on. */
  function WriteRun(d: Image, v: Volume, chain: seq<nat>, pos: nat, data: seq<byte>): (d': Image)
    ensures |d'| == |d|
    decreases |data|
  {
    if data == [] then d
    else
      var n := Min(512 - pos % 512, |data|);
      WriteRun(PatchFile(d, v, chain, pos, data[..n]), v, chain, pos + n, data[n..])
  }

  /** Sending part into the data block that is open on the sector of pos. */
  lemma SettlePatch(d: Image, v: Volume, chain: seq<nat>, pos: nat, lba: nat, got: seq<byte>, part: seq<byte>)
    requires lba == FileSector(v, chain, pos / 512) < |d|
    requires |got| == pos % 512 && |got| + |part| <= 512
    ensures Settle(d, Receiving(lba, got + part)) == PatchFile(Settle(d, Receiving(lba, got)), v, chain, pos, part)
  {
    var d1 := Settle(d, Receiving(lba, got));
    assert d1[lba][..|got|] == got;
    assert Patch(d1[lba], |got|, part) == got + part + Zeros(512 - |got| - |part|);
  }

  /** Opening a data block on a whole sector loses nothing that a write would keep. */
  lemma OpenPatch(d: Image, v: Volume, chain: seq<nat>, pos: nat, lba: nat, part: seq<byte>)
    requires lba == FileSector(v, chain, pos / 512) < |d|
    requires pos % 512 == 0 && |part| <= 512
    ensures PatchFile(Settle(d, Receiving(lba, [])), v, chain, pos, part) == PatchFile(d, v, chain, pos, part)
  {
    var d1 := Settle(d, Receiving(lba, []));
    assert Patch(d1[lba], 0, part) == Patch(d[lba], 0, part);
  }

  lemma SectorRest(pos: nat, n: nat)
    requires n <= 512 - pos % 512
    ensures (pos + n) % 512 == 0 <==> n == 512 - pos % 512 || pos % 512 + n == 0
    ensures n < 512 - pos % 512 ==> (pos + n) % 512 == pos % 512 + n
  {}

  /** Sending part into the sector of pos, whether the block was just opened on it or
      had been open: the settled image changes from before to PatchFile(before, ...). */
  lemma SendSettles(d: Image, before: Image, v: Volume, chain: seq<nat>, n: nat, org: nat,
                    pos: nat, curr: nat, dsect: nat, got: seq<byte>, part: seq<byte>, after: Image)
    requires FileOk(before, v, chain, n, org) && pos + |part| <= n
    requires Located(d, v, chain, pos, curr, dsect)
    requires |got| == pos % 512 && 1 <= |part| <= 512 - |got|
    requires before == if got == [] then d else Settle(d, Receiving(dsect, got))
    requires after == Settle(d, Receiving(dsect, got + part))
    ensures after == PatchFile(before, v, chain, pos, part) && FileOk(after, v, chain, n, org)
    ensures CursorOk(v, chain, pos + |part|, curr, dsect)
  {
    SettlePatch(d, v, chain, pos, dsect, got, part);
    if got == [] { OpenPatch(d, v, chain, pos, dsect, part); }
    PatchKeepsFile(before, v, chain, n, org, pos, part);
    CursorAdvance(d, v, chain, pos, |part|, curr, dsect);
  }

  function RoundUp(x: nat): nat {
    (x + 511) / 512 * 512
  }

  function OverwriteByte(was: byte, pos: nat, data: seq<byte>, i: nat): byte {
    if pos <= i < pos + |data| then data[i - pos]
    else if data != [] && pos + |data| <= i < RoundUp(pos + |data|) then 0
    else was
  }

  /** File contents after a write: data in place, the rest of the last sector
      touched zero, everything else as before. */
  function Overwrite(c: seq<byte>, pos: nat, data: seq<byte>): (r: seq<byte>)
    ensures |r| == |c|
  {
    seq(|c|, i requires 0 <= i < |c| => OverwriteByte(c[i], pos, data, i))
  }

  lemma OverwriteByteTwice(was: byte, pos: nat, a: seq<byte>, b: seq<byte>, i: nat)
    ensures OverwriteByte(OverwriteByte(was, pos, a, i), pos + |a|, b, i) == OverwriteByte(was, pos, a + b, i)
  {
    DivMono(pos + |a| + 511, pos + |a| + |b| + 511, 512);
  }

  /** Writing twice in a row is writing once: the zeros that the first write put
      behind its data are the ones the second replaces or keeps. */
  lemma TwoOverwrites(b0: byte, b1: byte, b2: byte, pos: nat, a: seq<byte>, b: seq<byte>, i: nat)
    requires b1 == OverwriteByte(b0, pos, a, i) && b2 == OverwriteByte(b1, pos + |a|, b, i)
    ensures b2 == OverwriteByte(b0, pos, a + b, i)
  {
    OverwriteByteTwice(b0, pos, a, b, i);
  }

  /** One sector's worth of data changes each byte of the file as Overwrite says. */
  lemma PatchByte(d: Image, v: Volume, chain: seq<nat>, n: nat, org: nat, pos: nat, part: seq<byte>, i: nat)
    requires FileOk(d, v, chain, n, org)
    requires part != [] && pos % 512 + |part| <= 512 && pos + |part| <= n && i < n
    ensures FileByte(PatchFile(d, v, chain, pos, part), v, chain, i)
         == OverwriteByte(FileByte(d, v, chain, i), pos, part, i)
  {
    CoversSector(v, chain, n, pos);
    CoversSector(v, chain, n, i);
    FileSectorInData(d, v, |d|, chain, pos / 512);
    assert RoundUp(pos + |part|) == 512 * (pos / 512) + 512;
    if i / 512 != pos / 512 {
      FileSectorInjective(d, v, |d|, chain, i / 512, pos / 512);
    }
  }

  lemma PatchKeepsFile(d: Image, v: Volume, chain: seq<nat>, n: nat, org: nat, pos: nat, part: seq<byte>)
    requires FileOk(d, v, chain, n, org) && pos < n && pos % 512 + |part| <= 512
    ensures FileOk(PatchFile(d, v, chain, pos, part), v, chain, n, org)
  {
    CoversSector(v, chain, n, pos);
    FileSectorInData(d, v, |d|, chain, pos / 512);
    ChainFrame(d, PatchFile(d, v, chain, pos, part), v, |d|, chain);
  }

  /** The first sector of a write, with the images and the two parts of the data named. */
  lemma WriteRunStep(d: Image, v: Volume, chain: seq<nat>, pos: nat, data: seq<byte>, w: Image)
    returns (k: nat, head: seq<byte>, tail: seq<byte>, d1: Image)
    requires data != [] && w == WriteRun(d, v, chain, pos, data)
    ensures 0 < k == |head| <= 512 - pos % 512 && data == head + tail
    ensures d1 == PatchFile(d, v, chain, pos, head)
    ensures w == WriteRun(d1, v, chain, pos + k, tail)
  {
    k := Min(512 - pos % 512, |data|);
    head, tail := data[..k], data[k..];
    d1 := PatchFile(d, v, chain, pos, head);
  }

  lemma PatchTwice(d: Image, v: Volume, chain: seq<nat>, pos: nat, a: seq<byte>, b: seq<byte>)
    requires pos % 512 + |a| + |b| <= 512 && (pos + |a|) / 512 == pos / 512
    ensures (pos + |a|) % 512 == pos % 512 + |a|
    ensures PatchFile(PatchFile(d, v, chain, pos, a), v, chain, pos + |a|, b) == PatchFile(d, v, chain, pos, a + b)
  {
    var x, o := FileSector(v, chain, pos / 512), pos % 512;
    if x < |d| { PatchAgain(d[x], o, a, b); }
  }

  lemma PatchAgain(sec: Sector, o: nat, a: seq<byte>, b: seq<byte>)
    requires o + |a| + |b| <= 512
    ensures Patch(Patch(sec, o, a), o + |a|, b) == Patch(sec, o, a + b)
  {}

  /** A write inside one sector. */
  lemma OnePatch(d: Image, v: Volume, chain: seq<nat>, pos: nat, data: seq<byte>)
    requires data != [] && |data| <= 512 - pos % 512
    ensures WriteRun(d, v, chain, pos, data) == PatchFile(d, v, chain, pos, data)
  {
    assert data[..|data|] == data && data[|data|..] == [];
  }

  /** A write that fills the first sector goes on from the next. */
  lemma FirstSector(d: Image, v: Volume, chain: seq<nat>, pos: nat, data: seq<byte>, room: nat, d1: Image,
                    tail: seq<byte>)
    requires room == 512 - pos % 512 <= |data| && tail == data[room..]
    requires d1 == PatchFile(d, v, chain, pos, data[..room])
    ensures WriteRun(d, v, chain, pos, data) == WriteRun(d1, v, chain, pos + room, tail)
  {}

  /** The first sector of two writes one behind the other, if the first one fills it. */
  lemma AppendBeyond(d: Image, v: Volume, chain: seq<nat>, pos: nat, a: seq<byte>, b: seq<byte>, room: nat)
    returns (d1: Image, rest: seq<byte>)
    requires room == 512 - pos % 512 <= |a|
    ensures |rest| == |a| - room && WriteRun(d, v, chain, pos, a) == WriteRun(d1, v, chain, pos + room, rest)
    ensures WriteRun(d, v, chain, pos, a + b) == WriteRun(d1, v, chain, pos + room, rest + b)
  {
    d1, rest := PatchFile(d, v, chain, pos, a[..room]), a[room..];
    FirstSector(d, v, chain, pos, a, room, d1, rest);
    assert (a + b)[..room] == a[..room] && (a + b)[room..] == rest + b;
    FirstSector(d, v, chain, pos, a + b, room, d1, rest + b);
  }

  /** Two writes one behind the other are one. */
  lemma {:induction false} WriteRunAppend(d: Image, v: Volume, chain: seq<nat>, pos: nat, a: seq<byte>,
                                          next: nat, b: seq<byte>, w: Image, w': Image)
    requires w == WriteRun(d, v, chain, pos, a) && next == pos + |a| && w' == WriteRun(w, v, chain, next, b)
    ensures w' == WriteRun(d, v, chain, pos, a + b)
    decreases |a|
  {
    var room := 512 - pos % 512;
    if |a| >= room {
      var d1, rest := AppendBeyond(d, v, chain, pos, a, b, room);
      WriteRunAppend(d1, v, chain, pos + room, rest, next, b, w, w');
    } else if a == [] || b == [] {
      AppendNothing(d, v, chain, pos, a, b, w, w');
    } else {
      AppendInside(d, v, chain, pos, a, b, w, w');
    }
  }

  lemma AppendNothing(d: Image, v: Volume, chain: seq<nat>, pos: nat, a: seq<byte>, b: seq<byte>, w: Image, w': Image)
    requires a == [] || b == []
    requires w == WriteRun(d, v, chain, pos, a) && w' == WriteRun(w, v, chain, pos + |a|, b)
    ensures w' == WriteRun(d, v, chain, pos, a + b)
  {
    assert a + b == if a == [] then b else a;
  }

  lemma AppendInside(d: Image, v: Volume, chain: seq<nat>, pos: nat, a: seq<byte>, b: seq<byte>, w: Image, w': Image)
    requires a != [] && b != [] && |a| < 512 - pos % 512
    requires w == WriteRun(d, v, chain, pos, a) && w' == WriteRun(w, v, chain, pos + |a|, b)
    ensures w' == WriteRun(d, v, chain, pos, a + b)
  {
    OnePatch(d, v, chain, pos, a);
    assert (pos + |a|) / 512 == pos / 512 && (pos + |a|) % 512 == pos % 512 + |a|;
    var k := Min(512 - pos % 512 - |a|, |b|);
    PatchTwice(d, v, chain, pos, a, b[..k]);
    assert (a + b)[..|a| + k] == a + b[..k] && (a + b)[|a| + k..] == b[k..];
  }

  /** One more pass of a write: the k bytes behind the first bw. */
  lemma WriteRunMore(d: Image, v: Volume, chain: seq<nat>, pos: nat, data: seq<byte>, bw: nat, k: nat,
                     now: nat, part: seq<byte>, w: Image, w': Image)
    requires bw + k <= |data| && k > 0 && part == data[bw..bw + k] && now == pos + bw && k <= 512 - now % 512
    requires w == WriteRun(d, v, chain, pos, data[..bw]) && w' == PatchFile(w, v, chain, now, part)
    ensures w' == WriteRun(d, v, chain, pos, data[..bw + k])
  {
    OnePatch(w, v, chain, now, part);
    WriteRunAppend(d, v, chain, pos, data[..bw], now, part, w, w');
    assert data[..bw] + part == data[..bw + k];
  }

  /** What the first sector of a write does to byte i of the file. */
  lemma WriteRunFirst(
      d: Image, v: Volume, chain: seq<nat>, n: nat, org: nat, pos: nat, data: seq<byte>, i: nat, w: Image)
    returns (head: seq<byte>, tail: seq<byte>, d1: Image, b0: byte, b1: byte)
    requires FileOk(d, v, chain, n, org) && data != []
    requires pos + |data| <= n && i < n && w == WriteRun(d, v, chain, pos, data)
    ensures head != [] && data == head + tail
    ensures FileOk(d1, v, chain, n, org) && w == WriteRun(d1, v, chain, pos + |head|, tail)
    ensures b0 == FileByte(d, v, chain, i) && b1 == FileByte(d1, v, chain, i) == OverwriteByte(b0, pos, head, i)
  {
    var k;
    k, head, tail, d1 := WriteRunStep(d, v, chain, pos, data, w);
    PatchKeepsFile(d, v, chain, n, org, pos, head);
    PatchByte(d, v, chain, n, org, pos, head, i);
    b0, b1 := FileByte(d, v, chain, i), FileByte(d1, v, chain, i);
  }

  lemma {:induction false} WriteRunByte(
      d: Image, v: Volume, chain: seq<nat>, n: nat, org: nat, pos: nat, data: seq<byte>, i: nat, w: Image)
    requires FileOk(d, v, chain, n, org)
    requires pos + |data| <= n && i < n && w == WriteRun(d, v, chain, pos, data)
    ensures FileByte(w, v, chain, i) == OverwriteByte(FileByte(d, v, chain, i), pos, data, i)
    decreases |data|, 0
  {
    if data != [] {
      var head, tail, d1, b0, b1 := WriteRunFirst(d, v, chain, n, org, pos, data, i, w);
      var b2 := WriteRunRest(d1, v, chain, n, org, pos + |head|, tail, i, w, b1);
      TwoOverwrites(b0, b1, b2, pos, head, tail, i);
    }
  }

  lemma {:induction false} WriteRunRest(
      d: Image, v: Volume, chain: seq<nat>, n: nat, org: nat, pos: nat, data: seq<byte>, i: nat, w: Image, b: byte)
    returns (b': byte)
    requires FileOk(d, v, chain, n, org) && b == FileByte(d, v, chain, i)
    requires pos + |data| <= n && i < n && w == WriteRun(d, v, chain, pos, data)
    ensures b' == FileByte(w, v, chain, i) == OverwriteByte(b, pos, data, i)
    decreases |data|, 1
  {
    WriteRunByte(d, v, chain, n, org, pos, data, i, w);
    b' := FileByte(w, v, chain, i);
  }

  /** The meaning of a write of any length. */
  lemma WriteRunContent(
      d: Image, v: Volume, chain: seq<nat>, n: nat, org: nat, pos: nat, data: seq<byte>, w: Image)
    requires FileOk(d, v, chain, n, org) && pos + |data| <= n
    requires w == WriteRun(d, v, chain, pos, data)
    ensures Content(w, v, chain, n) == Overwrite(Content(d, v, chain, n), pos, data)
  {
    forall i | 0 <= i < n
      ensures Content(w, v, chain, n)[i] == Overwrite(Content(d, v, chain, n), pos, data)[i]
    {
      WriteRunByte(d, v, chain, n, org, pos, data, i, w);
    }
  }

  /** A write touches no sector but those of the file positions it covers. */
  lemma {:induction false} WriteRunFrame(
      d: Image, v: Volume, chain: seq<nat>, pos: nat, data: seq<byte>, s: nat)
    requires s < |d|
    requires forall j :: pos <= 512 * j + 511 && 512 * j < pos + |data| ==> s != FileSector(v, chain, j)
    ensures WriteRun(d, v, chain, pos, data)[s] == d[s]
    decreases |data|
  {
    if data != [] {
      var n := Min(512 - pos % 512, |data|);
      assert s != FileSector(v, chain, pos / 512);
      WriteRunFrame(PatchFile(d, v, chain, pos, data[..n]), v, chain, pos + n, data[n..], s);
    }
  }

  lemma WriteRunBelowData(
      d: Image, v: Volume, chain: seq<nat>, n: nat, org: nat, pos: nat, data: seq<byte>, s: nat)
    requires FileOk(d, v, chain, n, org) && pos + |data| <= n && s < v.database
    ensures WriteRun(d, v, chain, pos, data)[s] == d[s]
  {
    if data != [] {
      forall j | pos <= 512 * j + 511 && 512 * j < pos + |data| ensures s != FileSector(v, chain, j) {
        var i := if 512 * j < pos then pos else 512 * j;
        assert i / 512 == j;
        CoversSector(v, chain, n, i);
        FileSectorInData(d, v, |d|, chain, j);
      }
      WriteRunFrame(d, v, chain, pos, data, s);
    }
  }

  /** A write leaves the allocation table, and so every chain, alone. */
  lemma WriteRunKeepsChain(
      d: Image, v: Volume, chain: seq<nat>, n: nat, org: nat, pos: nat, data: seq<byte>, w: Image, other: seq<nat>)
    requires FileOk(d, v, chain, n, org) && pos + |data| <= n && IsChain(d, v, other)
    requires w == WriteRun(d, v, chain, pos, data)
    ensures |w| == |d| && IsChain(w, v, other)
  {
    forall s | 0 <= s < v.database ensures d[s] == w[s] {
      WriteRunBelowData(d, v, chain, n, org, pos, data, s);
    }
    ChainFrame(d, w, v, |d|, other);
  }

  // --------------------------------------------------------- runs of writes

  /** Where a write starts. */
  function WriteStart(wip: bool, fptr: nat): nat {
    if wip then fptr else RoundDown(fptr)
  }

  /** What pf_write reads and changes: the image once the open sector is complete,
      the file pointer, and whether a sector is open. */
  datatype Progress = Progress(image: Image, fptr: nat, wip: bool)

  /** As much of data as fits into room. */
  function Fit(data: seq<byte>, room: nat): seq<byte> {
    if |data| <= room then data else data[..room]
  }

  /** A successful pf_write: with no data it only completes the open sector; otherwise
      as much data as fits into the file goes to the sectors from the start position
      on, and afterwards either a sector is open or fptr is aligned. */
  ghost predicate Wrote(s: Progress, t: Progress, v: Volume, chain: seq<nat>, fsize: nat, data: seq<byte>) {
    s.fptr <= fsize &&
    if data == [] then
      t == s.(wip := false)
    else
      var pos := WriteStart(s.wip, s.fptr);
      var part := Fit(data, fsize - pos);
      && t.image == WriteRun(s.image, v, chain, pos, part)
      && t.fptr == pos + |part|
      && (t.wip || t.fptr % 512 == 0)
  }

  /** Where a write goes: part from position pos on, to a file of size bytes with that chain;
      result is the image it leads to. */
  datatype Destination = Destination(chain: seq<nat>, size: nat, org: nat, pos: nat, part: seq<byte>, result: Image)

  ghost predicate Planned(s: Progress, v: Volume, fsize: nat, data: seq<byte>, g: Destination) {
    && g.pos == WriteStart(s.wip, s.fptr) <= fsize && g.part == Fit(data, fsize - g.pos)
    && g.result == WriteRun(s.image, v, g.chain, g.pos, g.part)
  }

  ghost predicate Leads(s: Progress, t: Progress, v: Volume, fsize: nat, data: seq<byte>, g: Destination) {
    && Planned(s, v, fsize, data, g)
    && t.image == g.result && t.fptr == g.pos + |g.part| && (t.wip || t.fptr % 512 == 0)
  }

  lemma WroteIs(s: Progress, t: Progress, v: Volume, chain: seq<nat>, fsize: nat, data: seq<byte>, g: Destination)
    requires s.fptr <= fsize && data != [] && g.chain == chain && Leads(s, t, v, fsize, data, g)
    ensures Wrote(s, t, v, chain, fsize, data)
  {}

  /** After a write either a sector is open or fptr is aligned, so the next one starts there. */
  lemma StartAligned(m: Progress)
    requires m.wip || m.fptr % 512 == 0
    ensures WriteStart(m.wip, m.fptr) == m.fptr
  {}

  lemma FitAppend(a: seq<byte>, b: seq<byte>, room: nat, x: seq<byte>, rest: nat, y: seq<byte>)
    requires x == Fit(a, room) && rest == room - |x| && y == Fit(b, rest)
    ensures Fit(a + b, room) == x + y
  {}

  /** Two successive writes are one write of the joined data. */
  lemma WroteJoin(s: Progress, m: Progress, t: Progress, v: Volume, chain: seq<nat>, fsize: nat,
                  a: seq<byte>, b: seq<byte>)
    requires a != [] && b != [] && Wrote(s, m, v, chain, fsize, a) && Wrote(m, t, v, chain, fsize, b)
    ensures Wrote(s, t, v, chain, fsize, a + b)
  {
    var pos, x := WroteParts(s, m, v, chain, fsize, a);
    var mid, y := WroteParts(m, t, v, chain, fsize, b);
    StartAligned(m);
    JoinParts(s, m, t, v, chain, fsize, a, b, pos, x, y);
  }

  lemma JoinParts(s: Progress, m: Progress, t: Progress, v: Volume, chain: seq<nat>, fsize: nat,
                  a: seq<byte>, b: seq<byte>, pos: nat, x: seq<byte>, y: seq<byte>)
    requires a != [] && pos == WriteStart(s.wip, s.fptr) <= s.fptr <= fsize && x == Fit(a, fsize - pos)
    requires m.image == WriteRun(s.image, v, chain, pos, x)
    requires m.fptr == pos + |x| <= fsize && y == Fit(b, fsize - m.fptr)
    requires t.image == WriteRun(m.image, v, chain, m.fptr, y) && t.fptr == m.fptr + |y| && (t.wip || t.fptr % 512 == 0)
    ensures Wrote(s, t, v, chain, fsize, a + b)
  {
    FitAppend(a, b, fsize - pos, x, fsize - m.fptr, y);
    WriteRunAppend(s.image, v, chain, pos, x, m.fptr, y, m.image, t.image);
    WroteBy(s, t, v, chain, fsize, a + b, pos, x + y);
  }

  lemma WroteParts(s: Progress, t: Progress, v: Volume, chain: seq<nat>, fsize: nat, data: seq<byte>)
    returns (pos: nat, part: seq<byte>)
    requires data != [] && Wrote(s, t, v, chain, fsize, data)
    ensures pos == WriteStart(s.wip, s.fptr) <= s.fptr <= fsize && part == Fit(data, fsize - pos)
    ensures t.image == WriteRun(s.image, v, chain, pos, part) && t.fptr == pos + |part| <= fsize
    ensures t.wip || t.fptr % 512 == 0
  {
    pos := WriteStart(s.wip, s.fptr);
    part := Fit(data, fsize - pos);
  }

  lemma WroteBy(s: Progress, t: Progress, v: Volume, chain: seq<nat>, fsize: nat, data: seq<byte>,
                pos: nat, part: seq<byte>)
    requires s.fptr <= fsize && data != [] && pos == WriteStart(s.wip, s.fptr) && part == Fit(data, fsize - pos)
    requires t.image == WriteRun(s.image, v, chain, pos, part) && t.fptr == pos + |part|
    requires t.wip || t.fptr % 512 == 0
    ensures Wrote(s, t, v, chain, fsize, data)
  {}

  function Flatten(chunks: seq<seq<byte>>): seq<byte> {
    if chunks == [] then [] else chunks[0] + Flatten(chunks[1..])
  }

  lemma {:induction false} FlattenMore(chunks: seq<seq<byte>>, k: nat)
    requires k < |chunks|
    ensures Flatten(chunks[..k + 1]) == Flatten(chunks[..k]) + chunks[k]
  {
    if k == 0 {
      assert chunks[..1] == [chunks[0]] && chunks[..0] == [];
    } else {
      FlattenMore(chunks[1..], k - 1);
      assert chunks[..k + 1][1..] == chunks[1..][..k] && chunks[..k][1..] == chunks[1..][..k - 1];
    }
  }

  lemma FlattenSome(chunks: seq<seq<byte>>)
    requires chunks != [] && chunks[0] != []
    ensures Flatten(chunks) != []
  {}

  /** What the first chunks hold is a prefix of what all hold. */
  lemma {:induction false} FlattenPrefix(chunks: seq<seq<byte>>, k: nat)
    requires k <= |chunks|
    ensures Flatten(chunks[..k]) <= Flatten(chunks)
    decreases |chunks| - k
  {
    if k == |chunks| {
      assert chunks[..k] == chunks;
    } else {
      FlattenMore(chunks, k);
      FlattenPrefix(chunks, k + 1);
    }
  }

  lemma NextChunk(chunks: seq<seq<byte>>, k: nat, data: seq<byte>, whole: seq<byte>) returns (more: seq<byte>)
    requires k < |chunks| && data == Flatten(chunks[..k]) && whole == Flatten(chunks)
    ensures more == data + chunks[k] && more == Flatten(chunks[..k + 1]) && more <= whole
  {
    FlattenMore(chunks, k);
    FlattenPrefix(chunks, k + 1);
    more := data + chunks[k];
  }

  lemma FitPrefix(a: seq<byte>, b: seq<byte>, room: nat)
    requires a <= b
    ensures Fit(a, room) <= Fit(b, room)
  {}

  /** Sector x is none of those of the file positions from pos to end. */
  ghost predicate Untouched(v: Volume, chain: seq<nat>, pos: nat, end: nat, x: nat) {
    forall j :: pos <= 512 * j + 511 && 512 * j < end ==> x != FileSector(v, chain, j)
  }

  /** A write leaves the sectors that it does not pass over alone. */
  lemma RunLeaves(d: Image, v: Volume, chain: seq<nat>, pos: nat, data: seq<byte>, w: Image)
    requires w == WriteRun(d, v, chain, pos, data)
    ensures |w| == |d|
    ensures forall x :: 0 <= x < |d| && Untouched(v, chain, pos, pos + |data|, x) ==> w[x] == d[x]
  {
    forall x | 0 <= x < |d| && Untouched(v, chain, pos, pos + |data|, x) ensures w[x] == d[x] {
      WriteRunFrame(d, v, chain, pos, data, x);
    }
  }

  /** Image d is that after a run of writes of data from state s to position end: the file holds
      the data from the start position on as far as it fits, zeros in the rest of the last sector
      touched, and its old contents elsewhere, and no sector has changed that was not passed over. */
  ghost predicate HoldsRun(s: Progress, d: Image, v: Volume, chain: seq<nat>, fsize: nat, data: seq<byte>, end: nat) {
    var pos := WriteStart(s.wip, s.fptr);
    && pos <= fsize && |d| == |s.image| && end == pos + |Fit(data, fsize - pos)|
    && Content(d, v, chain, fsize) == Overwrite(Content(s.image, v, chain, fsize), pos, Fit(data, fsize - pos))
    && forall x :: 0 <= x < |d| && Untouched(v, chain, pos, end, x) ==> d[x] == s.image[x]
  }

  /** What is at position i after data went to the positions from start to end: its byte of the data, zero
      behind them in their last sector, and elsewhere what was there. */
  function ByteThere(data: seq<byte>, start: nat, end: nat, was: byte, i: nat): byte {
    if start <= i < end && i - start < |data| then data[i - start]
    else if start < end <= i && i / 512 == (end - 1) / 512 then 0
    else was
  }

  /** The same position by position. */
  lemma RunBytes(s: Progress, d: Image, v: Volume, chain: seq<nat>, fsize: nat, data: seq<byte>, end: nat, start: nat,
                 i: nat)
    requires HoldsRun(s, d, v, chain, fsize, data, end) && data != [] && i < fsize
    requires start == if s.wip then s.fptr else s.fptr - s.fptr % 512
    ensures end == Min(start + |data|, fsize)
    ensures Content(d, v, chain, fsize)[i] == ByteThere(data, start, end, Content(s.image, v, chain, fsize)[i], i)
  {}

  ghost predicate HoldsBytes(s: Progress, d: Image, v: Volume, chain: seq<nat>, fsize: nat, data: seq<byte>, end: nat) {
    var start := if s.wip then s.fptr else s.fptr - s.fptr % 512;
    && end == Min(start + |data|, fsize)
    && forall i :: 0 <= i < fsize ==>
      Content(d, v, chain, fsize)[i] == ByteThere(data, start, end, Content(s.image, v, chain, fsize)[i], i)
  }

  lemma RunHoldsBytes(s: Progress, d: Image, v: Volume, chain: seq<nat>, fsize: nat, data: seq<byte>, end: nat)
    requires HoldsRun(s, d, v, chain, fsize, data, end) && data != []
    ensures HoldsBytes(s, d, v, chain, fsize, data, end)
  {
    var start := if s.wip then s.fptr else s.fptr - s.fptr % 512;
    forall i | 0 <= i < fsize
      ensures Content(d, v, chain, fsize)[i] == ByteThere(data, start, end, Content(s.image, v, chain, fsize)[i], i)
    {
      RunBytes(s, d, v, chain, fsize, data, end, start, i);
    }
  }

  lemma RunHeld(s: Progress, t: Progress, v: Volume, chain: seq<nat>, fsize: nat, org: nat, data: seq<byte>)
    requires FileOk(s.image, v, chain, fsize, org) && data != [] && Wrote(s, t, v, chain, fsize, data)
    ensures HoldsRun(s, t.image, v, chain, fsize, data, t.fptr)
  {
    var pos, part := WroteParts(s, t, v, chain, fsize, data);
    WriteRunContent(s.image, v, chain, fsize, org, pos, part, t.image);
    RunLeaves(s.image, v, chain, pos, part, t.image);
    HoldsBy(s, t.image, v, chain, fsize, data, t.fptr, pos, part);
  }

  lemma HoldsBy(s: Progress, d: Image, v: Volume, chain: seq<nat>, fsize: nat, data: seq<byte>, end: nat,
                pos: nat, part: seq<byte>)
    requires pos == WriteStart(s.wip, s.fptr) <= fsize && part == Fit(data, fsize - pos) && end == pos + |part|
    requires Content(d, v, chain, fsize) == Overwrite(Content(s.image, v, chain, fsize), pos, part)
    requires |d| == |s.image|
    requires forall x :: 0 <= x < |d| && Untouched(v, chain, pos, end, x) ==> d[x] == s.image[x]
    ensures HoldsRun(s, d, v, chain, fsize, data, end)
  {}

  // ------------------------------------------- what of a write is on the card

  /** The card holds the whole sectors up to the first done bytes of a write that started on
      sectors d0 with settled image w0; with none done it is as it was. */
  ghost predicate Stored(
      d0: Image, w0: Image, d: Image, v: Volume, chain: seq<nat>, pos: nat, data: seq<byte>, done: nat) {
    done <= |data| &&
    if done == 0 then d == d0
    else (pos + done) % 512 == 0 && d == WriteRun(w0, v, chain, pos, data[..done])
  }

  /** Of a write from pos that has come to end all but the open sector is stored, or, when a
      transfer was refused, all but the last sector that was sent. */
  predicate Reaches(pos: nat, done: nat, end: nat, ok: bool) {
    pos + done <= end && if ok then RoundDown(end) <= pos + done else end <= RoundDown(pos + done) + 512
  }

  ghost predicate Kept(d0: Image, w0: Image, d: Image, v: Volume, chain: seq<nat>, pos: nat, data: seq<byte>,
                       end: nat, ok: bool) {
    exists done: nat :: Reaches(pos, done, end, ok) && Stored(d0, w0, d, v, chain, pos, data, done)
  }

  /** The same for a write of data from state s on. */
  ghost predicate OnCard(s: Progress, d0: Image, d: Image, v: Volume, chain: seq<nat>, fsize: nat, data: seq<byte>,
                         end: nat, ok: bool) {
    var pos := WriteStart(s.wip, s.fptr);
    pos <= fsize && Kept(d0, s.image, d, v, chain, pos, Fit(data, fsize - pos), end, ok)
  }

  lemma OnCardParts(s: Progress, d0: Image, d: Image, v: Volume, chain: seq<nat>, fsize: nat, data: seq<byte>,
                    end: nat, ok: bool) returns (pos: nat, part: seq<byte>)
    requires OnCard(s, d0, d, v, chain, fsize, data, end, ok)
    ensures pos == WriteStart(s.wip, s.fptr) <= fsize && part == Fit(data, fsize - pos)
    ensures Kept(d0, s.image, d, v, chain, pos, part, end, ok)
  {
    pos := WriteStart(s.wip, s.fptr);
    part := Fit(data, fsize - pos);
  }

  lemma OnCardBy(s: Progress, d0: Image, d: Image, v: Volume, chain: seq<nat>, fsize: nat, data: seq<byte>,
                 end: nat, ok: bool, pos: nat, part: seq<byte>)
    requires pos == WriteStart(s.wip, s.fptr) <= fsize && part == Fit(data, fsize - pos)
    requires Kept(d0, s.image, d, v, chain, pos, part, end, ok)
    ensures OnCard(s, d0, d, v, chain, fsize, data, end, ok)
  {}

  lemma OnCardIs(s: Progress, d0: Image, d: Image, v: Volume, fsize: nat, data: seq<byte>, end: nat, ok: bool,
                 g: Destination)
    requires Planned(s, v, fsize, data, g) && Kept(d0, s.image, d, v, g.chain, g.pos, g.part, end, ok)
    ensures OnCard(s, d0, d, v, g.chain, fsize, data, end, ok)
  {}

  lemma StoredLonger(d0: Image, w0: Image, d: Image, v: Volume, chain: seq<nat>, pos: nat, data: seq<byte>, done: nat,
                     more: seq<byte>)
    requires Stored(d0, w0, d, v, chain, pos, data, done) && data <= more
    ensures Stored(d0, w0, d, v, chain, pos, more, done)
  {
    assert more[..done] == data[..done];
  }

  lemma KeptLonger(d0: Image, w0: Image, d: Image, v: Volume, chain: seq<nat>, pos: nat, data: seq<byte>,
                   end: nat, ok: bool, more: seq<byte>)
    requires Kept(d0, w0, d, v, chain, pos, data, end, ok) && data <= more
    ensures Kept(d0, w0, d, v, chain, pos, more, end, ok)
  {
    var done: nat :| Reaches(pos, done, end, ok) && Stored(d0, w0, d, v, chain, pos, data, done);
    StoredLonger(d0, w0, d, v, chain, pos, data, done, more);
  }

  lemma OnCardLonger(s: Progress, d0: Image, d: Image, v: Volume, chain: seq<nat>, fsize: nat, data: seq<byte>,
                     end: nat, ok: bool, more: seq<byte>)
    requires OnCard(s, d0, d, v, chain, fsize, data, end, ok) && data <= more
    ensures OnCard(s, d0, d, v, chain, fsize, more, end, ok)
  {
    var pos, part := OnCardParts(s, d0, d, v, chain, fsize, data, end, ok);
    var longer := Fit(more, fsize - pos);
    FitPrefix(data, more, fsize - pos);
    KeptLonger(d0, s.image, d, v, chain, pos, part, end, ok, longer);
    OnCardBy(s, d0, d, v, chain, fsize, more, end, ok, pos, longer);
  }

  lemma StoredJoin(d0: Image, w0: Image, d1: Image, w1: Image, d2: Image, v: Volume, chain: seq<nat>, pos: nat,
                   a: seq<byte>, mid: nat, b: seq<byte>, done1: nat, done2: nat, done: nat)
    requires Stored(d0, w0, d1, v, chain, pos, a, done1) && w1 == WriteRun(w0, v, chain, pos, a) && mid == pos + |a|
    requires Stored(d1, w1, d2, v, chain, mid, b, done2) && done == if done2 == 0 then done1 else |a| + done2
    ensures Stored(d0, w0, d2, v, chain, pos, a + b, done)
  {
    if done2 == 0 {
      StoredLonger(d0, w0, d1, v, chain, pos, a, done1, a + b);
    } else {
      WriteRunAppend(w0, v, chain, pos, a, mid, b[..done2], w1, d2);
      assert (a + b)[..done] == a + b[..done2];
    }
  }

  lemma ReachesJoin(pos: nat, done1: nat, mid: nat, done2: nat, end: nat, ok: bool)
    requires Reaches(pos, done1, mid, true) && Reaches(mid, done2, end, ok)
    requires done1 > 0 ==> (pos + done1) % 512 == 0
    ensures Reaches(pos, if done2 == 0 then done1 else mid - pos + done2, end, ok)
  {}

  /** A write that goes on where another ended. */
  lemma KeptJoin(d0: Image, w0: Image, d1: Image, w1: Image, d2: Image, v: Volume, chain: seq<nat>, pos: nat,
                 a: seq<byte>, mid: nat, b: seq<byte>, end: nat, ok: bool)
    requires Kept(d0, w0, d1, v, chain, pos, a, mid, true) && w1 == WriteRun(w0, v, chain, pos, a) && mid == pos + |a|
    requires Kept(d1, w1, d2, v, chain, mid, b, end, ok)
    ensures Kept(d0, w0, d2, v, chain, pos, a + b, end, ok)
  {
    var done1: nat :| Reaches(pos, done1, mid, true) && Stored(d0, w0, d1, v, chain, pos, a, done1);
    var done2: nat :| Reaches(mid, done2, end, ok) && Stored(d1, w1, d2, v, chain, mid, b, done2);
    var done := if done2 == 0 then done1 else |a| + done2;
    ReachesJoin(pos, done1, mid, done2, end, ok);
    StoredJoin(d0, w0, d1, w1, d2, v, chain, pos, a, mid, b, done1, done2, done);
  }

  /** A write of data from pos on has come to position now and sent the first bw bytes: they make
      the settled image w, and all but the open sector's are on the card. */
  ghost predicate Underway(d0: Image, w0: Image, d: Image, w: Image, v: Volume, chain: seq<nat>, pos: nat,
                           data: seq<byte>, now: nat, bw: nat) {
    && bw <= |data| && now == pos + bw && w == WriteRun(w0, v, chain, pos, data[..bw])
    && Kept(d0, w0, d, v, chain, pos, data, now, true)
  }

  lemma UnderwayBegins(d: Image, w: Image, v: Volume, chain: seq<nat>, pos: nat, data: seq<byte>)
    ensures Underway(d, w, d, w, v, chain, pos, data, pos, 0)
  {
    assert data[..0] == [];
    assert Reaches(pos, 0, pos, true) && Stored(d, w, d, v, chain, pos, data, 0);
  }

  lemma UnderwayEnds(d0: Image, w0: Image, d: Image, w: Image, v: Volume, chain: seq<nat>, pos: nat, data: seq<byte>,
                     now: nat)
    requires Underway(d0, w0, d, w, v, chain, pos, data, now, |data|)
    ensures w == WriteRun(w0, v, chain, pos, data) && Kept(d0, w0, d, v, chain, pos, data, now, true)
  {
    assert data[..|data|] == data;
  }

  lemma KeptMore(d0: Image, w0: Image, d: Image, w': Image, d': Image, v: Volume, chain: seq<nat>, pos: nat,
                 data: seq<byte>, now: nat, k: nat, now': nat, bw': nat)
    requires Kept(d0, w0, d, v, chain, pos, data, now, true)
    requires 0 < k <= 512 - now % 512 && now' == now + k == pos + bw' && 0 < bw' <= |data|
    requires w' == WriteRun(w0, v, chain, pos, data[..bw']) && d' == if now' % 512 == 0 then w' else d
    ensures Kept(d0, w0, d', v, chain, pos, data, now', true)
  {
    SectorRest(now, k);
    if now' % 512 == 0 {
      assert Reaches(pos, bw', now', true) && Stored(d0, w0, d', v, chain, pos, data, bw');
    } else {
      var done: nat :| Reaches(pos, done, now, true) && Stored(d0, w0, d, v, chain, pos, data, done);
      assert Reaches(pos, done, now', true);
    }
  }

  /** One more pass of the loop, that goes well, */
  lemma UnderwayMore(d0: Image, w0: Image, d: Image, w: Image, v: Volume, chain: seq<nat>, pos: nat, data: seq<byte>,
                     now: nat, bw: nat, k: nat, part: seq<byte>, d': Image, w': Image, now': nat)
    requires Underway(d0, w0, d, w, v, chain, pos, data, now, bw)
    requires 0 < k <= 512 - now % 512 && bw + k <= |data| && part == data[bw..bw + k] && now' == now + k
    requires w' == PatchFile(w, v, chain, now, part) && d' == if now' % 512 == 0 then w' else d
    ensures Underway(d0, w0, d', w', v, chain, pos, data, now', bw + k)
  {
    WriteRunMore(w0, v, chain, pos, data, bw, k, now, part, w, w');
    KeptMore(d0, w0, d, w', d', v, chain, pos, data, now, k, now', bw + k);
  }

  /** and one that does not: the card is as it was. */
  lemma UnderwayFails(d0: Image, w0: Image, d: Image, w: Image, v: Volume, chain: seq<nat>, pos: nat, data: seq<byte>,
                      now: nat, bw: nat, k: nat)
    requires Underway(d0, w0, d, w, v, chain, pos, data, now, bw) && k <= 512 - now % 512
    ensures Kept(d0, w0, d, v, chain, pos, data, now + k, false)
  {
    var done: nat :| Reaches(pos, done, now, true) && Stored(d0, w0, d, v, chain, pos, data, done);
    ReachesFails(pos, done, now, k);
  }

  lemma ReachesFails(pos: nat, done: nat, now: nat, k: nat)
    requires Reaches(pos, done, now, true) && k <= 512 - now % 512
    ensures Reaches(pos, done, now + k, false)
  {}

  /** The open sector of a write that went well was refused. */
  lemma OnCardRefused(
      s: Progress, d0: Image, d: Image, v: Volume, chain: seq<nat>, fsize: nat, data: seq<byte>, end: nat)
    requires OnCard(s, d0, d, v, chain, fsize, data, end, true)
    ensures OnCard(s, d0, d, v, chain, fsize, data, end, false)
  {
    var pos, part := OnCardParts(s, d0, d, v, chain, fsize, data, end, true);
    var done: nat :| Reaches(pos, done, end, true) && Stored(d0, s.image, d, v, chain, pos, part, done);
    ReachesFails(pos, done, end, 0);
    OnCardBy(s, d0, d, v, chain, fsize, data, end, false, pos, part);
  }

  /** A run of writes that began in state s on sectors d0 has come to state t and sectors d with
      data in all. */
  ghost predicate HasWritten(s: Progress, d0: Image, t: Progress, d: Image, v: Volume, chain: seq<nat>, fsize: nat,
                             data: seq<byte>) {
    && s.fptr <= fsize && t.fptr <= fsize
    && (if data == [] then t == s && d == d0
        else Wrote(s, t, v, chain, fsize, data) && OnCard(s, d0, d, v, chain, fsize, data, t.fptr, true))
  }

  /** One more write of a run: what is on the card of it, */
  lemma OnCardMore(s: Progress, m: Progress, d0: Image, d1: Image, d2: Image, v: Volume, chain: seq<nat>, fsize: nat,
                   all: seq<byte>, data: seq<byte>, end: nat, ok: bool)
    requires HasWritten(s, d0, m, d1, v, chain, fsize, all) && OnCard(m, d1, d2, v, chain, fsize, data, end, ok)
    ensures OnCard(s, d0, d2, v, chain, fsize, all + data, end, ok)
  {
    if all == [] {
      assert all + data == data;
    } else {
      OnCardJoin(s, m, d0, d1, d2, v, chain, fsize, all, data, end, ok);
    }
  }

  lemma OnCardJoin(s: Progress, m: Progress, d0: Image, d1: Image, d2: Image, v: Volume, chain: seq<nat>, fsize: nat,
                   all: seq<byte>, data: seq<byte>, end: nat, ok: bool)
    requires all != [] && Wrote(s, m, v, chain, fsize, all) && m.fptr <= fsize
    requires OnCard(s, d0, d1, v, chain, fsize, all, m.fptr, true) && OnCard(m, d1, d2, v, chain, fsize, data, end, ok)
    ensures OnCard(s, d0, d2, v, chain, fsize, all + data, end, ok)
  {
    var pos, x := WroteOnCard(s, m, d0, d1, v, chain, fsize, all);
    var mid, y := OnCardParts(m, d1, d2, v, chain, fsize, data, end, ok);
    StartAligned(m);
    FitAppend(all, data, fsize - pos, x, fsize - mid, y);
    KeptJoin(d0, s.image, d1, m.image, d2, v, chain, pos, x, mid, y, end, ok);
    OnCardBy(s, d0, d2, v, chain, fsize, all + data, end, ok, pos, x + y);
  }

  lemma WroteOnCard(s: Progress, m: Progress, d0: Image, d1: Image, v: Volume, chain: seq<nat>, fsize: nat,
                    all: seq<byte>) returns (pos: nat, x: seq<byte>)
    requires all != [] && Wrote(s, m, v, chain, fsize, all) && OnCard(s, d0, d1, v, chain, fsize, all, m.fptr, true)
    ensures pos == WriteStart(s.wip, s.fptr) <= fsize && x == Fit(all, fsize - pos) && m.fptr == pos + |x| <= fsize
    ensures m.image == WriteRun(s.image, v, chain, pos, x) && (m.wip || m.fptr % 512 == 0)
    ensures Kept(d0, s.image, d1, v, chain, pos, x, m.fptr, true)
  {
    pos, x := WroteParts(s, m, v, chain, fsize, all);
  }

  /** and the state it has come to. */
  lemma WroteMore(s: Progress, m: Progress, t: Progress, d0: Image, d1: Image, v: Volume, chain: seq<nat>, fsize: nat,
                  all: seq<byte>, data: seq<byte>)
    requires HasWritten(s, d0, m, d1, v, chain, fsize, all) && data != [] && Wrote(m, t, v, chain, fsize, data)
    ensures Wrote(s, t, v, chain, fsize, all + data)
  {
    if all == [] {
      assert all + data == data;
    } else {
      WroteJoin(s, m, t, v, chain, fsize, all, data);
    }
  }

  /** One more write of a run of which whole is to be written. */
  lemma RunMore(s: Progress, m: Progress, t: Progress, d0: Image, d1: Image, d2: Image, v: Volume, chain: seq<nat>,
                fsize: nat, all: seq<byte>, data: seq<byte>, more: seq<byte>, whole: seq<byte>, ok: bool)
    requires HasWritten(s, d0, m, d1, v, chain, fsize, all) && data != [] && more == all + data && more <= whole
    requires OnCard(m, d1, d2, v, chain, fsize, data, t.fptr, ok)
    requires ok ==> Wrote(m, t, v, chain, fsize, data) && t.fptr <= fsize
    ensures ok ==> HasWritten(s, d0, t, d2, v, chain, fsize, more)
    ensures !ok ==> OnCard(s, d0, d2, v, chain, fsize, whole, t.fptr, false)
  {
    OnCardMore(s, m, d0, d1, d2, v, chain, fsize, all, data, t.fptr, ok);
    if ok {
      WroteMore(s, m, t, d0, d1, v, chain, fsize, all, data);
    } else {
      OnCardLonger(s, d0, d2, v, chain, fsize, more, t.fptr, false, whole);
    }
  }

  /** So far as it is on the card, a write has left the sectors alone that it does not pass over. */
  lemma KeptLeaves(d0: Image, w0: Image, d: Image, v: Volume, chain: seq<nat>, pos: nat, data: seq<byte>,
                   end: nat, ok: bool, x: nat)
    requires Kept(d0, w0, d, v, chain, pos, data, end, ok) && |d0| == |w0|
    requires x < |d0| && d0[x] == w0[x] && Untouched(v, chain, pos, end, x)
    ensures |d| == |d0| && d[x] == d0[x]
  {
    var done: nat :| Reaches(pos, done, end, ok) && Stored(d0, w0, d, v, chain, pos, data, done);
    if done > 0 { WriteRunFrame(w0, v, chain, pos, data[..done], x); }
  }
}
