/** Mounting: from a boot record to the geometry of a volume. */
module MountEngine {
  import opened Bits
  import opened Card
  import opened FatVolume
  import opened FileEngine

  const DWORD_LIMIT := 0x1_0000_0000

  /** The fields of a boot record that pf_mount uses, from its bytes 13 to 48. */
  datatype Bpb = Bpb(
    secPerClus: nat,
    rsvdSecCnt: nat,
    numFats: nat,
    rootEntCnt: nat,
    totSec: nat,
    fatSz: nat)

  function ParseBpb(b: seq<byte>): Bpb
    requires |b| == 36
  {
    var tot16, fat16 := LdWord(b, 6), LdWord(b, 9);
    Bpb(b[0], LdWord(b, 1), b[3], LdWord(b, 4),
        if tot16 != 0 then tot16 else LdDword(b, 19),
        if fat16 != 0 then fat16 else LdDword(b, 23))
  }

  /** Number of sectors that the tables take, in 32-bit arithmetic. */
  function FatArea(b: Bpb): nat {
    b.fatSz * b.numFats % DWORD_LIMIT
  }

  /** Last cluster number plus one, in 32-bit arithmetic. */
  function LastCluster(b: Bpb): nat
    requires b.secPerClus > 0
  {
    ((b.totSec - b.rsvdSecCnt - FatArea(b) - b.rootEntCnt / 16) % DWORD_LIMIT / b.secPerClus + 2) % DWORD_LIMIT
  }

  function Geometry(b: Bpb, bsect: nat): Volume
    requires b.secPerClus > 0
  {
    var mclst := LastCluster(b);
    var fatbase := (bsect + b.rsvdSecCnt) % DWORD_LIMIT;
    Volume(if mclst < 0xFF7 then Fat12 else Fat16,
           b.secPerClus, b.rootEntCnt, mclst % 0x1_0000, fatbase,
           (fatbase + FatArea(b)) % DWORD_LIMIT,
           (fatbase + FatArea(b) + b.rootEntCnt / 16) % DWORD_LIMIT)
  }

  // ------------------------------------------------------- what it means

  /** Number of clusters that the sectors behind the tables make, as the FAT
      specification counts them. */
  function CountOfClusters(b: Bpb): int
    requires b.secPerClus > 0
  {
    (b.totSec - (b.rsvdSecCnt + b.fatSz * b.numFats + b.rootEntCnt / 16)) / b.secPerClus
  }

  /** Bytes that n table entries take. */
  function TableBytes(t: FatType, n: nat): nat {
    match t
    case Fat12 => (3 * n + 1) / 2
    case Fat16 => 2 * n
  }

  /** A boot record that describes a volume: it lies on the card, its areas fit into
      it, at least one cluster is left, and each table has room for every cluster. */
  predicate Consistent(b: Bpb, bsect: nat, size: nat) {
    && GoodCsize(b.secPerClus)
    && b.rsvdSecCnt >= 1 && b.numFats >= 1
    && b.rootEntCnt >= 16 && b.rootEntCnt % 16 == 0
    && b.rsvdSecCnt + b.fatSz * b.numFats + b.rootEntCnt / 16 + b.secPerClus <= b.totSec
    && bsect + b.totSec <= size <= DWORD_LIMIT
    && var n := CountOfClusters(b);
       TableBytes(if n < 4085 then Fat12 else Fat16, n + 2) <= 512 * b.fatSz
  }

  lemma Small(x: int)
    requires 0 <= x < DWORD_LIMIT
    ensures x % DWORD_LIMIT == x
  {}

  /** x and y are the same in 32-bit arithmetic, y being the number that 32 bits hold. */
  predicate Same32(x: int, y: int) {
    0 <= y < 0x1_0000_0000 && (x - y) % 0x1_0000_0000 == 0
  }

  lemma Reduced(x: int, y: int)
    requires y == x % DWORD_LIMIT
    ensures Same32(x, y)
  {
    DivModEq(x, 0x1_0000_0000);
    DivModUnique(x - y, 0x1_0000_0000, x / 0x1_0000_0000, 0);
  }

  lemma Same32Sum(x: int, y: int, a: int, b: int, z: int)
    requires Same32(x, y) && Same32(a, b) && Same32(y + b, z)
    ensures Same32(x + a, z)
  {
    var m := 0x1_0000_0000;
    DivModEq(x - y, m);
    DivModEq(a - b, m);
    DivModEq(y + b - z, m);
    DivModUnique(x + a - z, m, (x - y) / m + (a - b) / m + (y + b - z) / m, 0);
  }

  /** Whatever a boot record says, the areas and the clusters are counted in 32 bits. */
  lemma Counted32(b: Bpb, bsect: nat, p: nat, v: Volume) returns (room: nat)
    requires b.secPerClus > 0 && p == b.fatSz * b.numFats && v == Geometry(b, bsect)
    ensures Same32(bsect + b.rsvdSecCnt, v.fatbase) && Same32(bsect + b.rsvdSecCnt + p, v.dirbase)
    ensures Same32(bsect + b.rsvdSecCnt + p + b.rootEntCnt / 16, v.database)
    ensures Same32(b.totSec - b.rsvdSecCnt - p - b.rootEntCnt / 16, room)
    ensures Same32(room / b.secPerClus + 2, LastCluster(b))
  {
    var f := FatArea(b);
    Reduced(p, f);
    Reduced(bsect + b.rsvdSecCnt, v.fatbase);
    Reduced(v.fatbase + f, v.dirbase);
    Same32Sum(bsect + b.rsvdSecCnt, v.fatbase, p, f, v.dirbase);
    Reduced(v.fatbase + f + b.rootEntCnt / 16, v.database);
    Same32Root(bsect + b.rsvdSecCnt + p, v.fatbase + f, v.dirbase, b.rootEntCnt / 16, v.database);
    var rest := b.totSec - b.rsvdSecCnt - f - b.rootEntCnt / 16;
    room := rest % DWORD_LIMIT;
    Reduced(rest, room);
    Same32Less(b.totSec - b.rsvdSecCnt - b.rootEntCnt / 16, p, f, room);
    Reduced(room / b.secPerClus + 2, LastCluster(b));
  }

  lemma Same32Root(x: int, s: int, y: int, k: nat, z: int)
    requires Same32(x, y) && Same32(s, y) && Same32(s + k, z)
    ensures Same32(x + k, z)
  {
    var m := 0x1_0000_0000;
    DivModEq(x - y, m);
    DivModEq(s - y, m);
    DivModEq(s + k - z, m);
    DivModUnique(x + k - z, m, (x - y) / m - (s - y) / m + (s + k - z) / m, 0);
  }

  lemma Same32Less(t: int, p: int, f: int, room: int)
    requires Same32(p, f) && Same32(t - f, room)
    ensures Same32(t - p, room)
  {
    var m := 0x1_0000_0000;
    DivModEq(p - f, m);
    DivModEq(t - f - room, m);
    DivModUnique(t - p - room, m, (t - f - room) / m - (p - f) / m, 0);
  }

  lemma WholeClusters(room: nat, c: nat)
    requires 0 < c <= room
    ensures 1 <= room / c <= room && room / c * c <= room
  {
    DivModEq(room, c);
    MulLe(1, c, room / c);
    DivMono(c, room, c);
    DivModUnique(c, c, 1, 0);
  }

  /** None of the 32-bit computations wraps on a consistent boot record. */
  lemma NoWrap(b: Bpb, bsect: nat, size: nat, room: nat)
    requires Consistent(b, bsect, size)
    requires room == b.totSec - b.rsvdSecCnt - b.fatSz * b.numFats - b.rootEntCnt / 16
    ensures FatArea(b) == b.fatSz * b.numFats
    ensures LastCluster(b) == CountOfClusters(b) + 2 >= 3
    ensures CountOfClusters(b) * b.secPerClus <= room
  {
    Small(b.fatSz * b.numFats);
    Small(room);
    WholeClusters(room, b.secPerClus);
    Small(room / b.secPerClus + 2);
  }

  /** On a consistent boot record the volume is FAT12 exactly below 4085 clusters, FAT16
      from there, and refused exactly from 65525 on; the areas follow each other inside
      the partition; and the geometry of a volume that is not refused is sound. */
  lemma GeometryMeaning(b: Bpb, bsect: nat, size: nat)
    requires Consistent(b, bsect, size)
    ensures var v, n := Geometry(b, bsect), CountOfClusters(b);
            && (v.fsType.Fat12? <==> n < 4085)
            && (LastCluster(b) < 0xFFF7 <==> n < 65525)
            && bsect < v.fatbase == bsect + b.rsvdSecCnt
            && v.dirbase == v.fatbase + b.fatSz * b.numFats
            && v.database == v.dirbase + v.nRootdir / 16
            && v.database + n * v.csize <= bsect + b.totSec
            && (n < 65525 ==> v.nFatent == n + 2 && Sound(v, size))
  {
    NoWrap(b, bsect, size, b.totSec - b.rsvdSecCnt - b.fatSz * b.numFats - b.rootEntCnt / 16);
    var n := CountOfClusters(b);
    AreasFollow(b, bsect, size);
    if n < 65525 {
      SoundIf(Geometry(b, bsect), n, b.fatSz, size);
    }
  }

  lemma SoundIf(v: Volume, n: nat, fatSz: nat, size: nat)
    requires GoodCsize(v.csize) && v.nFatent == n + 2 < 0xFFF7 && v.fsType == if n < 4085 then Fat12 else Fat16
    requires TableBytes(v.fsType, n + 2) <= 512 * fatSz && v.fatbase + fatSz <= v.dirbase
    requires 0 < v.dirbase < v.database && v.database + n * v.csize <= size
    ensures Sound(v, size)
  {
    TableFits(v.fsType, n + 2, fatSz);
  }

  lemma AreasFollow(b: Bpb, bsect: nat, size: nat)
    requires Consistent(b, bsect, size)
    ensures var v := Geometry(b, bsect);
            && v.fatbase == bsect + b.rsvdSecCnt && v.dirbase == v.fatbase + b.fatSz * b.numFats
            && v.database == v.dirbase + b.rootEntCnt / 16 && v.dirbase >= v.fatbase + b.fatSz
  {
    NoWrap(b, bsect, size, b.totSec - b.rsvdSecCnt - b.fatSz * b.numFats - b.rootEntCnt / 16);
    var fatbase := bsect + b.rsvdSecCnt;
    Small(fatbase);
    Small(fatbase + FatArea(b));
    Small(fatbase + FatArea(b) + b.rootEntCnt / 16);
    MulLe(1, b.numFats, b.fatSz);
  }

  lemma TableFits(t: FatType, n: nat, fatSz: nat)
    requires TableBytes(t, n) <= 512 * fatSz
    ensures (match t case Fat12 => n + n / 2 + 2 case Fat16 => 2 * n) / 512 <= fatSz
  {}

  // ------------------------------------------------------------- the code

  /** What check_fs returns when every transfer succeeds: 0 a FAT boot record, 1 some
      other boot record, 2 none, 3 no such sector. */
  function BootKind(d: Image, sect: nat): nat {
    if sect >= |d| then 3
    else if LdWord(d[sect], 510) != 0xAA55 then 2
    else if LdWord(d[sect], 54) == 0x4146 then 0
    else 1
  }

  /** Sector 0 lists a first partition. */
  predicate Partitioned(d: Image) {
    d != [] && d[0][450] != 0
  }

  function PartitionSector(d: Image): nat
    requires d != []
  {
    LdDword(d[0], 454)
  }

  /** The boot sector of the volume: sector 0, or the first partition's. */
  function BootSector(d: Image): nat {
    if BootKind(d, 0) == 1 && Partitioned(d) then PartitionSector(d) else 0
  }

  function SectorBpb(d: Image, sect: nat): Bpb
    requires sect < |d|
  {
    ParseBpb(d[sect][13..49])
  }

  /** Sector sect, if it is a FAT boot record, does not make pf_mount divide by zero. */
  predicate Divides(d: Image, sect: nat) {
    BootKind(d, sect) == 0 ==> d[sect][13] != 0
  }

  /** check_fs.  A refused second transfer makes a FAT boot record look like another one. */
  method CheckFs(card: MemoryCard, sect: nat) returns (r: nat)
    requires card.transfer.Idle?
    modifies card`transfer, card`clocked, card`forwarded, card`ops
    ensures card.transfer.Idle? && old(card.ops) < card.ops
    ensures r == 3 <==> sect >= |card.sectors| || card.fault(old(card.ops))
    ensures r != 3 && r != BootKind(card.sectors, sect) ==>
      r == 1 && BootKind(card.sectors, sect) == 0 && card.fault(old(card.ops) + 1)
    ensures r == 1 ==> card.ops == old(card.ops) + 2
    ensures r != 3 && card.FaultSince(old(card.ops)) ==> card.fault(old(card.ops) + 1) && r == 1
    ensures r == 0 || r == 1 || r == 2 || r == 3
  {
    ghost var first := card.ops;
    var ok, buf := card.Fetch(sect, 510, 2);
    assert card.fault(first) ==> card.FaultSince(first);
    if !ok { return 3; }
    assert LdWord(buf, 0) == LdWord(card.sectors[sect], 510);
    if LdWord(buf, 0) != 0xAA55 { return 2; }
    ok, buf := card.Fetch(sect, 54, 2);
    assert card.fault(first + 1) ==> card.FaultSince(first);
    assert ok ==> LdWord(buf, 0) == LdWord(card.sectors[sect], 54);
    if ok && LdWord(buf, 0) == 0x4146 { return 0; }
    return 1;
  }

  /** The volume in boot sector bsect has been taken: the right one, or, because the second
      transfer was refused, the first partition listed in a boot record that is itself FAT. */
  predicate Chosen(d: Image, bsect: nat, refused: bool) {
    && BootKind(d, bsect) == 0
    && (bsect == BootSector(d)
        || (refused && BootKind(d, 0) == 0 && Partitioned(d) && bsect == PartitionSector(d)))
  }

  /** pf_mount's search for the boot sector. */
  method FindVolume(card: MemoryCard) returns (fmt: nat, bsect: nat)
    requires card.transfer.Idle?
    modifies card`transfer, card`clocked, card`forwarded, card`ops
    ensures card.transfer.Idle? && old(card.ops) < card.ops
    ensures !card.FaultSince(old(card.ops)) ==>
      bsect == BootSector(card.sectors) && fmt == BootKind(card.sectors, bsect)
    ensures fmt == 0 ==> Chosen(card.sectors, bsect, card.fault(old(card.ops) + 1))
    ensures fmt != 3 && card.FaultSince(old(card.ops)) ==>
      card.fault(old(card.ops) + 1) || card.fault(old(card.ops) + 4)
  {
    bsect := 0;
    fmt := CheckFs(card, bsect);
    if fmt == 1 {
      ghost var first := card.ops;
      var ok, buf := card.Fetch(bsect, 446, 16);
      assert card.fault(first) ==> card.FaultSince(old(card.ops));
      if !ok {
        fmt := 3;
      } else if buf[4] != 0 {
        bsect := LdDword(buf, 8);
        assert LdDword(buf, 8) == LdDword(card.sectors[0], 454);
        fmt := CheckFs(card, bsect);
      }
    }
  }

  /** pf_mount.  ready is disk_initialize's answer; bsect is the boot sector that was taken.  A
      boot record with zero sectors per cluster makes the code divide by zero and is excluded. */
  method Mount(fs: FileSystem, ready: bool) returns (res: FResult, ghost bsect: nat)
    requires fs.card.transfer.Idle?
    requires Divides(fs.card.sectors, 0)
    requires Partitioned(fs.card.sectors) ==> Divides(fs.card.sectors, PartitionSector(fs.card.sectors))
    modifies fs`mounted, fs`vol, fs`isOpen, fs`wip
    modifies fs.card`transfer, fs.card`clocked, fs.card`forwarded, fs.card`ops
    ensures fs.card.transfer.Idle? && fs.mounted == (res == FrOk) && old(fs.card.ops) <= fs.card.ops
    ensures !ready ==> res == FrNotReady
    ensures ready ==> res == FrOk || res == FrDiskErr || res == FrNoFilesystem
    ensures res == FrOk ==> !fs.isOpen && !fs.wip
    ensures res == FrOk ==>
      && Chosen(fs.card.sectors, bsect, fs.card.fault(old(fs.card.ops) + 1))
      && SectorBpb(fs.card.sectors, bsect).secPerClus > 0
      && LastCluster(SectorBpb(fs.card.sectors, bsect)) < 0xFFF7
      && fs.vol == Geometry(SectorBpb(fs.card.sectors, bsect), bsect)
    ensures ready && !fs.card.FaultSince(old(fs.card.ops)) ==>
      && bsect == BootSector(fs.card.sectors)
      && (res == FrDiskErr <==> BootKind(fs.card.sectors, bsect) == 3)
      && (BootKind(fs.card.sectors, bsect) == 0 ==>
            var b := SectorBpb(fs.card.sectors, bsect);
            b.secPerClus > 0 && (res == FrOk <==> LastCluster(b) < 0xFFF7))
    ensures fs.card.FaultSince(old(fs.card.ops)) && res != FrDiskErr ==>
      fs.card.fault(old(fs.card.ops) + 1) || fs.card.fault(old(fs.card.ops) + 4)
  {
    fs.mounted, bsect := false, 0;
    if !ready { return FrNotReady, 0; }
    var fmt, sect := FindVolume(fs.card);
    bsect := sect;
    if fmt == 3 { return FrDiskErr, bsect; }
    if fmt != 0 { return FrNoFilesystem, bsect; }
    ghost var first := fs.card.ops;
    var ok, buf := fs.card.Fetch(sect, 13, 36);
    assert fs.card.fault(first) ==> fs.card.FaultSince(old(fs.card.ops));
    if !ok { return FrDiskErr, bsect; }
    var b := ParseBpb(buf);
    assert buf[0] == fs.card.sectors[sect][13];
    if LastCluster(b) >= 0xFFF7 { return FrNoFilesystem, bsect; }
    fs.vol := Geometry(b, sect);
    fs.isOpen, fs.wip := false, false;
    fs.mounted := true;
    res := FrOk;
  }
}
