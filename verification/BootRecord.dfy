/** Boot records and partition tables as the bytes that formatting tools write, and that mounting
    a card that holds them gives the geometry they describe. */
module BootRecord {
  import opened Bits
  import opened Card
  import opened FatVolume
  import opened FileEngine
  import opened MountEngine

  /** The fields of a boot record in the order of the FAT specification.  head is everything before
      the sectors per cluster, disk the drive geometry, code everything between the 32-bit table
      size and the signature.  A record with a 16-bit table size uses the four bytes of fatSz32
      for other things. */
  datatype Boot = Boot(
    head: seq<byte>,       // 13 bytes
    secPerClus: byte,
    rsvdSecCnt: nat,
    numFats: byte,
    rootEntCnt: nat,
    totSec16: nat,
    media: byte,
    fatSz16: nat,
    disk: seq<byte>,       // 8 bytes
    totSec32: nat,
    fatSz32: nat,
    code: seq<byte>)       // 470 bytes

  predicate BootOk(r: Boot) {
    && |r.head| == 13 && |r.disk| == 8 && |r.code| == 470
    && r.rsvdSecCnt < 0x1_0000 && r.rootEntCnt < 0x1_0000 && r.totSec16 < 0x1_0000 && r.fatSz16 < 0x1_0000
    && r.totSec32 < 0x1_0000_0000 && r.fatSz32 < 0x1_0000_0000
  }

  /** Bytes 0 to 23 and 24 to 511. */
  function FrontBytes(r: Boot): (b: seq<byte>)
    requires BootOk(r)
    ensures |b| == 24
  {
    r.head + [r.secPerClus] + Word(r.rsvdSecCnt) + [r.numFats] + Word(r.rootEntCnt) + Word(r.totSec16) + [r.media]
    + Word(r.fatSz16)
  }

  function BackBytes(r: Boot): (b: seq<byte>)
    requires BootOk(r)
    ensures |b| == 488
  {
    r.disk + Dword(r.totSec32) + Dword(r.fatSz32) + r.code + [0x55, 0xAA]
  }

  function BootBytes(r: Boot): (b: Sector)
    requires BootOk(r)
  {
    FrontBytes(r) + BackBytes(r)
  }

  /** The record says that it is one of a FAT volume: "FA" at byte 54. */
  predicate SaysFat(r: Boot)
    requires BootOk(r)
  {
    r.code[14] == 0x46 && r.code[15] == 0x41
  }

  /** The first entry of a partition table in sector 0, and what surrounds it. */
  datatype Partition = Partition(
    code: seq<byte>,       // 446 bytes
    active: byte,
    from: seq<byte>,       // 3 bytes
    kind: byte,
    to: seq<byte>,         // 3 bytes
    lba: nat,
    count: nat,
    others: seq<byte>)     // 48 bytes

  predicate PartitionOk(p: Partition) {
    && |p.code| == 446 && |p.from| == 3 && |p.to| == 3 && |p.others| == 48
    && p.lba < 0x1_0000_0000 && p.count < 0x1_0000_0000
  }

  function PartitionBytes(p: Partition): (b: Sector)
    requires PartitionOk(p)
  {
    p.code + ([p.active] + p.from + [p.kind] + p.to + Dword(p.lba) + Dword(p.count)) + (p.others + [0x55, 0xAA])
  }

  // ------------------------------------------------------ what mounting reads

  /** The fields, with the wider one where the narrower one is zero. */
  function FieldsOf(r: Boot): Bpb {
    Bpb(r.secPerClus, r.rsvdSecCnt, r.numFats, r.rootEntCnt,
        if r.totSec16 == 0 then r.totSec32 else r.totSec16,
        if r.fatSz16 == 0 then r.fatSz32 else r.fatSz16)
  }

  /** The bytes that pf_mount looks at. */
  lemma BootSlices(r: Boot, s: Sector)
    requires BootOk(r) && s == BootBytes(r)
    ensures s[13] == r.secPerClus && s[14..16] == Word(r.rsvdSecCnt) && s[16] == r.numFats
    ensures s[17..19] == Word(r.rootEntCnt) && s[19..21] == Word(r.totSec16) && s[22..24] == Word(r.fatSz16)
    ensures s[32..36] == Dword(r.totSec32) && s[36..40] == Dword(r.fatSz32)
    ensures s[54] == r.code[14] && s[55] == r.code[15] && s[510] == 0x55 && s[511] == 0xAA
  {}

  lemma PartitionSlices(p: Partition, s: Sector)
    requires PartitionOk(p) && s == PartitionBytes(p)
    ensures s[54] == p.code[54] && s[55] == p.code[55] && s[510] == 0x55 && s[511] == 0xAA
    ensures s[450] == p.kind && s[454..458] == Dword(p.lba)
  {
    var e := [p.active] + p.from + [p.kind] + p.to + Dword(p.lba) + Dword(p.count);
    assert e[4] == p.kind && e[8..12] == Dword(p.lba);
    assert s == p.code + e + (p.others + [0x55, 0xAA]);
    assert s[454..458] == e[8..12];
  }

  /** pf_mount reads bytes 13 to 48. */
  lemma Window(s: Sector, w: seq<byte>, i: nat, j: nat)
    requires w == s[13..49] && i <= j <= 36
    ensures w[i..j] == s[13 + i..13 + j]
  {
    forall k | 0 <= k < j - i ensures w[i..j][k] == s[13 + i..13 + j][k] {
      assert w[i + k] == s[13 + i + k];
    }
  }

  /** Reading a boot record gives its fields. */
  lemma RecordParsed(d: Image, sect: nat, r: Boot)
    requires sect < |d| && BootOk(r) && d[sect] == BootBytes(r)
    ensures SectorBpb(d, sect) == FieldsOf(r)
    ensures BootKind(d, sect) == if SaysFat(r) then 0 else 1
  {
    var s := d[sect];
    var w := s[13..49];
    BootSlices(r, s);
    Window(s, w, 1, 3);
    LdWordIs(w, 1, r.rsvdSecCnt);
    Window(s, w, 4, 6);
    LdWordIs(w, 4, r.rootEntCnt);
    Window(s, w, 6, 8);
    LdWordIs(w, 6, r.totSec16);
    Window(s, w, 9, 11);
    LdWordIs(w, 9, r.fatSz16);
    Window(s, w, 19, 23);
    LdDwordIs(w, 19, r.totSec32);
    Window(s, w, 23, 27);
    LdDwordIs(w, 23, r.fatSz32);
  }

  /** Without the signature a sector is no boot record, and beyond the card there is none. */
  lemma NoRecord(d: Image, sect: nat)
    ensures sect < |d| && !(d[sect][510] == 0x55 && d[sect][511] == 0xAA) ==> BootKind(d, sect) == 2
    ensures sect >= |d| ==> BootKind(d, sect) == 3
  {}

  /** Reading a partition table that is not itself the boot record of a FAT volume leads to the first
      partition. */
  lemma PartitionParsed(d: Image, p: Partition)
    requires d != [] && PartitionOk(p) && d[0] == PartitionBytes(p) && p.kind != 0
    requires !(p.code[54] == 0x46 && p.code[55] == 0x41)
    ensures BootKind(d, 0) == 1 && Partitioned(d) && PartitionSector(d) == p.lba && BootSector(d) == p.lba
  {
    PartitionSlices(p, d[0]);
    LdDwordIs(d[0], 454, p.lba);
  }

  // ------------------------------------------------------------- the code

  /** The card has the boot record r of a FAT volume in sector bsect: sector 0, or the one that the
      partition table in sector 0 names first. */
  ghost predicate HasVolume(d: Image, r: Boot, bsect: nat) {
    && bsect < |d| && BootOk(r) && d[bsect] == BootBytes(r) && SaysFat(r)
    && (bsect == 0 || exists p: Partition :: Lists(d, p, bsect))
  }

  ghost predicate Lists(d: Image, p: Partition, bsect: nat) {
    && d != [] && PartitionOk(p) && d[0] == PartitionBytes(p) && p.kind != 0 && p.lba == bsect
    && !(p.code[54] == 0x46 && p.code[55] == 0x41)
  }

  lemma VolumeFound(d: Image, r: Boot, bsect: nat)
    requires HasVolume(d, r, bsect)
    ensures BootSector(d) == bsect && BootKind(d, bsect) == 0 && SectorBpb(d, bsect) == FieldsOf(r)
  {
    RecordParsed(d, bsect, r);
    if bsect != 0 {
      var p :| Lists(d, p, bsect);
      PartitionParsed(d, p);
    }
  }

  /** The geometry that a boot record in sector bsect describes, when it has n clusters. */
  function Described(b: Bpb, bsect: nat, n: nat): Volume {
    var tables := bsect + b.rsvdSecCnt;
    var root := tables + b.numFats * b.fatSz;
    Volume(if n < 4085 then Fat12 else Fat16, b.secPerClus, b.rootEntCnt, n + 2, tables, root, root + b.rootEntCnt / 16)
  }

  /** Sectors that are left for clusters. */
  function Room(b: Bpb): int {
    b.totSec - b.rsvdSecCnt - b.numFats * b.fatSz - b.rootEntCnt / 16
  }

  lemma DescribedIs(b: Bpb, bsect: nat, size: nat, n: nat)
    requires Consistent(b, bsect, size) && n * b.secPerClus <= Room(b) < (n + 1) * b.secPerClus
    ensures LastCluster(b) < 0xFFF7 <==> n < 65525
    ensures n < 65525 ==> Geometry(b, bsect) == Described(b, bsect, n) && Sound(Geometry(b, bsect), size)
  {
    GeometryMeaning(b, bsect, size);
    MulSucc(n, b.secPerClus);
    DivModUnique(Room(b), b.secPerClus, n, Room(b) - n * b.secPerClus);
  }

  /** The volume in sector bsect can be mounted, and with which geometry. */
  ghost predicate Offers(d: Image, bsect: nat, ok: bool, v: Volume) {
    && bsect < |d| && BootSector(d) == bsect && BootKind(d, bsect) == 0 && SectorBpb(d, bsect).secPerClus > 0
    && ok == (LastCluster(SectorBpb(d, bsect)) < 0xFFF7) && (ok ==> v == Geometry(SectorBpb(d, bsect), bsect))
  }

  /** The card holds the consistent boot record r of a volume of n clusters in sector bsect. */
  ghost predicate Formatted(d: Image, r: Boot, bsect: nat, n: nat) {
    && HasVolume(d, r, bsect) && Consistent(FieldsOf(r), bsect, |d|)
    && n * r.secPerClus <= Room(FieldsOf(r)) < (n + 1) * r.secPerClus
  }

  lemma FormattedOffers(d: Image, r: Boot, bsect: nat, n: nat)
    requires Formatted(d, r, bsect, n)
    ensures Offers(d, bsect, n < 65525, Described(FieldsOf(r), bsect, n))
    ensures n < 65525 ==> Sound(Described(FieldsOf(r), bsect, n), |d|)
  {
    VolumeFound(d, r, bsect);
    DescribedIs(FieldsOf(r), bsect, |d|, n);
  }

  method MountOffered(fs: FileSystem, ghost bsect: nat, ghost ok: bool, ghost v: Volume) returns (res: FResult)
    requires fs.card.transfer.Idle? && Offers(fs.card.sectors, bsect, ok, v)
    requires Divides(fs.card.sectors, 0)
    requires Partitioned(fs.card.sectors) ==> Divides(fs.card.sectors, PartitionSector(fs.card.sectors))
    modifies fs`mounted, fs`vol, fs`isOpen, fs`wip
    modifies fs.card`transfer, fs.card`clocked, fs.card`forwarded, fs.card`ops
    ensures fs.card.transfer.Idle? && fs.mounted == (res == FrOk) && old(fs.card.ops) <= fs.card.ops
    ensures !fs.card.FaultSince(old(fs.card.ops)) ==>
      res == (if ok then FrOk else FrNoFilesystem) && (ok ==> fs.vol == v)
  {
    ghost var taken;
    res, taken := Mount(fs, true);
  }

  /** pf_mount of such a card: it succeeds exactly if n is below 65525, and then the geometry is the
      one that the boot record describes. */
  method MountRecord(fs: FileSystem, ghost r: Boot, ghost bsect: nat, ghost n: nat) returns (res: FResult)
    requires fs.card.transfer.Idle? && Formatted(fs.card.sectors, r, bsect, n)
    requires Divides(fs.card.sectors, 0)
    requires Partitioned(fs.card.sectors) ==> Divides(fs.card.sectors, PartitionSector(fs.card.sectors))
    modifies fs`mounted, fs`vol, fs`isOpen, fs`wip
    modifies fs.card`transfer, fs.card`clocked, fs.card`forwarded, fs.card`ops
    ensures fs.card.transfer.Idle? && fs.mounted == (res == FrOk) && old(fs.card.ops) <= fs.card.ops
    ensures !fs.card.FaultSince(old(fs.card.ops)) ==> res == if n < 65525 then FrOk else FrNoFilesystem
    ensures !fs.card.FaultSince(old(fs.card.ops)) && n < 65525 ==>
      fs.vol == Described(FieldsOf(r), bsect, n) && Sound(fs.vol, |fs.card.sectors|)
  {
    FormattedOffers(fs.card.sectors, r, bsect, n);
    res := MountOffered(fs, bsect, n < 65525, Described(FieldsOf(r), bsect, n));
  }
}
