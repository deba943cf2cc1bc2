/** A whole card: mounting it, opening a file by its path and reading it gives the bytes that the
    card has for that file, from boot record to data sector. */
module WholeCard {
  import opened Bits
  import opened Card
  import opened FatVolume
  import opened FatTable
  import opened FatNames
  import opened FileModel
  import opened FileEngine
  import opened MountEngine
  import opened BootRecord
  import opened DirTable
  import opened PathEngine
  import opened PathTable

  /** The first allocation table of the volume holds the entries e. */
  ghost predicate HasTable(d: Image, v: Volume, e: seq<nat>) {
    && |e| == v.nFatent
    && match v.fsType
       case Fat12 => (forall i :: 0 <= i < |e| ==> e[i] < 4096) && Laid(d, v.fatbase, Pack12(e))
       case Fat16 => (forall i :: 0 <= i < |e| ==> e[i] < 0x1_0000) && Laid(d, v.fatbase, Pack16(e))
  }

  /** The clusters of chain are different, and each entry leads to the next of them, the last one's to
      none. */
  predicate Follows(e: seq<nat>, chain: seq<nat>) {
    && (forall i :: 0 <= i < |chain| ==> 2 <= chain[i] < |e|)
    && (forall i, j :: 0 <= i < j < |chain| ==> chain[i] != chain[j])
    && (forall i :: 0 <= i < |chain| ==> LeadsOn(e, chain, i))
  }

  predicate LeadsOn(e: seq<nat>, chain: seq<nat>, i: nat)
    requires i < |chain|
  {
    chain[i] < |e| && if i + 1 < |chain| then e[chain[i]] == chain[i + 1] else e[chain[i]] >= |e|
  }

  lemma EntryOf(d: Image, v: Volume, e: seq<nat>, c: nat)
    requires HasTable(d, v, e) && 2 <= c < |e|
    ensures FatEntry(d, v, c) == e[c]
  {
    if v.fsType.Fat12? { Fat12Decodes(d, v, e, c); } else { Fat16Decodes(d, v, e, c); }
  }

  lemma FollowsIsChain(d: Image, v: Volume, e: seq<nat>, chain: seq<nat>)
    requires HasTable(d, v, e) && Follows(e, chain)
    ensures IsChain(d, v, chain)
  {
    forall i | 0 <= i < |chain| ensures Linked(d, v, chain, i) {
      assert LeadsOn(e, chain, i);
      EntryOf(d, v, e, chain[i]);
    }
  }

  /** The file of a directory entry: a chain of clusters that starts at the entry's and has room for its
      size. */
  predicate HasFile(v: Volume, e: seq<nat>, entry: Entry, chain: seq<nat>) {
    && Follows(e, chain) && entry.size <= 512 * (v.csize * |chain|)
    && (chain != [] ==> chain[0] == entry.cluster)
  }

  /** Byte i of the file: its cluster is number i / 512 / csize of the chain, and clusters lie one after
      the other from the data area's first sector on, beginning with number 2. */
  ghost predicate IsByte(d: Image, v: Volume, chain: seq<nat>, i: nat, b: byte) {
    v.csize > 0 && i / 512 / v.csize < |chain| &&
    var s := v.database + (chain[i / 512 / v.csize] - 2) * v.csize + i / 512 % v.csize;
    0 <= s < |d| && b == d[s][i % 512]
  }

  lemma ContentBytes(d: Image, v: Volume, chain: seq<nat>, n: nat, i: nat)
    requires Sound(v, |d|) && IsChain(d, v, chain) && Covers(v, chain, n) && i < n
    ensures IsByte(d, v, chain, i, Content(d, v, chain, n)[i])
  {
    CoversSector(v, chain, n, i);
    FileSectorInData(d, v, |d|, chain, i / 512);
    Clust2SectExact(v, chain[i / 512 / v.csize], |d|);
  }

  lemma RoomCovers(v: Volume, chain: seq<nat>, n: nat)
    requires v.csize > 0 && n <= 512 * (v.csize * |chain|)
    ensures Covers(v, chain, n)
  {
    if n > 0 {
      var j, m := (n - 1) / 512, v.csize * |chain|;
      assert j < m;
      Quotient(j, v.csize, |chain|, m);
    }
  }

  lemma FileThere(d: Image, v: Volume, e: seq<nat>, entry: Entry, chain: seq<nat>)
    requires Sound(v, |d|) && HasTable(d, v, e) && HasFile(v, e, entry, chain) && EntryOk(entry)
    ensures FileOk(d, v, chain, entry.size, entry.cluster)
  {
    FollowsIsChain(d, v, e, chain);
    RoomCovers(v, chain, entry.size);
  }

  /** What the card holds: the boot record r of a volume of n clusters in sector bsect, the table e,
      under the path the entry of a file, and the file's clusters. */
  ghost predicate Holds(d: Image, r: Boot, bsect: nat, n: nat, e: seq<nat>, path: seq<seq<byte>>, entry: Entry,
                        chain: seq<nat>) {
    && Formatted(d, r, bsect, n) && n < 65525 && EntryOk(entry) && !SaysDirectory(entry)
    && var v := Described(FieldsOf(r), bsect, n);
       HasTable(d, v, e) && Denotes(d, v, path, File(entry)) && HasFile(v, e, entry, chain)
  }

  lemma HeldFile(d: Image, r: Boot, bsect: nat, n: nat, e: seq<nat>, path: seq<seq<byte>>, entry: Entry,
                 chain: seq<nat>, v: Volume)
    requires Holds(d, r, bsect, n, e, path, entry, chain) && v == Described(FieldsOf(r), bsect, n)
    ensures Sound(v, |d|) && Denotes(d, v, path, File(entry)) && FileOk(d, v, chain, entry.size, entry.cluster)
  {
    FormattedOffers(d, r, bsect, n);
    FileThere(d, v, e, entry, chain);
  }

  lemma AllBytes(d: Image, v: Volume, chain: seq<nat>, n: nat, org: nat, buf: seq<byte>)
    requires FileOk(d, v, chain, n, org) && n <= |buf| && buf[..n] == Content(d, v, chain, n)
    ensures forall i :: 0 <= i < n ==> IsByte(d, v, chain, i, buf[i])
  {
    forall i | 0 <= i < n ensures IsByte(d, v, chain, i, buf[i]) {
      ContentBytes(d, v, chain, n, i);
      assert buf[i] == buf[..n][i];
    }
  }

  /** The card refuses no transfer. */
  ghost predicate Flawless(card: MemoryCard) {
    forall k: nat :: !card.fault(k)
  }

  /** Reads a file that has just been opened. */
  method ReadWhole(fs: FileSystem, buff: array<byte>) returns (res: FResult, br: nat)
    requires fs.Ready() && fs.fptr == 0 && fs.card.transfer.Idle? && Flawless(fs.card) && fs.fsize <= buff.Length
    modifies fs`isOpen, fs`wip, fs`fptr, fs`currClust, fs`dsect
    modifies fs.card`transfer, fs.card`clocked, fs.card`forwarded, fs.card`ops, buff
    ensures res == FrOk && br == fs.fsize && buff[..br] == fs.Bytes() && buff[br..] == old(buff[br..])
  {
    ghost var got;
    res, br, got := fs.Read(buff, fs.fsize);
    assert buff[..br] == buff[0..br];
  }

  /** Opens the file and reads it. */
  method OpenAndRead(fs: FileSystem, names: seq<Name>, k: nat, slash: bool, end: seq<byte>, buff: array<byte>,
                     ghost entry: Entry, ghost chain: seq<nat>) returns (res: FResult, br: nat)
    requires fs.mounted && fs.card.transfer.Idle? && Flawless(fs.card) && !SaysDirectory(entry)
    requires names != [] && (forall i :: 0 <= i < |names| ==> ValidName(names[i])) && Ends(end)
    requires Denotes(fs.card.sectors, fs.vol, SfnAll(names), File(entry))
    requires FileOk(fs.card.sectors, fs.vol, chain, entry.size, entry.cluster) && entry.size <= buff.Length
    modifies fs`isOpen, fs`wip, fs`orgClust, fs`fsize, fs`fptr, fs`chain, fs`currClust, fs`dsect
    modifies fs.card`transfer, fs.card`clocked, fs.card`forwarded, fs.card`ops, buff
    ensures res == FrOk && br == entry.size
    ensures buff[..br] == Content(fs.card.sectors, fs.vol, chain, entry.size) && buff[br..] == old(buff[br..])
  {
    res := OpenNamed(fs, names, k, slash, end, File(entry), chain);
    res, br := ReadWhole(fs, buff);
  }

  /** Mounts the card. */
  method MountHeld(fs: FileSystem, ghost r: Boot, ghost bsect: nat, ghost n: nat, ghost v: Volume)
    returns (res: FResult)
    requires fs.card.transfer.Idle? && Flawless(fs.card) && Formatted(fs.card.sectors, r, bsect, n) && n < 65525
    requires v == Described(FieldsOf(r), bsect, n) && Divides(fs.card.sectors, 0)
    requires Partitioned(fs.card.sectors) ==> Divides(fs.card.sectors, PartitionSector(fs.card.sectors))
    modifies fs`mounted, fs`vol, fs`isOpen, fs`wip
    modifies fs.card`transfer, fs.card`clocked, fs.card`forwarded, fs.card`ops
    ensures fs.card.transfer.Idle? && fs.mounted && fs.vol == v
  {
    res := MountRecord(fs, r, bsect, n);
  }

  /** pf_mount, pf_open and pf_read on such a card: the file's bytes and no others come into the buffer. */
  method ReadFile(fs: FileSystem, names: seq<Name>, k: nat, slash: bool, end: seq<byte>, buff: array<byte>,
                  ghost r: Boot, ghost bsect: nat, ghost n: nat, ghost v: Volume, ghost e: seq<nat>,
                  ghost entry: Entry, ghost chain: seq<nat>) returns (res: FResult, br: nat)
    requires fs.card.transfer.Idle? && Flawless(fs.card) && v == Described(FieldsOf(r), bsect, n)
    requires names != [] && (forall i :: 0 <= i < |names| ==> ValidName(names[i])) && Ends(end)
    requires Holds(fs.card.sectors, r, bsect, n, e, SfnAll(names), entry, chain) && entry.size <= buff.Length
    requires Divides(fs.card.sectors, 0)
    requires Partitioned(fs.card.sectors) ==> Divides(fs.card.sectors, PartitionSector(fs.card.sectors))
    modifies fs`mounted, fs`vol, fs`isOpen, fs`wip, fs`orgClust, fs`fsize, fs`fptr, fs`chain, fs`currClust, fs`dsect
    modifies fs.card`transfer, fs.card`clocked, fs.card`forwarded, fs.card`ops, buff
    ensures res == FrOk && br == entry.size && buff[br..] == old(buff[br..])
    ensures forall i :: 0 <= i < br ==> IsByte(fs.card.sectors, v, chain, i, buff[i])
  {
    ghost var d := fs.card.sectors;
    HeldFile(d, r, bsect, n, e, SfnAll(names), entry, chain, v);
    res := MountHeld(fs, r, bsect, n, v);
    res, br := OpenAndRead(fs, names, k, slash, end, buff, entry, chain);
    AllBytes(d, v, chain, entry.size, entry.cluster, buff[..]);
  }
}
