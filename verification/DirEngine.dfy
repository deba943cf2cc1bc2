/** The directory search of Petit FatFs over the card. */
module DirEngine {
  import opened Bits
  import opened Card
  import opened FatVolume
  import opened FileEngine
  import opened DirModel

  class Directory {
    const fs: FileSystem
    var index: nat
    var sclust: nat    // start cluster, 0 for the root directory
    var clust: nat
    var sect: nat

    constructor (f: FileSystem)
      ensures fs == f && sclust == 0
    {
      fs, index, sclust, clust, sect := f, 0, 0, 0, 0;
    }

    ghost predicate Mounted()
      reads fs, fs.card
    {
      Sound(fs.vol, |fs.card.sectors|) && fs.card.transfer.Idle?
    }

    ghost predicate OnEntry()
      reads this, fs, fs.card
    {
      fs.vol.csize > 0 && StandsAt(fs.card.sectors, fs.vol, sclust, index, clust, sect)
    }

    /** dir_rewind. */
    method Rewind() returns (res: FResult)
      requires Mounted()
      modifies this`index, this`clust, this`sect
      ensures index == 0
      ensures res == if PlaceOf(fs.card.sectors, fs.vol, sclust, 0).At? then FrOk else FrDiskErr
      ensures res == FrOk ==> OnEntry()
    {
      index := 0;
      var clst := sclust;
      if clst == 1 || clst >= fs.vol.nFatent {
        return FrDiskErr;
      }
      clust := clst;
      sect := if clst != 0 then Clust2Sect(fs.vol, clst) else fs.vol.dirbase;
      res := FrOk;
    }

    /** What dir_next returns when it steps to a place. */
    ghost function Step(p: Place): FResult {
      match p
      case At(_) => FrOk
      case End => FrNoFile
      case Bad => FrDiskErr
    }

    /** The part of dir_next that steps to the next cluster. */
    method NextLink(i: nat) returns (res: FResult)
      requires Mounted() && OnEntry() && i == index + 1 < INDEX_LIMIT
      requires clust != 0 && sclust != 0 && i % 16 == 0 && i / 16 % fs.vol.csize == 0
      modifies this`clust, this`sect
      modifies fs.card`transfer, fs.card`clocked, fs.card`forwarded, fs.card`ops
      ensures Mounted() && fs.card.forwarded == old(fs.card.forwarded) && old(fs.card.ops) <= fs.card.ops
      ensures res == if fs.card.FaultSince(old(fs.card.ops)) then FrDiskErr
                     else Step(PlaceOf(fs.card.sectors, fs.vol, sclust, i))
      ensures res == FrOk ==> StandsAt(fs.card.sectors, fs.vol, sclust, i, clust, sect)
    {
      NextCluster(fs.card.sectors, fs.vol, sclust, index, clust, sect);
      var clst := fs.GetFat(clust);
      if clst <= 1 { return FrDiskErr; }
      if clst >= fs.vol.nFatent { return FrNoFile; }
      clust := clst;
      sect := Clust2Sect(fs.vol, clst);
      res := FrOk;
    }

    /** The part of dir_next that steps to the next sector. */
    method NextSector(i: nat) returns (res: FResult)
      requires Mounted() && OnEntry() && i == index + 1 < INDEX_LIMIT && i % 16 == 0
      modifies this`clust, this`sect
      modifies fs.card`transfer, fs.card`clocked, fs.card`forwarded, fs.card`ops
      ensures Mounted() && fs.card.forwarded == old(fs.card.forwarded) && old(fs.card.ops) <= fs.card.ops
      ensures res == if fs.card.FaultSince(old(fs.card.ops)) then FrDiskErr
                     else Step(PlaceOf(fs.card.sectors, fs.vol, sclust, i))
      ensures res == FrOk ==> StandsAt(fs.card.sectors, fs.vol, sclust, i, clust, sect)
    {
      res := FrOk;
      StandsOnSector(fs.card.sectors, fs.vol, sclust, index, clust, sect);
      if clust == 0 {
        NextInRoot(fs.card.sectors, fs.vol, index, clust, sect);
        sect := sect + 1;
        if i >= fs.vol.nRootdir {
          return FrNoFile;
        }
      } else {
        MaskCluster(i / 16, fs.vol.csize);
        if BitAnd(i / 16, fs.vol.csize - 1) == 0 {
          res := NextLink(i);
        } else {
          NextInCluster(fs.card.sectors, fs.vol, sclust, index, clust, sect);
          sect := sect + 1;
        }
      }
    }

    /** dir_next: the index wraps at 16 bits, which ends the table. */
    method Next() returns (res: FResult)
      requires Mounted() && OnEntry()
      modifies this`index, this`clust, this`sect
      modifies fs.card`transfer, fs.card`clocked, fs.card`forwarded, fs.card`ops
      ensures Mounted() && fs.card.forwarded == old(fs.card.forwarded) && old(fs.card.ops) <= fs.card.ops
      ensures res == if fs.card.FaultSince(old(fs.card.ops)) then FrDiskErr
                     else Step(PlaceOf(fs.card.sectors, fs.vol, sclust, old(index) + 1))
      ensures res == FrOk ==> index == old(index) + 1 && OnEntry()
    {
      StandsOnSector(fs.card.sectors, fs.vol, sclust, index, clust, sect);
      NextIndex(fs.card.sectors, fs.vol, sclust, index);
      var i := (index + 1) % 0x1_0000;
      if i == 0 || sect == 0 {
        return FrNoFile;
      }
      res := FrOk;
      if i % 16 == 0 {
        res := NextSector(i);
      } else {
        NextInSector(fs.card.sectors, fs.vol, sclust, index, clust, sect);
      }
      if res == FrOk {
        index := i;
      }
    }

    /** Reads the current entry and compares it with name. */
    method Look(name: seq<byte>) returns (k: Kind, dir: seq<byte>)
      requires Mounted() && OnEntry() && |name| == 11
      modifies fs.card`transfer, fs.card`clocked, fs.card`forwarded, fs.card`ops
      ensures Mounted() && fs.card.forwarded == old(fs.card.forwarded) && old(fs.card.ops) <= fs.card.ops
      ensures k == if fs.card.FaultSince(old(fs.card.ops)) then Fail
                   else KindOf(fs.card.sectors, fs.vol, sclust, name, index)
      ensures k == Hit ==> sect < |fs.card.sectors| && dir == EntryAt(fs.card.sectors, sect, index)
    {
      ghost var first := fs.card.ops;
      var ok;
      ok, dir := fs.card.Fetch(sect, index % 16 * 32, 32);
      assert fs.card.fault(first) ==> fs.card.FaultSince(first);
      k := if !ok then Fail
           else if dir[0] == 0 then Stop
           else if BitAnd(dir[DIR_ATTR], AM_VOL) == 0 && dir[..11] == name then Hit
           else Miss;
    }

    /** dir_find: the entry called name, whose index is n, or the reason there is none. */
    method Find(name: seq<byte>) returns (res: FResult, dir: seq<byte>, ghost n: nat)
      requires Mounted() && |name| == 11
      modifies this`index, this`clust, this`sect
      modifies fs.card`transfer, fs.card`clocked, fs.card`forwarded, fs.card`ops
      ensures Mounted() && fs.card.forwarded == old(fs.card.forwarded) && old(fs.card.ops) <= fs.card.ops
      ensures fs.card.FaultSince(old(fs.card.ops)) ==> res == FrDiskErr
      ensures !fs.card.FaultSince(old(fs.card.ops)) ==>
        && DecidedAt(fs.card.sectors, fs.vol, sclust, name, n)
        && res == Verdict(KindOf(fs.card.sectors, fs.vol, sclust, name, n))
      ensures res == FrOk ==> index == n && OnEntry() && sect < |fs.card.sectors|
      ensures res == FrOk ==> dir == EntryAt(fs.card.sectors, sect, index)
    {
      res := Rewind();
      dir, n := [], 0;
      while res == FrOk
        invariant Mounted() && (res == FrOk ==> OnEntry() && n == index)
        invariant fs.card.forwarded == old(fs.card.forwarded) && old(fs.card.ops) <= fs.card.ops
        invariant fs.card.FaultSince(old(fs.card.ops)) ==> res == FrDiskErr
        invariant !fs.card.FaultSince(old(fs.card.ops)) ==>
          && AllMiss(fs.card.sectors, fs.vol, sclust, name, n)
          && res == Step(PlaceOf(fs.card.sectors, fs.vol, sclust, n))
        decreases if res == FrOk then INDEX_LIMIT - index else -1
      {
        var k;
        k, dir := Look(name);
        if k != Miss {
          return Verdict(k), dir, n;
        }
        MissMore(fs.card.sectors, fs.vol, sclust, name, n);
        res := Next();
        n := n + 1;
      }
    }
  }

  /** What dir_find returns for the entry that decides the search. */
  function Verdict(k: Kind): FResult
    requires k != Miss
  {
    match k
    case Hit => FrOk
    case Stop => FrNoFile
    case Fail => FrDiskErr
  }
}
