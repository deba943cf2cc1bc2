/** The file operations of Petit FatFs over the card. */
module FileEngine {
  import opened Bits
  import opened Card
  import opened FatVolume
  import opened FileModel
  import opened WriteSlip

  datatype FResult = FrOk | FrDiskErr | FrNotReady | FrNoFile | FrNoPath | FrNotOpened | FrNotEnabled | FrNoFilesystem

  class FileSystem {
    const card: MemoryCard
    var mounted: bool      // the FatFs pointer is set
    var vol: Volume
    var isOpen: bool       // FA_OPENED
    var wip: bool          // FA__WIP
    var fptr: nat
    var fsize: nat
    var orgClust: nat
    var currClust: nat
    var dsect: nat
    ghost var chain: seq<nat>

    constructor (c: MemoryCard)
      ensures card == c && !mounted && !isOpen && !wip
    {
      card, mounted, isOpen, wip := c, false, false, false;
      vol := Volume(Fat16, 1, 0, 2, 0, 1, 1);
      fptr, fsize, orgClust, currClust, dsect, chain := 0, 0, 0, 0, 0, [];
    }

    /** The two bytes at bc of the allocation table, from one sector or from two. */
    method ReadTableWord(bc: nat) returns (ok: bool, w: nat)
      requires card.transfer.Idle? && vol.fatbase + (bc + 1) / 512 < |card.sectors|
      modifies card`transfer, card`clocked, card`forwarded, card`ops
      ensures card.transfer.Idle? && card.forwarded == old(card.forwarded) && old(card.ops) <= card.ops
      ensures ok <==> !card.FaultSince(old(card.ops))
      ensures ok ==> w == TableWord(card.sectors, vol.fatbase, bc)
    {
      var sect, ofs := vol.fatbase + bc / 512, bc % 512;
      ghost var first := card.ops;
      var buf: seq<byte>;
      if ofs != 511 {
        ok, buf := card.Fetch(sect, ofs, 2);
      } else {
        ok, buf := card.Fetch(sect, 511, 1);
        if ok {
          var low := buf;
          ok, buf := card.Fetch(sect + 1, 0, 1);
          buf := low + buf;
          assert card.fault(first + 1) ==> card.FaultSince(first);
        }
      }
      assert card.fault(first) ==> card.FaultSince(first);
      w := if ok then LdWord(buf, 0) else 0;
    }

    /** get_fat: 1 on error. */
    method GetFat(clst: nat) returns (r: nat)
      requires card.transfer.Idle? && Sound(vol, |card.sectors|)
      modifies card`transfer, card`clocked, card`forwarded, card`ops
      ensures card.transfer.Idle? && card.forwarded == old(card.forwarded) && old(card.ops) <= card.ops
      ensures r == if card.FaultSince(old(card.ops)) then 1 else FatEntry(card.sectors, vol, clst)
    {
      if clst < 2 || clst >= vol.nFatent {
        return 1;
      }
      var bc := if vol.fsType.Fat12? then clst + clst / 2 else 2 * clst;
      FatWordOnCard(vol, |card.sectors|, clst, bc);
      var ok, wc := ReadTableWord(bc);
      if !ok {
        return 1;
      }
      match vol.fsType {
        case Fat12 =>
          r := if BitAnd(clst, 1) != 0 then wc / 16 else BitAnd(wc, 0xFFF);
          MaskNibbles(clst, wc);
        case Fat16 =>
          r := wc;
      }
    }

    /** The open file is well formed on the card and the cursor agrees with it. */
    ghost predicate Ready()
      reads this, card
    {
      && mounted && isOpen
      && FileOk(card.sectors, vol, chain, fsize, orgClust)
      && fptr <= fsize
      && CursorOk(vol, chain, fptr, currClust, dsect)
    }

    /** The cursor is in the sector that holds fptr. */
    ghost predicate InSector()
      reads this, card
    {
      Located(card.sectors, vol, chain, fptr, currClust, dsect)
    }

    ghost function Bytes(): seq<byte>
      reads this, card
    {
      Content(card.sectors, vol, chain, fsize)
    }

    /** On a sector boundary: step to the next cluster if need be, then find the sector. */
    method Locate() returns (ok: bool)
      requires card.transfer.Idle? && Sound(vol, |card.sectors|)
      modifies this`currClust, this`dsect, card`transfer, card`clocked, card`forwarded, card`ops
      ensures card.transfer.Idle? && card.forwarded == old(card.forwarded) && old(card.ops) <= card.ops
      ensures var c := ChosenCluster(card.sectors, vol, orgClust, old(currClust), fptr);
              && (ok <==> !card.FaultSince(old(card.ops)) && c > 1 && Clust2Sect(vol, c) != 0)
              && (ok ==> currClust == c && dsect == Clust2Sect(vol, c) + fptr / 512 % vol.csize)
    {
      var cs := BitAnd(fptr / 512, vol.csize - 1);
      MaskCluster(fptr / 512, vol.csize);
      if cs == 0 {
        var clst := orgClust;
        if fptr != 0 {
          clst := GetFat(currClust);
        }
        if clst <= 1 {
          return false;
        }
        currClust := clst;
      }
      var sect := Clust2Sect(vol, currClust);
      if sect == 0 {
        return false;
      }
      dsect := sect + cs;
      return true;
    }

    /** The fields of an open file on a quiet card are in range; nothing is said about its chain. */
    ghost predicate Quiet()
      reads this, card
    {
      && mounted && isOpen && card.transfer.Idle?
      && Sound(vol, |card.sectors|) && fptr <= fsize < 0x1_0000_0000
    }

    /** The same wherever the cursor is in the file. */
    method FindSector(ghost good: bool) returns (ok: bool)
      requires Quiet() && fptr < fsize && (good ==> Ready())
      modifies this`currClust, this`dsect, card`transfer, card`clocked, card`forwarded, card`ops
      ensures card.transfer.Idle? && card.forwarded == old(card.forwarded) && old(card.ops) <= card.ops
      ensures ok ==> !card.FaultSince(old(card.ops))
      ensures good ==> (ok <==> !card.FaultSince(old(card.ops))) && (ok ==> InSector())
    {
      ok := true;
      if fptr % 512 == 0 {
        if good { ChosenIsSector(card.sectors, vol, chain, fsize, orgClust, fptr, currClust, dsect); }
        ok := Locate();
      } else if good {
        CursorInside(card.sectors, vol, chain, fsize, orgClust, fptr, currClust, dsect);
      }
    }

    /** Reads from the sector that the cursor is in. */
    method ReadHere(buff: array?<byte>, at: nat, rcnt: nat, ghost good: bool, ghost bytes: seq<byte>)
      returns (ok: bool, ghost part: seq<byte>)
      requires card.transfer.Idle? && (good ==> InSector() && bytes == Bytes())
      requires 1 <= rcnt <= 512 - fptr % 512 && fptr + rcnt <= fsize
      requires buff != null ==> at + rcnt <= buff.Length
      modifies this`fptr, card`transfer, card`clocked, card`forwarded, card`ops
      modifies if buff != null then {buff} else {}
      ensures card.transfer.Idle? && card.ops == old(card.ops) + 1
      ensures ok <==> !card.fault(old(card.ops)) && dsect < |card.sectors|
      ensures !ok ==> card.SinkOf(buff) == old(card.SinkOf(buff)) && fptr == old(fptr)
      ensures ok ==> fptr == old(fptr) + rcnt && |part| == rcnt
      ensures ok ==> Delivered(old(card.SinkOf(buff)), card.SinkOf(buff), at, part)
      ensures good ==> dsect < |card.sectors|
      ensures good && ok ==> CursorOk(vol, chain, fptr, currClust, dsect) && part == bytes[old(fptr)..fptr]
    {
      if good { ReadsHere(card.sectors, vol, chain, fsize, fptr, currClust, dsect, rcnt, bytes); }
      var ofs := fptr % 512;
      part := if dsect < |card.sectors| then card.sectors[dsect][ofs..ofs + rcnt] else [];
      ok := card.ReadPart(buff, at, dsect, ofs, rcnt);
      if ok {
        fptr := fptr + rcnt;
      }
    }

    /** One pass of the loop of pf_read: as much as the current sector holds; 0 on error. */
    method ReadStep(buff: array?<byte>, at: nat, btr: nat, ghost good: bool, ghost bytes: seq<byte>)
      returns (rcnt: nat, ghost part: seq<byte>)
      requires Quiet() && 1 <= btr <= fsize - fptr && (good ==> Ready() && bytes == Bytes())
      requires buff != null ==> at + btr <= buff.Length
      modifies this`fptr, this`currClust, this`dsect
      modifies card`transfer, card`clocked, card`forwarded, card`ops
      modifies if buff != null then {buff} else {}
      ensures card.transfer.Idle? && old(card.ops) <= card.ops
      ensures |part| == rcnt <= btr && fptr == old(fptr) + rcnt
      ensures rcnt == 0 ==> card.SinkOf(buff) == old(card.SinkOf(buff))
      ensures rcnt > 0 ==> Delivered(old(card.SinkOf(buff)), card.SinkOf(buff), at, part)
      ensures rcnt > 0 ==> !card.FaultSince(old(card.ops))
      ensures good && rcnt == 0 ==> card.FaultSince(old(card.ops))
      ensures good && rcnt > 0 ==> CursorOk(vol, chain, fptr, currClust, dsect) && part == bytes[old(fptr)..fptr]
    {
      var ok := FindSector(good);
      if !ok {
        return 0, [];
      }
      rcnt := Min(512 - fptr % 512, btr);
      ok, part := ReadHere(buff, at, rcnt, good, bytes);
      if !ok {
        return 0, [];
      }
    }

    /** The loop of pf_read: stops short of btr bytes only on an error. */
    method ReadLoop(buff: array?<byte>, btr: nat, ghost good: bool, ghost bytes: seq<byte>)
      returns (br: nat, ghost got: seq<byte>)
      requires Quiet() && btr <= fsize - fptr && (good ==> Ready() && bytes == Bytes())
      requires buff != null ==> btr <= buff.Length
      modifies this`fptr, this`currClust, this`dsect
      modifies card`transfer, card`clocked, card`forwarded, card`ops
      modifies if buff != null then {buff} else {}
      ensures card.transfer.Idle? && old(card.ops) <= card.ops
      ensures |got| == br <= btr && fptr == old(fptr) + br
      ensures Delivered(old(card.SinkOf(buff)), card.SinkOf(buff), 0, got)
      ensures br == btr ==> !card.FaultSince(old(card.ops))
      ensures good && br < btr ==> card.FaultSince(old(card.ops))
      ensures good && br == btr ==> CursorOk(vol, chain, fptr, currClust, dsect)
      ensures good ==> got == bytes[old(fptr)..fptr]
    {
      ghost var was, start := card.SinkOf(buff), fptr;
      br, got := 0, [];
      while br < btr
        invariant card.transfer.Idle? && old(card.ops) <= card.ops && !card.FaultSince(old(card.ops))
        invariant |got| == br <= btr && fptr == start + br
        invariant Delivered(was, card.SinkOf(buff), 0, got)
        invariant good ==> CursorOk(vol, chain, fptr, currClust, dsect) && got == bytes[start..fptr]
      {
        ghost var mid, from := card.SinkOf(buff), fptr;
        var rcnt, part := ReadStep(buff, br, btr - br, good, bytes);
        if rcnt == 0 {
          return;
        }
        DeliveredJoin(was, mid, card.SinkOf(buff), got, part);
        if good { SliceJoin(bytes, start, from, fptr); }
        br, got := br + rcnt, got + part;
      }
    }

    /** pf_read. */
    method Read(buff: array?<byte>, btr: nat) returns (res: FResult, br: nat, ghost got: seq<byte>)
      requires mounted && isOpen ==> Quiet()
      requires buff != null ==> btr <= buff.Length
      modifies this`fptr, this`currClust, this`dsect, this`isOpen, this`wip
      modifies card`transfer, card`clocked, card`forwarded, card`ops
      modifies if buff != null then {buff} else {}
      ensures !mounted ==> res == FrNotEnabled && br == 0
      ensures mounted && !old(isOpen) ==> res == FrNotOpened && br == 0
      ensures mounted && old(isOpen) ==>
        && (res == FrOk || res == FrDiskErr) && card.transfer.Idle? && old(card.ops) <= card.ops
        && fptr == old(fptr) + br && |got| == br <= Min(btr, fsize - old(fptr))
        && Delivered(old(card.SinkOf(buff)), card.SinkOf(buff), 0, got)
        && (res == FrOk ==> Quiet() && br == Min(btr, fsize - old(fptr)) && wip == old(wip))
        && (res == FrOk ==> !card.FaultSince(old(card.ops)))
        && (res == FrDiskErr ==> !isOpen && !wip)
      ensures old(Ready()) ==>
        && res == (if card.FaultSince(old(card.ops)) then FrDiskErr else FrOk)
        && got == Bytes()[old(fptr)..fptr]
        && (res == FrOk ==> Ready())
    {
      got := [];
      if !mounted { return FrNotEnabled, 0, []; }
      if !isOpen { return FrNotOpened, 0, []; }
      var todo := Min(btr, fsize - fptr);
      ghost var bytes := Bytes();
      br, got := ReadLoop(buff, todo, Ready(), bytes);
      assert Bytes() == bytes;
      res := FrOk;
      if br < todo {
        isOpen, wip := false, false;
        res := FrDiskErr;
      }
    }

    /** One more read, after others that have forwarded the file's bytes from start on. */
    method ReadNext(size: nat, ghost bytes: seq<byte>, ghost start: nat, ghost sum: nat, ghost stream: seq<byte>)
      returns (res: FResult)
      requires Ready() && card.transfer.Idle? && bytes == Bytes()
      requires HasRead(bytes, start, fptr, sum, stream, card.forwarded)
      modifies this`fptr, this`currClust, this`dsect, this`isOpen, this`wip
      modifies card`transfer, card`clocked, card`forwarded, card`ops
      ensures card.transfer.Idle? && old(card.ops) <= card.ops
      ensures res == if card.FaultSince(old(card.ops)) then FrDiskErr else FrOk
      ensures start <= fptr <= fsize && card.forwarded == stream + bytes[start..fptr]
      ensures res == FrOk ==> Ready() && HasRead(bytes, start, fptr, sum + size, stream, card.forwarded)
    {
      ghost var from, was, br, got := fptr, card.forwarded, 0, [];
      res, br, got := Read(null, size);
      SliceJoin(bytes, start, from, fptr);
      if res == FrOk { ReadMore(bytes, start, from, fptr, sum, size, stream, was, card.forwarded); }
    }

    /** Reads of the given sizes one after the other, forwarded: together one read of their sum. */
    method ReadAll(sizes: seq<nat>) returns (res: FResult)
      requires Ready() && card.transfer.Idle?
      modifies this`fptr, this`currClust, this`dsect, this`isOpen, this`wip
      modifies card`transfer, card`clocked, card`forwarded, card`ops
      ensures res == if card.FaultSince(old(card.ops)) then FrDiskErr else FrOk
      ensures old(fptr) <= fptr <= fsize && card.forwarded == old(card.forwarded) + Bytes()[old(fptr)..fptr]
      ensures res == FrOk ==> Ready() && Bytes()[old(fptr)..fptr] == ReadSpec(Bytes(), old(fptr), Sum(sizes))
    {
      ghost var bytes, start, stream, first := Bytes(), fptr, card.forwarded, card.ops;
      ghost var sum: nat := 0;
      res := FrOk;
      var k := 0;
      while k < |sizes|
        invariant 0 <= k <= |sizes| && res == FrOk && first <= card.ops && !card.FaultSince(first)
        invariant Ready() && card.transfer.Idle? && sum == Sum(sizes[..k])
        invariant HasRead(bytes, start, fptr, sum, stream, card.forwarded)
      {
        res := ReadNext(sizes[k], bytes, start, sum, stream);
        if res != FrOk {
          return;
        }
        SumMore(sizes, k);
        sum, k := sum + sizes[k], k + 1;
      }
      assert sizes[..k] == sizes;
    }

    /** The cluster-following loop of pf_lseek, from the start of cluster m of the file's chain
        if good. */
    method FollowChain(ghost good: bool, ghost m0: nat, rest0: nat) returns (ok: bool, rest: nat)
      requires Sound(vol, |card.sectors|) && card.transfer.Idle? && rest0 > 0
      requires good ==> FileOk(card.sectors, vol, chain, fsize, orgClust) && fptr + rest0 <= fsize
      requires good ==> m0 < |chain| && currClust == chain[m0] && fptr == m0 * ClusterBytes(vol)
      modifies this`fptr, this`currClust
      modifies card`transfer, card`clocked, card`forwarded, card`ops
      ensures card.transfer.Idle? && card.forwarded == old(card.forwarded) && old(card.ops) <= card.ops
      ensures ok ==> !card.FaultSince(old(card.ops)) && rest > 0 && fptr + rest == old(fptr) + rest0
      ensures good && !ok ==> card.FaultSince(old(card.ops))
      ensures good && ok ==> (fptr + rest - 1) / 512 / vol.csize < |chain|
      ensures good && ok ==> currClust == chain[(fptr + rest - 1) / 512 / vol.csize]
    {
      ghost var m: nat := m0;
      rest := rest0;
      var bcs := vol.csize * 512;
      while rest > bcs
        invariant card.transfer.Idle? && card.forwarded == old(card.forwarded) && old(card.ops) <= card.ops
        invariant !card.FaultSince(old(card.ops))
        invariant good ==> m < |chain| && currClust == chain[m] && fptr == m * bcs
        invariant rest > 0 && fptr + rest == old(fptr) + rest0
      {
        if good {
          SeekMore(vol, chain, fsize, m, rest);
          assert Linked(card.sectors, vol, chain, m);
          MulSucc(m, bcs);
        }
        var clst := GetFat(currClust);
        if clst <= 1 || clst >= vol.nFatent {
          return false, rest;
        }
        currClust := clst;
        fptr, rest, m := fptr + bcs, rest - bcs, m + 1;
      }
      SeekEnd(vol, m, rest);
      ok := true;
    }

    /** Where pf_lseek starts to follow the chain: in the current cluster when the
        target is in it or behind it, at the start of the file otherwise. */
    method StartSeek(ghost good: bool, ifptr: nat, ofs: nat) returns (rest: nat, ghost m: nat)
      requires Sound(vol, |card.sectors|) && ifptr <= fsize < 0x1_0000_0000 && 0 < ofs <= fsize && fptr == 0
      requires good ==> FileOk(card.sectors, vol, chain, fsize, orgClust)
      requires good ==> CursorOk(vol, chain, ifptr, currClust, dsect)
      modifies this`fptr, this`currClust
      ensures rest > 0 && fptr + rest == ofs
      ensures good ==> m < |chain| && currClust == chain[m] && fptr == m * ClusterBytes(vol)
    {
      var bcs := vol.csize * 512;
      if ifptr > 0 && (ofs - 1) / bcs >= (ifptr - 1) / bcs {
        m := (ifptr - 1) / 512 / vol.csize;
        SeekResume(vol, ifptr, ofs, m);
        fptr := BitAnd(ifptr - 1, 0x1_0000_0000 - bcs);
        rest := ofs - fptr;
      } else {
        if good { CoversSector(vol, chain, fsize, 0); }
        currClust := orgClust;
        rest, m := ofs, 0;
      }
    }

    /** The end of pf_lseek: the sector of fptr in the current cluster. */
    method PlaceSector() returns (ok: bool)
      requires GoodCsize(vol.csize)
      modifies this`dsect
      ensures ok <==> Clust2Sect(vol, currClust) != 0
      ensures ok ==> dsect == Clust2Sect(vol, currClust) + fptr / 512 % vol.csize
    {
      var sect := Clust2Sect(vol, currClust);
      if sect == 0 {
        return false;
      }
      dsect := sect + BitAnd(fptr / 512, vol.csize - 1);
      MaskCluster(fptr / 512, vol.csize);
      ok := true;
    }

    /** pf_lseek to a position inside the file. */
    method SeekTo(ghost good: bool, ifptr: nat, target: nat) returns (ok: bool)
      requires Sound(vol, |card.sectors|) && card.transfer.Idle?
      requires ifptr <= fsize < 0x1_0000_0000 && 0 < target <= fsize && fptr == 0
      requires good ==> FileOk(card.sectors, vol, chain, fsize, orgClust)
      requires good ==> CursorOk(vol, chain, ifptr, currClust, dsect)
      modifies this`fptr, this`currClust, this`dsect
      modifies card`transfer, card`clocked, card`forwarded, card`ops
      ensures card.transfer.Idle? && card.forwarded == old(card.forwarded)
      ensures ok ==> fptr == target && !card.FaultSince(old(card.ops))
      ensures good && !ok ==> card.FaultSince(old(card.ops))
      ensures good && ok ==> CursorOk(vol, chain, fptr, currClust, dsect)
    {
      var rest, m := StartSeek(good, ifptr, target);
      ok, rest := FollowChain(good, m, rest);
      if ok {
        fptr := fptr + rest;
        if good { SeekCursor(card.sectors, vol, chain, fsize, orgClust, fptr, currClust); }
        ok := PlaceSector();
      }
    }

    /** pf_lseek. */
    method Lseek(ofs: nat) returns (res: FResult)
      requires mounted && isOpen ==> Quiet()
      modifies this`fptr, this`currClust, this`dsect, this`isOpen, this`wip
      modifies card`transfer, card`clocked, card`forwarded, card`ops
      ensures !mounted ==> res == FrNotEnabled
      ensures mounted && !old(isOpen) ==> res == FrNotOpened
      ensures mounted && old(isOpen) ==>
        && (res == FrOk || res == FrDiskErr) && card.transfer.Idle? && card.forwarded == old(card.forwarded)
        && (res == FrOk ==> Quiet() && fptr == Min(ofs, fsize) && wip == old(wip))
        && (res == FrOk ==> !card.FaultSince(old(card.ops)))
        && (res == FrDiskErr ==> !isOpen && !wip)
      ensures old(Ready()) ==>
        res == (if card.FaultSince(old(card.ops)) then FrDiskErr else FrOk) && (res == FrOk ==> Ready())
    {
      if !mounted { return FrNotEnabled; }
      if !isOpen { return FrNotOpened; }
      var target := Min(ofs, fsize);
      var ifptr := fptr;
      ghost var good := Ready();
      fptr := 0;
      if target > 0 {
        var ok := SeekTo(good, ifptr, target);
        if !ok {
          isOpen, wip := false, false;
          return FrDiskErr;
        }
      }
      res := FrOk;
    }

    /** A write in progress and the card agree: the open data block holds exactly the
        bytes of the sector before fptr, and lacks the rest. */
    ghost predicate Protocol()
      reads this, card
    {
      && mounted && isOpen
      && Sound(vol, |card.sectors|)
      && card.Valid()
      && (wip <==> card.transfer.Receiving?)
      && (wip ==> card.wc == 512 - fptr % 512 && fptr % 512 != 0)
      && fptr <= fsize < 0x1_0000_0000
    }

    /** The file of n bytes with chain c as it will be once the open block is complete is well
        formed, and the cursor and the open block agree with it. */
    ghost predicate WritableAs(c: seq<nat>, n: nat, o: nat)
      reads this, card
    {
      && Protocol() && fptr <= n
      && FileOk(card.Settled(), vol, c, n, o)
      && CursorOk(vol, c, fptr, currClust, dsect)
      && (wip ==> card.transfer.lba == dsect)
      && (fptr == 0 ==> o == orgClust)
    }

    /** The same for the file as it was opened. */
    ghost predicate Writable()
      reads this, card
    {
      WritableAs(chain, fsize, orgClust)
    }

    ghost function Snapshot(): Progress
      reads this, card
    {
      Progress(card.Settled(), fptr, wip)
    }

    /** On a sector boundary: find the sector and open a data block on it. */
    method OpenSector() returns (ok: bool)
      requires Protocol() && fptr % 512 == 0
      modifies this`currClust, this`dsect, this`wip
      modifies card`transfer, card`clocked, card`forwarded, card`ops, card`wc
      ensures card.Valid() && old(card.ops) <= card.ops
      ensures var c := ChosenCluster(card.sectors, vol, orgClust, old(currClust), fptr);
              && (ok <==> !card.FaultSince(old(card.ops)) && c > 1 && Clust2Sect(vol, c) != 0)
              && (ok ==> currClust == c && dsect == Clust2Sect(vol, c) + fptr / 512 % vol.csize)
      ensures ok ==> wip && card.transfer == Receiving(dsect, [])
      ensures !ok ==> card.transfer.Idle?
    {
      ok := Locate();
      if ok {
        ghost var first := card.ops;
        SectorOnCard(vol, |card.sectors|, currClust, fptr / 512 % vol.csize);
        ok := card.InitiateWrite(dsect);
        assert card.fault(first) ==> card.FaultSince(old(card.ops));
        wip := ok;
      }
    }

    /** Makes sure that a data block is open on the sector of fptr. */
    method EnterSector(ghost c: seq<nat>, ghost n: nat, ghost o: nat) returns (ok: bool)
      requires Protocol() && (wip || fptr % 512 == 0)
      modifies this`currClust, this`dsect, this`wip
      modifies card`transfer, card`clocked, card`forwarded, card`ops, card`wc
      ensures old(card.ops) <= card.ops && card.Valid() && (!ok ==> card.transfer.Idle?)
      ensures ok ==> wip && card.transfer.Receiving? && card.wc == 512 - fptr % 512
      ensures old(WritableAs(c, n, o)) && fptr < n ==> (ok <==> !card.FaultSince(old(card.ops)))
      ensures old(WritableAs(c, n, o)) && fptr < n && ok ==>
        Located(card.sectors, vol, c, fptr, currClust, dsect) && card.transfer.lba == dsect
      ensures old(WritableAs(c, n, o)) && !old(wip) && Fills(vol, c, fptr) ==> !ok
      ensures ok ==> old(card.Settled()) == if card.transfer.got == [] then card.sectors else card.Settled()
    {
      if !wip {
        if WritableAs(c, n, o) {
          if fptr < n { ChosenIsSector(card.sectors, vol, c, n, o, fptr, currClust, dsect); }
          if Fills(vol, c, fptr) { ChosenIsNone(card.sectors, vol, c, n, o, fptr, currClust, dsect); }
        }
        ok := OpenSector();
      } else {
        if WritableAs(c, n, o) {
          EnterInside(card.sectors, card.transfer, vol, c, n, o, fptr, currClust, dsect);
        }
        ok := true;
      }
    }

    /** Sends part into the open data block. */
    method SendPart(part: seq<byte>)
      requires card.Valid() && card.transfer.Receiving? && card.wc == 512 - fptr % 512
      requires 1 <= |part| <= card.wc
      modifies this`fptr, card`transfer, card`wc
      ensures card.Valid() && fptr == old(fptr) + |part|
      ensures card.wc == if fptr % 512 == 0 then 0 else 512 - fptr % 512
      ensures card.transfer == old(card.transfer).(got := old(card.transfer.got) + part)
    {
      card.SendData(part);
      assert part[..|part|] == part;
      SectorRest(fptr, |part|);
      fptr := fptr + |part|;
    }

    /** Programs the block once it is full. */
    method LeaveSector() returns (ok: bool)
      requires card.Valid() && card.transfer.Receiving? && wip
      requires card.wc == if fptr % 512 == 0 then 0 else 512 - fptr % 512
      modifies this`wip, card`transfer, card`sectors, card`ops
      ensures old(card.ops) <= card.ops && card.Valid() && |card.sectors| == old(|card.sectors|)
      ensures ok <==> !card.FaultSince(old(card.ops))
      ensures ok ==> (wip <==> card.transfer.Receiving?) && (wip <==> fptr % 512 != 0)
      ensures ok ==> (wip ==> card.wc == 512 - fptr % 512 && fptr % 512 != 0 && card.transfer == old(card.transfer))
      ensures ok ==> card.Settled() == old(card.Settled())
      ensures !ok ==> card.transfer.Idle?
      ensures card.sectors == if ok && fptr % 512 == 0 then old(card.Settled()) else old(card.sectors)
    {
      ok := true;
      if fptr % 512 == 0 {
        ghost var first := card.ops;
        ok := card.FinalizeWrite();
        assert card.fault(first) ==> card.FaultSince(first);
        wip := !ok;
      }
    }

    /** Sends part, and programs the block if that fills it. */
    method Transmit(part: seq<byte>, ghost after: Image) returns (ok: bool)
      requires mounted && isOpen && wip && Sound(vol, |card.sectors|)
      requires card.Valid() && card.transfer.Receiving? && card.wc == 512 - fptr % 512
      requires 1 <= |part| <= card.wc && fptr + |part| <= fsize < 0x1_0000_0000
      requires after == Settle(card.sectors, Receiving(card.transfer.lba, card.transfer.got + part))
      modifies this`fptr, this`wip, card`transfer, card`wc, card`sectors, card`ops
      ensures old(card.ops) <= card.ops && fptr == old(fptr) + |part|
      ensures ok <==> !card.FaultSince(old(card.ops))
      ensures ok ==> Protocol() && (wip || fptr % 512 == 0)
      ensures ok && wip ==> card.transfer.lba == old(card.transfer.lba)
      ensures ok ==> card.Settled() == after
      ensures card.Valid() && |card.sectors| == old(|card.sectors|) && (!ok ==> card.transfer.Idle?)
      ensures card.sectors == if ok && fptr % 512 == 0 then after else old(card.sectors)
    {
      SendPart(part);
      ok := LeaveSector();
    }

    /** Opens a block if need be, and says what sending as much of data as it takes will do. */
    method TakePart(data: seq<byte>, ghost c: seq<nat>, ghost n: nat, ghost o: nat)
      returns (ok: bool, k: nat, ghost after: Image)
      requires Protocol() && (wip || fptr % 512 == 0) && data != []
      modifies this`currClust, this`dsect, this`wip
      modifies card`transfer, card`clocked, card`forwarded, card`ops, card`wc
      ensures old(card.ops) <= card.ops && card.Valid() && (!ok ==> card.transfer.Idle?)
      ensures k == Min(512 - fptr % 512, |data|)
      ensures ok ==> wip && card.transfer.Receiving? && card.wc == 512 - fptr % 512
      ensures ok ==> after == Settle(card.sectors, Receiving(card.transfer.lba, card.transfer.got + data[..k]))
      ensures old(WritableAs(c, n, o)) && Passes(n, fptr, |data|) ==>
        && (ok <==> !card.FaultSince(old(card.ops)))
        && (ok ==> card.transfer.lba == dsect && CursorOk(vol, c, fptr + k, currClust, dsect)
                   && after == PatchFile(old(card.Settled()), vol, c, fptr, data[..k]) && FileOk(after, vol, c, n, o))
      ensures old(WritableAs(c, n, o)) && !old(wip) && Fills(vol, c, fptr) ==> !ok
    {
      ghost var before, good := card.Settled(), WritableAs(c, n, o) && Passes(n, fptr, |data|);
      k := Min(512 - fptr % 512, |data|);
      ok := EnterSector(c, n, o);
      after := before;
      if ok {
        after := Settle(card.sectors, Receiving(card.transfer.lba, card.transfer.got + data[..k]));
        if good {
          SendSettles(card.sectors, before, vol, c, n, o, fptr, currClust, dsect, card.transfer.got, data[..k], after);
        }
      }
    }

    /** One pass of the loop of pf_write: as much as the current sector takes.  The card's sectors
        change only when that completes one. */
    method WriteStep(data: seq<byte>, ghost c: seq<nat>, ghost n: nat, ghost o: nat) returns (ok: bool, k: nat)
      requires Protocol() && (wip || fptr % 512 == 0) && data != [] && fptr + |data| <= fsize
      modifies this`fptr, this`currClust, this`dsect, this`wip
      modifies card`transfer, card`clocked, card`forwarded, card`ops, card`wc, card`sectors
      ensures old(card.ops) <= card.ops
      ensures card.Valid() && |card.sectors| == old(|card.sectors|) && (!ok ==> card.transfer.Idle?)
      ensures card.sectors == if ok && fptr % 512 == 0 then card.Settled() else old(card.sectors)
      ensures k <= Min(512 - old(fptr) % 512, |data|) && fptr == old(fptr) + k
      ensures ok ==> k == Min(512 - old(fptr) % 512, |data|) && Protocol() && (wip || fptr % 512 == 0)
      ensures old(WritableAs(c, n, o)) && Passes(n, old(fptr), |data|) ==> (ok <==> !card.FaultSince(old(card.ops)))
      ensures ok && old(WritableAs(c, n, o)) && Passes(n, old(fptr), |data|) ==>
        WritableAs(c, n, o) && card.Settled() == PatchFile(old(card.Settled()), vol, c, old(fptr), data[..k])
      ensures old(WritableAs(c, n, o)) && !old(wip) && Fills(vol, c, old(fptr)) ==> !ok
    {
      ghost var after;
      ok, k, after := TakePart(data, c, n, o);
      if !ok {
        return false, 0;
      }
      ok := Transmit(data[..k], after);
    }

    /** The same on a file of n bytes with chain c that has room for data, or that is filled by it. */
    method StepOn(data: seq<byte>, ghost good: bool, ghost c: seq<nat>, ghost n: nat, ghost o: nat)
      returns (ok: bool, k: nat)
      requires Protocol() && (wip || fptr % 512 == 0) && data != [] && fptr + |data| <= fsize
      requires good ==> WritableAs(c, n, o) && (fptr + |data| <= n || Fills(vol, c, n))
      modifies this`fptr, this`currClust, this`dsect, this`wip
      modifies card`transfer, card`clocked, card`forwarded, card`ops, card`wc, card`sectors
      ensures old(card.ops) <= card.ops
      ensures card.Valid() && |card.sectors| == old(|card.sectors|) && (!ok ==> card.transfer.Idle?)
      ensures card.sectors == if ok && fptr % 512 == 0 then card.Settled() else old(card.sectors)
      ensures k <= Min(512 - old(fptr) % 512, |data|) && fptr == old(fptr) + k
      ensures ok ==> k > 0 && Protocol() && (wip || fptr % 512 == 0)
      ensures good && ok ==> WritableAs(c, n, o) && !card.FaultSince(old(card.ops))
      ensures good && ok ==> card.Settled() == PatchFile(old(card.Settled()), vol, c, old(fptr), data[..k])
      ensures good && !ok ==> card.FaultSince(old(card.ops)) || old(fptr) + |data| > n
    {
      if good { PassFits(vol, c, n, fptr, |data|); }
      ok, k := WriteStep(data, c, n, o);
    }

    /** The loop of pf_write has sent the first bw bytes of data.  If it began well on a file of n
        bytes with chain c, nothing was refused and the card holds all of them but the open sector's. */
    ghost predicate Writing(good: bool, c: seq<nat>, n: nat, o: nat, d0: Image, w0: Image, pos: nat, data: seq<byte>,
                            bw: nat, first: nat)
      reads this, card
    {
      && Protocol() && (wip || fptr % 512 == 0) && bw <= |data| && fptr == pos + bw && pos + |data| <= fsize
      && |card.sectors| == |d0| && first <= card.ops
      && (good ==>
            && WritableAs(c, n, o) && (pos + |data| <= n || Fills(vol, c, n)) && !card.FaultSince(first)
            && Underway(d0, w0, card.sectors, card.Settled(), vol, c, pos, data, fptr, bw))
    }

    /** One pass more. */
    method WritePass(data: seq<byte>, bw: nat, ghost good: bool, ghost c: seq<nat>, ghost n: nat, ghost o: nat,
                     ghost d0: Image, ghost w0: Image, ghost pos: nat, ghost first: nat)
      returns (ok: bool, bw': nat)
      requires Writing(good, c, n, o, d0, w0, pos, data, bw, first) && bw < |data|
      modifies this`fptr, this`currClust, this`dsect, this`wip
      modifies card`transfer, card`clocked, card`forwarded, card`ops, card`wc, card`sectors
      ensures first <= card.ops && card.Valid() && |card.sectors| == |d0| && (!ok ==> card.transfer.Idle?)
      ensures bw <= bw' <= |data| && fptr == pos + bw'
      ensures ok ==> bw < bw' && Writing(good, c, n, o, d0, w0, pos, data, bw', first)
      ensures good && !ok ==> card.FaultSince(first) || pos + |data| > n
      ensures good && !ok ==> Kept(d0, w0, card.sectors, vol, c, pos, data, fptr, false)
    {
      ghost var d, w, now := card.sectors, card.Settled(), fptr;
      var left := data[bw..];
      var k;
      ok, k := StepOn(left, good, c, n, o);
      bw' := bw + k;
      if good {
        if ok {
          SliceOf(data, bw, k);
          UnderwayMore(d0, w0, d, w, vol, c, pos, data, now, bw, k, left[..k], card.sectors, card.Settled(), fptr);
        } else {
          UnderwayFails(d0, w0, d, w, vol, c, pos, data, now, bw, k);
        }
      }
    }

    /** The loop of pf_write: on a file of n bytes with chain c it stops short of data only on
        an error or, if the chain is full before data ends, behind the chain.  In any case the
        card holds whole sectors of data, and at most the last one that was sent is missing. */
    method WriteLoop(data: seq<byte>, ghost c: seq<nat>, ghost n: nat, ghost o: nat, ghost good: bool,
                     ghost d0: Image, ghost w0: Image)
      returns (ok: bool, bw: nat)
      requires Protocol() && (wip || fptr % 512 == 0) && fptr + |data| <= fsize
      requires good ==> WritableAs(c, n, o) && (fptr + |data| <= n || Fills(vol, c, n))
      requires d0 == card.sectors && w0 == card.Settled()
      modifies this`fptr, this`currClust, this`dsect, this`wip
      modifies card`transfer, card`clocked, card`forwarded, card`ops, card`wc, card`sectors
      ensures old(card.ops) <= card.ops
      ensures card.Valid() && |card.sectors| == |d0| && (!ok ==> card.transfer.Idle?)
      ensures bw <= |data| && fptr == old(fptr) + bw
      ensures ok ==> bw == |data| && Protocol() && (wip || fptr % 512 == 0)
      ensures good && old(fptr) + |data| <= n ==> (ok <==> !card.FaultSince(old(card.ops)))
      ensures good && old(fptr) + |data| > n ==> !ok
      ensures good && ok ==> WritableAs(c, n, o) && card.Settled() == WriteRun(w0, vol, c, old(fptr), data)
      ensures good ==> Kept(d0, w0, card.sectors, vol, c, old(fptr), data, fptr, ok)
    {
      ghost var pos, first := fptr, card.ops;
      bw, ok := 0, true;
      UnderwayBegins(d0, w0, vol, c, pos, data);
      while bw < |data|
        invariant ok && Writing(good, c, n, o, d0, w0, pos, data, bw, first)
      {
        ok, bw := WritePass(data, bw, good, c, n, o, d0, w0, pos, first);
        if !ok {
          return;
        }
      }
      if good { UnderwayEnds(d0, w0, card.sectors, card.Settled(), vol, c, pos, data, fptr); }
    }

    /** A fresh write starts on the sector boundary at or before fptr. */
    method StartWrite()
      requires Protocol()
      modifies this`fptr
      ensures fptr == WriteStart(wip, old(fptr))
      ensures Protocol() && (wip || fptr % 512 == 0)
      ensures old(StartsWell()) ==> Writable()
      ensures old(Slips()) ==> |chain| > 1 && 0 < fptr <= (|chain| - 1) * ClusterBytes(vol)
      ensures old(Slips()) ==> CursorOk(vol, chain[1..], fptr, currClust, dsect)
    {
      if !wip {
        MaskSector(fptr);
        RoundDownAligned(fptr);
        if Writable() {
          if FreshStartOk(vol, fptr) {
            RoundDownCursor(vol, chain, fptr, currClust, dsect);
          } else {
            SlipCursor(vol, chain, fptr, currClust, dsect);
          }
        }
        fptr := BitAnd(fptr, 0xFFFF_FE00);
      }
    }

    /** The file can be written, and the write does not start fresh inside the first
        sector of a later cluster. */
    ghost predicate StartsWell()
      reads this, card
    {
      Writable() && (wip || FreshStartOk(vol, fptr))
    }

    /** The file can be written, but the write does start fresh inside the first sector of a
        later cluster. */
    ghost predicate Slips()
      reads this, card
    {
      Writable() && !wip && !FreshStartOk(vol, fptr)
    }

    /** The start of pf_write with data: as much of it as fits, and where it will go. */
    method AimWrite(data: seq<byte>, ghost s: Progress) returns (part: seq<byte>, ghost t: Destination)
      requires Protocol() && s == Snapshot()
      modifies this`fptr
      ensures Protocol() && (wip || fptr % 512 == 0)
      ensures Planned(s, vol, fsize, data, t) && t.pos == fptr && t.part == part
      ensures |part| == Min(|data|, fsize - fptr)
      ensures old(StartsWell()) ==>
        WritableAs(t.chain, t.size, t.org) && t.chain == chain && t.size == fsize && t.org == orgClust
      ensures old(Slips()) ==> WritableAs(t.chain, t.size, t.org) && |chain| > 1 && t.chain == chain[1..]
      ensures old(Slips()) ==>
        if SlipFits(vol, chain, fsize, old(fptr), data) then t.pos + |part| <= t.size
        else t.pos + |part| > t.size && Fills(vol, t.chain, t.size)
    {
      ghost var good, slips := StartsWell(), Slips();
      StartWrite();
      var remain := fsize - fptr;
      part := if |data| > remain then data[..remain] else data;
      t := PlanWrite(data, part, s, good, slips);
    }

    /** Where part will go, once the write has started. */
    lemma PlanWrite(data: seq<byte>, part: seq<byte>, s: Progress, good: bool, slips: bool) returns (t: Destination)
      requires Protocol() && s.image == card.Settled() && s.wip == wip && fptr == WriteStart(s.wip, s.fptr)
      requires part == Fit(data, fsize - fptr) && (good ==> Writable())
      requires slips ==>
        && !wip && FileOk(s.image, vol, chain, fsize, orgClust) && |chain| > 1
        && 0 < fptr <= (|chain| - 1) * ClusterBytes(vol) && CursorOk(vol, chain[1..], fptr, currClust, dsect)
      requires !(good && slips)
      ensures Planned(s, vol, fsize, data, t) && t.pos == fptr && t.part == part
      ensures good ==> WritableAs(t.chain, t.size, t.org) && t.chain == chain && t.size == fsize && t.org == orgClust
      ensures slips ==> WritableAs(t.chain, t.size, t.org) && t.chain == chain[1..]
      ensures slips ==>
        if SlipFits(vol, chain, fsize, s.fptr, data) then t.pos + |part| <= t.size
        else t.pos + |part| > t.size && Fills(vol, t.chain, t.size)
    {
      var c, n, o := chain, fsize, orgClust;
      if slips {
        c, n, o := SlipPlan(s.image, vol, chain, fsize, orgClust, s.fptr, data, fptr, |part|);
      }
      t := Destination(c, n, o, fptr, part, WriteRun(s.image, vol, c, fptr, part));
    }

    /** Writes part from a sector boundary or into the open block; an error closes the file. */
    method WriteAimed(
        ghost data: seq<byte>, part: seq<byte>, ghost s: Progress, ghost t: Destination, ghost good: bool)
      returns (res: FResult, bw: nat)
      requires Protocol() && (wip || fptr % 512 == 0) && fptr + |part| <= fsize
      requires good ==>
        WritableAs(t.chain, t.size, t.org) && (t.pos + |part| <= t.size || Fills(vol, t.chain, t.size))
      requires s.image == card.Settled() && Planned(s, vol, fsize, data, t) && t.pos == fptr && t.part == part
      modifies this`fptr, this`currClust, this`dsect, this`wip, this`isOpen
      modifies card`transfer, card`clocked, card`forwarded, card`ops, card`wc, card`sectors
      ensures old(card.ops) <= card.ops && fptr == old(fptr) + bw
      ensures res == FrDiskErr || (res == FrOk && bw == |part| && Protocol() && (wip || fptr % 512 == 0))
      ensures card.Valid() && |card.sectors| == old(|card.sectors|)
      ensures res == FrDiskErr ==> !isOpen && !wip && card.transfer.Idle?
      ensures good && t.pos + |part| <= t.size ==> (res == FrOk <==> !card.FaultSince(old(card.ops)))
      ensures good && res == FrOk ==> WritableAs(t.chain, t.size, t.org) && card.Settled() == t.result
      ensures good && t.pos + |part| > t.size ==> res == FrDiskErr
      ensures good ==>
        Kept(old(card.sectors), s.image, card.sectors, vol, t.chain, t.pos, t.part, fptr, res == FrOk)
    {
      var ok;
      ok, bw := WriteLoop(part, t.chain, t.size, t.org, good, card.sectors, s.image);
      res := FrOk;
      if !ok {
        isOpen, wip := false, false;
        res := FrDiskErr;
      }
    }

    /** pf_write with data, in terms of where it goes. */
    method WriteOn(data: seq<byte>, ghost good: bool, ghost slips: bool)
      returns (res: FResult, bw: nat, ghost t: Destination)
      requires data != [] && Protocol() && (good ==> StartsWell()) && (slips ==> Slips())
      modifies this`fptr, this`currClust, this`dsect, this`wip, this`isOpen
      modifies card`transfer, card`clocked, card`forwarded, card`ops, card`wc, card`sectors
      ensures old(card.ops) <= card.ops && fptr == WriteStart(old(wip), old(fptr)) + bw
      ensures res == FrOk ==> bw == Min(|data|, fsize - WriteStart(old(wip), old(fptr)))
      ensures res == FrDiskErr || (res == FrOk && Protocol())
      ensures card.Valid() && |card.sectors| == old(|card.sectors|)
      ensures res == FrDiskErr ==> !isOpen && !wip && card.transfer.Idle?
      ensures good ==> t.chain == chain && (res == FrOk <==> !card.FaultSince(old(card.ops)))
      ensures good && res == FrOk ==> Writable()
      ensures slips ==> |chain| > 1 && t.chain == chain[1..]
      ensures slips ==>
        (res == FrOk <==> !card.FaultSince(old(card.ops)) && SlipFits(vol, chain, fsize, old(fptr), data))
      ensures (good || slips) && res == FrOk ==> Leads(old(Snapshot()), Snapshot(), vol, fsize, data, t)
      ensures good || slips ==>
        OnCard(old(Snapshot()), old(card.sectors), card.sectors, vol, t.chain, fsize, data, fptr, res == FrOk)
    {
      ghost var s, d0 := Snapshot(), card.sectors;
      var part;
      part, t := AimWrite(data, s);
      res, bw := WriteAimed(data, part, s, t, good || slips);
      if good || slips { OnCardIs(s, d0, card.sectors, vol, fsize, data, fptr, res == FrOk, t); }
    }

    /** pf_write with data. */
    method WriteData(data: seq<byte>, ghost good: bool, ghost slips: bool)
      returns (res: FResult, bw: nat)
      requires data != [] && Protocol() && (good ==> StartsWell()) && (slips ==> Slips())
      modifies this`fptr, this`currClust, this`dsect, this`wip, this`isOpen
      modifies card`transfer, card`clocked, card`forwarded, card`ops, card`wc, card`sectors
      ensures old(card.ops) <= card.ops && fptr == WriteStart(old(wip), old(fptr)) + bw
      ensures res == FrOk ==> bw == Min(|data|, fsize - WriteStart(old(wip), old(fptr)))
      ensures res == FrDiskErr || (res == FrOk && Protocol())
      ensures card.Valid() && |card.sectors| == old(|card.sectors|)
      ensures res == FrDiskErr ==> !isOpen && !wip && card.transfer.Idle?
      ensures good ==> (res == FrOk <==> !card.FaultSince(old(card.ops)))
      ensures good && res == FrOk ==> Writable() && Wrote(old(Snapshot()), Snapshot(), vol, chain, fsize, data)
      ensures slips ==>
        (res == FrOk <==> !card.FaultSince(old(card.ops)) && SlipFits(vol, chain, fsize, old(fptr), data))
      ensures slips && res == FrOk ==> Slipped(old(Snapshot()), Snapshot(), vol, chain, fsize, data)
      ensures good ==>
        OnCard(old(Snapshot()), old(card.sectors), card.sectors, vol, chain, fsize, data, fptr, res == FrOk)
      ensures slips ==>
        && |chain| > 1
        && OnCard(old(Snapshot()), old(card.sectors), card.sectors, vol, chain[1..], fsize, data, fptr, res == FrOk)
    {
      ghost var before, t := Snapshot(), Destination([], 0, 0, 0, [], []);
      res, bw, t := WriteOn(data, good, slips);
      if res == FrOk {
        if good { WroteIs(before, Snapshot(), vol, chain, fsize, data, t); }
        if slips { SlippedIs(before, Snapshot(), vol, chain, fsize, data, t); }
      }
    }

    /** pf_write without data: complete the open sector. */
    method Finalize() returns (res: FResult)
      requires Protocol()
      modifies this`wip, this`isOpen, card`transfer, card`sectors, card`ops
      ensures old(card.ops) <= card.ops
      ensures res == if card.FaultSince(old(card.ops)) then FrDiskErr else FrOk
      ensures res == FrDiskErr ==> !isOpen && !wip
      ensures card.transfer.Idle? && (res == FrOk ==> Protocol() && !wip)
      ensures card.sectors == if res == FrOk then old(card.Settled()) else old(card.sectors)
      ensures res == FrOk && old(Writable()) ==> Writable() && Ready()
    {
      if wip {
        ghost var first := card.ops;
        var ok := card.FinalizeWrite();
        assert card.fault(first) ==> card.FaultSince(first);
        if !ok {
          isOpen, wip := false, false;
          return FrDiskErr;
        }
      }
      wip := false;
      res := FrOk;
    }

    /** pf_write. */
    method Write(data: seq<byte>) returns (res: FResult, bw: nat)
      requires mounted && isOpen ==> Protocol()
      modifies this`fptr, this`currClust, this`dsect, this`wip, this`isOpen
      modifies card`transfer, card`clocked, card`forwarded, card`ops, card`wc, card`sectors
      ensures old(card.ops) <= card.ops && |card.sectors| == old(|card.sectors|)
      ensures !mounted ==> res == FrNotEnabled && bw == 0
      ensures mounted && !old(isOpen) ==> res == FrNotOpened && bw == 0
      ensures mounted && old(isOpen) ==> (res == FrOk || res == FrDiskErr) && card.Valid()
      ensures res == FrOk ==> Protocol() && (data == [] ==> !wip && card.transfer.Idle?)
      ensures res == FrDiskErr ==> !isOpen && !wip && card.transfer.Idle?
      ensures mounted && old(isOpen) ==>
        var start := if data == [] || old(wip) then old(fptr) else old(fptr) - old(fptr) % 512;
        fptr == start + bw && (res == FrOk ==> bw == Min(|data|, fsize - start))
      ensures mounted && old(isOpen) && old(StartsWell()) ==>
        (res == FrOk <==> !card.FaultSince(old(card.ops)))
      ensures res == FrOk && old(StartsWell()) ==>
        Writable() && Wrote(old(Snapshot()), Snapshot(), vol, chain, fsize, data)
      ensures mounted && old(isOpen) && old(Slips()) && data != [] ==>
        && |chain| > 1
        && (res == FrOk <==> !card.FaultSince(old(card.ops)) && SlipFits(vol, chain, fsize, old(fptr), data))
        && (res == FrOk ==> Slipped(old(Snapshot()), Snapshot(), vol, chain, fsize, data))
        && OnCard(old(Snapshot()), old(card.sectors), card.sectors, vol, chain[1..], fsize, data, fptr, res == FrOk)
      ensures mounted && old(isOpen) && data == [] && res == FrDiskErr ==> card.sectors == old(card.sectors)
      ensures mounted && old(isOpen) && data != [] && old(StartsWell()) ==>
        OnCard(old(Snapshot()), old(card.sectors), card.sectors, vol, chain, fsize, data, fptr, res == FrOk)
    {
      if !mounted { return FrNotEnabled, 0; }
      if !isOpen { return FrNotOpened, 0; }
      if data == [] {
        res := Finalize();
        bw := 0;
      } else {
        res, bw := WriteData(data, StartsWell(), Slips());
      }
    }

    /** A run of writes that began in state s on sectors d0 goes well and has written data. */
    ghost predicate RunsOn(s: Progress, d0: Image, data: seq<byte>, first: nat)
      reads this, card
    {
      && isOpen && StartsWell() && first <= card.ops && !card.FaultSince(first) && |card.sectors| == |d0|
      && HasWritten(s, d0, Snapshot(), card.sectors, vol, chain, fsize, data)
    }

    /** A write with data that starts well. */
    method WriteWell(data: seq<byte>, ghost m: Progress, ghost d1: Image) returns (res: FResult)
      requires isOpen && StartsWell() && data != [] && m == Snapshot() && d1 == card.sectors
      modifies this`fptr, this`currClust, this`dsect, this`wip, this`isOpen
      modifies card`transfer, card`clocked, card`forwarded, card`ops, card`wc, card`sectors
      ensures old(card.ops) <= card.ops && |card.sectors| == |d1|
      ensures res == if card.FaultSince(old(card.ops)) then FrDiskErr else FrOk
      ensures res == FrOk ==> isOpen && StartsWell() && Wrote(m, Snapshot(), vol, chain, fsize, data)
      ensures res == FrDiskErr ==> !isOpen && card.transfer.Idle?
      ensures OnCard(m, d1, card.sectors, vol, chain, fsize, data, fptr, res == FrOk)
    {
      var bw;
      res, bw := Write(data);
    }

    /** One more write of a run; more is the data with it, and whole all that is to be written. */
    method WriteMore(data: seq<byte>, ghost s: Progress, ghost d0: Image, ghost all: seq<byte>, ghost more: seq<byte>,
                     ghost whole: seq<byte>, ghost first: nat)
      returns (res: FResult)
      requires data != [] && more == all + data && more <= whole && RunsOn(s, d0, all, first)
      modifies this`fptr, this`currClust, this`dsect, this`wip, this`isOpen
      modifies card`transfer, card`clocked, card`forwarded, card`ops, card`wc, card`sectors
      ensures res == FrOk || res == FrDiskErr
      ensures res == FrOk ==> RunsOn(s, d0, more, first)
      ensures res == FrDiskErr ==> Refused(s, d0, whole, first)
    {
      ghost var m, d1 := Snapshot(), card.sectors;
      res := WriteWell(data, m, d1);
      RunMore(s, m, Snapshot(), d0, d1, card.sectors, vol, chain, fsize, all, data, more, whole, res == FrOk);
    }

    /** Such a run was refused a transfer: the file is closed, and the card holds its whole sectors
        but perhaps the last one that was sent. */
    ghost predicate Refused(s: Progress, d0: Image, data: seq<byte>, first: nat)
      reads this, card
    {
      && first <= card.ops && card.FaultSince(first) && !isOpen && card.transfer.Idle? && |card.sectors| == |d0|
      && OnCard(s, d0, card.sectors, vol, chain, fsize, data, fptr, false)
    }

    /** A run of writes with data. */
    method WriteChunks(
        chunks: seq<seq<byte>>, ghost s: Progress, ghost d0: Image, ghost first: nat, ghost whole: seq<byte>)
      returns (res: FResult)
      requires RunsOn(s, d0, [], first) && whole == Flatten(chunks)
      requires forall k :: 0 <= k < |chunks| ==> chunks[k] != []
      modifies this`fptr, this`currClust, this`dsect, this`wip, this`isOpen
      modifies card`transfer, card`clocked, card`forwarded, card`ops, card`wc, card`sectors
      ensures res == FrOk || res == FrDiskErr
      ensures res == FrOk ==> RunsOn(s, d0, whole, first)
      ensures res == FrDiskErr ==> Refused(s, d0, whole, first)
    {
      ghost var data, more := [], [];
      var k := 0;
      while k < |chunks|
        invariant 0 <= k <= |chunks| && data == Flatten(chunks[..k]) && RunsOn(s, d0, data, first)
      {
        more := NextChunk(chunks, k, data, whole);
        res := WriteMore(chunks[k], s, d0, data, more, whole, first);
        if res != FrOk {
          return;
        }
        data, k := more, k + 1;
      }
      assert chunks[..k] == chunks;
      res := FrOk;
    }

    /** The write without data behind a run of writes of data that began in state s. */
    method CompleteRun(ghost s: Progress, ghost data: seq<byte>) returns (res: FResult)
      requires isOpen && Writable() && data != [] && Wrote(s, Snapshot(), vol, chain, fsize, data)
      requires FileOk(s.image, vol, chain, fsize, orgClust)
      modifies this`wip, this`isOpen, card`transfer, card`sectors, card`ops
      ensures old(card.ops) <= card.ops && card.transfer.Idle? && |card.sectors| == old(|card.sectors|)
      ensures res == if card.FaultSince(old(card.ops)) then FrDiskErr else FrOk
      ensures res == FrDiskErr ==> !isOpen && card.sectors == old(card.sectors)
      ensures res == FrOk ==> Ready() && HoldsRun(s, card.sectors, vol, chain, fsize, data, fptr)
    {
      ghost var t := Snapshot();
      res := Finalize();
      if res == FrOk {
        RunHeld(s, t, vol, chain, fsize, orgClust, data);
      }
    }

    /** A run of writes with data, then one without.  Without a fault the file holds the data;
        with one the card holds its whole sectors but perhaps the last that was sent. */
    method WriteAll(chunks: seq<seq<byte>>) returns (res: FResult)
      requires isOpen && StartsWell() && chunks != [] && forall k :: 0 <= k < |chunks| ==> chunks[k] != []
      modifies this`fptr, this`currClust, this`dsect, this`wip, this`isOpen
      modifies card`transfer, card`clocked, card`forwarded, card`ops, card`wc, card`sectors
      ensures res == if card.FaultSince(old(card.ops)) then FrDiskErr else FrOk
      ensures card.transfer.Idle? && |card.sectors| == old(|card.sectors|)
      ensures res == FrOk ==>
        && Ready() && HoldsRun(old(Snapshot()), card.sectors, vol, chain, fsize, Flatten(chunks), fptr)
        && HoldsBytes(old(Snapshot()), card.sectors, vol, chain, fsize, Flatten(chunks), fptr)
      ensures res == FrDiskErr ==> !isOpen
      ensures res == FrDiskErr ==>
        OnCard(old(Snapshot()), old(card.sectors), card.sectors, vol, chain, fsize, Flatten(chunks), fptr, false)
    {
      ghost var s, d0, data := Snapshot(), card.sectors, Flatten(chunks);
      FlattenSome(chunks);
      res := WriteChunks(chunks, s, d0, card.ops, data);
      if res == FrOk {
        res := CompleteRun(s, data);
        if res != FrOk {
          OnCardRefused(s, d0, card.sectors, vol, chain, fsize, data, fptr);
        } else {
          RunHoldsBytes(s, card.sectors, vol, chain, fsize, data, fptr);
        }
      }
    }
  }

  /** Completing the open block leaves the file's other sectors, and so the sector
      found, as they are. */
  lemma EnterInside(d: Image, t: Transfer, v: Volume, chain: seq<nat>, n: nat, org: nat,
                    fptr: nat, curr: nat, dsect: nat)
    requires FileOk(Settle(d, t), v, chain, n, org)
    requires CursorOk(v, chain, fptr, curr, dsect) && fptr % 512 != 0
    ensures Located(d, v, chain, fptr, curr, dsect)
  {
    CursorInside(Settle(d, t), v, chain, n, org, fptr, curr, dsect);
  }

  lemma SectorOnCard(v: Volume, size: nat, c: nat, r: nat)
    requires Sound(v, size) && Clust2Sect(v, c) != 0 && r < v.csize
    ensures 0 < Clust2Sect(v, c) + r < size
  {
    var k := (c + 0xFFFE) % 0x1_0000;
    MulLe(k + 1, v.nFatent - 2, v.csize);
    MulSucc(k, v.csize);
  }

  lemma MaskNibbles(c: nat, w: nat)
    ensures BitAnd(c, 1) == c % 2 && BitAnd(w, 0xFFF) == w % 4096
  {
    AndLowMask(c, 1);
    AndLowMask(w, 12);
    assert Pow2(12) == 16 * Pow2(8) == 16 * 16 * Pow2(4);
  }

  lemma FatWordOnCard(v: Volume, size: nat, c: nat, bc: nat)
    requires Sound(v, size) && 2 <= c < v.nFatent
    requires bc == if v.fsType.Fat12? then c + c / 2 else 2 * c
    ensures v.fatbase + (bc + 1) / 512 < size
  {
    DivMono(bc + 1, FatBytes(v), 512);
  }
}
