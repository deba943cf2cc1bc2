/** A memory card behind a byte-wide SPI port, and the partial-sector transfers
    that mmc_diskio.c makes over it.  The command handshake (send_cmd, waiting for
    the data token or for the end of programming) is one yes/no answer taken from
    a fault schedule; every byte after it is clocked one at a time. */
module Card {
  import opened Bits

  type Sector = s: seq<byte> | |s| == 512 witness Zeros(512)

  type Image = seq<Sector>

  function Zeros(n: nat): (z: seq<byte>)
    ensures |z| == n
  {
    seq(n, _ => 0)
  }

  /** What the card is in the middle of. */
  datatype Transfer =
    | Idle
    | Sending(block: seq<byte>, sent: nat)
    | Receiving(lba: nat, got: seq<byte>)

  /** The image that remains once an open data block has been filled up with zeros. */
  ghost function Settle(d: Image, t: Transfer): (d': Image)
    ensures |d'| == |d|
  {
    if t.Receiving? && t.lba < |d| && |t.got| <= 512
    then d[t.lba := t.got + Zeros(512 - |t.got|)]
    else d
  }

  /** Where bytes read from the card can go: a caller's buffer, or, when there is
      none, the outgoing stream. */
  datatype Sink = Sink(buffered: bool, buf: seq<byte>, stream: seq<byte>)

  /** part has been put at index at of the buffer, or at the end of the stream, and
      nothing else has changed. */
  ghost predicate Delivered(was: Sink, now: Sink, at: nat, part: seq<byte>) {
    && now.buffered == was.buffered
    && if was.buffered then
        && now.stream == was.stream
        && at + |part| <= |was.buf| == |now.buf|
        && now.buf[..at] == was.buf[..at]
        && now.buf[at..at + |part|] == part
        && now.buf[at + |part|..] == was.buf[at + |part|..]
      else
        && now.buf == was.buf
        && now.stream == was.stream + part
  }

  lemma DeliveredJoin(was: Sink, mid: Sink, now: Sink, a: seq<byte>, b: seq<byte>)
    requires Delivered(was, mid, 0, a) && Delivered(mid, now, |a|, b)
    ensures Delivered(was, now, 0, a + b)
  {
    if was.buffered {
      assert now.buf[0..|a|] == mid.buf[..|a|] == a;
      assert now.buf[0..|a + b|] == now.buf[0..|a|] + now.buf[|a|..|a + b|];
      assert mid.buf[|a| + |b|..] == mid.buf[|a|..][|b|..];
    }
  }

  class MemoryCard {
    var sectors: Image
    var transfer: Transfer
    var ops: nat                // handshakes attempted so far
    const fault: nat -> bool    // which of them the card refuses
    const crc: (byte, byte)     // the two checksum bytes that end a block; never looked at
    var clocked: nat            // bytes of data packets clocked out of the card
    var forwarded: seq<byte>    // bytes passed on to the outgoing stream
    var wc: nat                 // bytes still missing from the open data block

    ghost predicate Valid()
      reads this
    {
      match transfer
      case Idle => true
      case Sending(_, _) => false
      case Receiving(lba, got) => lba < |sectors| && |got| + wc == 512
    }

    ghost function Settled(): (d: Image)
      reads this
    {
      Settle(sectors, transfer)
    }

    /** Some handshake numbered from..ops failed. */
    ghost predicate FaultSince(from: nat)
      reads this
    {
      exists k :: from <= k < ops && fault(k)
    }

    ghost function SinkOf(buff: array?<byte>): (s: Sink)
      reads this, if buff != null then {buff} else {}
    {
      Sink(buff != null, if buff == null then [] else buff[..], forwarded)
    }

    constructor (image: Image, schedule: nat -> bool, checksum: (byte, byte))
      ensures Valid() && transfer.Idle?
      ensures sectors == image && fault == schedule && ops == 0
    {
      sectors, transfer, ops, fault, crc := image, Idle, 0, schedule, checksum;
      clocked, forwarded, wc := 0, [], 0;
    }

    method RcvSpi() returns (b: byte)
      requires transfer.Sending? && transfer.sent < |transfer.block|
      modifies this`transfer, this`clocked
      ensures b == old(transfer.block[transfer.sent])
      ensures transfer == old(transfer).(sent := old(transfer.sent) + 1)
      ensures clocked == old(clocked) + 1
    {
      b := transfer.block[transfer.sent];
      transfer := Sending(transfer.block, transfer.sent + 1);
      clocked := clocked + 1;
    }

    method XmitSpi(b: byte)
      requires transfer.Receiving?
      modifies this`transfer
      ensures transfer == old(transfer).(got := old(transfer.got) + [b])
    {
      transfer := Receiving(transfer.lba, transfer.got + [b]);
    }

    method Skip(n: nat)
      requires transfer.Sending? && transfer.sent + n <= |transfer.block|
      modifies this`transfer, this`clocked
      ensures transfer == old(transfer).(sent := old(transfer.sent) + n)
      ensures clocked == old(clocked) + n
    {
      for i := 0 to n
        invariant transfer == old(transfer).(sent := old(transfer.sent) + i)
        invariant clocked == old(clocked) + i
      {
        var _ := RcvSpi();
      }
    }

    /** Takes the next cnt bytes of the block into buff from index at on. */
    method Store(buff: array<byte>, at: nat, cnt: nat)
      requires transfer.Sending? && transfer.sent + cnt <= |transfer.block|
      requires at + cnt <= buff.Length
      modifies this`transfer, this`clocked, buff
      ensures transfer == old(transfer).(sent := old(transfer.sent) + cnt)
      ensures clocked == old(clocked) + cnt
      ensures buff[..at] == old(buff[..at]) && buff[at + cnt..] == old(buff[at + cnt..])
      ensures buff[at..at + cnt] == old(transfer.block[transfer.sent..transfer.sent + cnt])
    {
      ghost var block, from := transfer.block, transfer.sent;
      for i := 0 to cnt
        invariant transfer == Sending(block, from + i)
        invariant clocked == old(clocked) + i
        invariant forall k :: 0 <= k < buff.Length && !(at <= k < at + i) ==> buff[k] == old(buff[k])
        invariant forall k :: at <= k < at + i ==> buff[k] == block[from + (k - at)]
      {
        var b := RcvSpi();
        buff[at + i] := b;
      }
    }

    /** Passes the next cnt bytes of the block on to the outgoing stream. */
    method Forward(cnt: nat)
      requires transfer.Sending? && transfer.sent + cnt <= |transfer.block|
      modifies this`transfer, this`clocked, this`forwarded
      ensures transfer == old(transfer).(sent := old(transfer.sent) + cnt)
      ensures clocked == old(clocked) + cnt
      ensures forwarded == old(forwarded) + old(transfer.block[transfer.sent..transfer.sent + cnt])
    {
      ghost var block, from := transfer.block, transfer.sent;
      for i := 0 to cnt
        invariant transfer == Sending(block, from + i)
        invariant clocked == old(clocked) + i
        invariant forwarded == old(forwarded) + block[from..from + i]
      {
        var b := RcvSpi();
        forwarded := forwarded + [b];
      }
    }

    /** disk_readp: cnt bytes of a sector from offset ofs. */
    method ReadPart(buff: array?<byte>, at: nat, lba: nat, ofs: nat, cnt: nat) returns (ok: bool)
      requires transfer.Idle?
      requires 1 <= cnt && ofs + cnt <= 512
      requires buff != null ==> at + cnt <= buff.Length
      modifies this`transfer, this`clocked, this`forwarded, this`ops
      modifies if buff != null then {buff} else {}
      ensures transfer.Idle? && ops == old(ops) + 1
      ensures ok <==> lba < |sectors| && !fault(old(ops))
      ensures ok ==> clocked == old(clocked) + 514
      ensures ok ==> Delivered(old(SinkOf(buff)), SinkOf(buff), at, sectors[lba][ofs..ofs + cnt])
      ensures !ok ==> clocked == old(clocked) && SinkOf(buff) == old(SinkOf(buff))
    {
      ok := lba < |sectors| && !fault(ops);
      ops := ops + 1;
      if ok {
        ghost var data := sectors[lba];
        transfer := Sending(sectors[lba] + [crc.0, crc.1], 0);
        var bc := 514 - ofs - cnt;
        Skip(ofs);
        assert transfer.block[ofs..ofs + cnt] == data[ofs..ofs + cnt];
        if buff != null {
          Store(buff, at, cnt);
        } else {
          Forward(cnt);
        }
        Skip(bc);
      }
      transfer := Idle;
    }

    /** disk_readp into a local buffer. */
    method Fetch(lba: nat, ofs: nat, cnt: nat) returns (ok: bool, data: seq<byte>)
      requires transfer.Idle? && 1 <= cnt && ofs + cnt <= 512
      modifies this`transfer, this`clocked, this`forwarded, this`ops
      ensures transfer.Idle? && forwarded == old(forwarded) && ops == old(ops) + 1
      ensures ok <==> lba < |sectors| && !fault(old(ops))
      ensures |data| == cnt && (ok ==> data == sectors[lba][ofs..ofs + cnt])
    {
      var buf := new byte[cnt];
      ok := ReadPart(buf, 0, lba, ofs, cnt);
      data := buf[..];
      assert data == buf[0..cnt];
    }

    /** disk_writep with no data and a sector number. */
    method InitiateWrite(lba: nat) returns (ok: bool)
      requires transfer.Idle? && lba != 0
      modifies this`transfer, this`wc, this`ops
      ensures Valid() && ops == old(ops) + 1
      ensures ok <==> lba < |sectors| && !fault(old(ops))
      ensures transfer == if ok then Receiving(lba, []) else Idle
    {
      ok := lba < |sectors| && !fault(ops);
      ops := ops + 1;
      if ok {
        transfer, wc := Receiving(lba, []), 512;
      }
    }

    /** disk_writep with data: never more than the block still takes. */
    method SendData(data: seq<byte>)
      requires Valid() && transfer.Receiving?
      modifies this`transfer, this`wc
      ensures Valid()
      ensures transfer == old(transfer).(got := old(transfer.got) + data[..Min(|data|, old(wc))])
    {
      var bc := 0;
      while bc < |data| && wc != 0
        invariant 0 <= bc <= |data| && Valid()
        invariant wc == old(wc) - bc
        invariant transfer == old(transfer).(got := old(transfer.got) + data[..bc])
      {
        XmitSpi(data[bc]);
        wc, bc := wc - 1, bc + 1;
      }
    }

    /** disk_writep with neither: zero-fill the block, add its checksum, program it. */
    method FinalizeWrite() returns (ok: bool)
      requires Valid() && transfer.Receiving?
      modifies this`transfer, this`sectors, this`ops
      ensures transfer.Idle? && ops == old(ops) + 1
      ensures ok <==> !fault(old(ops))
      ensures sectors == if ok then old(Settled()) else old(sectors)
    {
      var lba, bc := transfer.lba, wc + 2;
      ghost var got := transfer.got;
      for i := 0 to bc
        modifies this`transfer
        invariant transfer == Receiving(lba, got + Zeros(i))
      {
        XmitSpi(0);
        assert Zeros(i + 1) == Zeros(i) + [0];
      }
      ok := !fault(ops);
      ops := ops + 1;
      if ok {
        assert transfer.got[..512] == got + Zeros(wc);
        sectors := sectors[lba := transfer.got[..512]];
      }
      transfer := Idle;
    }
  }
}
