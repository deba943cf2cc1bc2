/** Leaving the bootloader: when its main loop ends. */
module DfuExit {
  import opened Bits
  import opened FlashModel
  import opened DfuModel

  /** The main loop goes on. */
  predicate Alive(m: Machine) {
    m.running || m.waiting
  }

  /** An exit is pending only behind the start command of an open device. */
  ghost predicate Orderly(dev: Device, m: Machine) {
    Sane(dev, m) && (m.waiting ==> !m.isSecure && StartCommand(m))
  }

  /** A command makes an exit pending, or stops the loop, only if it is the start command, and
      a stop comes with a pending exit. */
  lemma ExecuteExit(dev: Device, m: Machine, n: Machine)
    requires Sane(dev, m) && n == Execute(dev, m)
    ensures n.command == m.command && n.data == m.data && n.dataSize == m.dataSize
    ensures n.waiting && !m.waiting ==> !n.isSecure && StartCommand(m)
    ensures m.waiting ==> n.waiting
    ensures m.running && !n.running ==> n.waiting && StartCommand(m) && m.dataSize == 0 && m.data[1] != 0x00
    ensures !m.isSecure ==> !n.isSecure
    ensures n.running ==> m.running
  {}

  /** The DNLOAD behind a start command runs it again and takes the pending exit away; without
      a data stage it stops the loop exactly if the second parameter is not 0. */
  lemma PendingEnds(dev: Device, m: Machine, packet: seq<byte>, body: seq<byte>, n: Machine)
    requires Orderly(dev, m) && m.waiting && n == Next(dev, m, Dnload(0, packet, body))
    ensures !n.waiting && n.running == (m.running && m.data[1] == 0x00)
    ensures m.data[1] == 0x00 ==> n.bootKey == 0xDC42
  {}

  lemma PendingExit(dev: Device, m: Machine, p: Machine)
    requires Orderly(dev, m) && p == Pending(dev, m)
    ensures !p.waiting && (p.running ==> m.running) && (!m.waiting ==> p == m)
    ensures p.command == m.command && p.data == m.data && p.dataSize == m.dataSize
    ensures m.running && !p.running ==> m.waiting && m.dataSize == 0 && StartCommand(m) && m.data[1] != 0x00
  {
    if m.waiting { ExecuteExit(dev, m, Execute(dev, m)); }
  }

  lemma CommandedExit(dev: Device, m: Machine, length: nat, packet: seq<byte>, c: Machine)
    requires Orderly(dev, m) && length < 0x1_0000 && (length != 0 ==> packet != [])
    requires c == Commanded(dev, m, length, packet)
    ensures Orderly(dev, c) && (Alive(m) && !Alive(c) ==> m.waiting)
    ensures m.running && !c.running ==> StartCommand(c) && c.data[1] != 0x00
  {
    var sized := m.(dataSize := length);
    var p := Pending(dev, sized);
    PendingExit(dev, sized, p);
    if length != 0 {
      var loaded := Load(p, packet);
      ExecuteExit(dev, loaded, c);
    }
  }

  /** Receiving data has nothing to do with leaving. */
  lemma ReceivedKeeps(dev: Device, m: Machine, body: seq<byte>, n: Machine)
    requires Sane(dev, m) && n == Received(dev, m, body)
    ensures n.waiting == m.waiting && n.running == m.running && n.isSecure == m.isSecure
    ensures n.command == m.command && n.data == m.data
  {}

  lemma OrderlyNext(dev: Device, m: Machine, r: Request, n: Machine)
    requires Orderly(dev, m) && RequestOk(r) && n == Next(dev, m, r)
    ensures Orderly(dev, n)
    ensures Alive(m) && !Alive(n) ==> r.Dnload? && m.waiting
    ensures n.waiting && !m.waiting ==> r.Dnload?
    ensures m.running && !n.running ==> r.Dnload? && StartCommand(n) && n.data[1] != 0x00
  {
    if r.Dnload? {
      if r.length != 0 && r.packet == [] {
        PendingExit(dev, m.(dataSize := r.length), n);
      } else {
        var c := Commanded(dev, m, r.length, r.packet);
        CommandedExit(dev, m, r.length, r.packet, c);
        ReceivedKeeps(dev, c, r.body, n);
      }
    }
  }

  lemma {:induction false} OrderlyRun(dev: Device, h: seq<Machine>, rs: seq<Request>, i: nat)
    requires IsRun(dev, h, rs) && Orderly(dev, h[0]) && i < |h|
    ensures Orderly(dev, h[i])
  {
    if i > 0 {
      OrderlyRun(dev, h, rs, i - 1);
      assert Moves(dev, h, rs, i - 1);
      OrderlyNext(dev, h[i - 1], rs[i - 1], h[i]);
    }
  }

  /** What request r can do about leaving, from one orderly state to the next. */
  ghost predicate Leaving(dev: Device, m: Machine, r: Request, n: Machine) {
    && Orderly(dev, m) && Orderly(dev, n)
    && (Alive(m) && !Alive(n) ==> r.Dnload? && m.waiting)
    && (n.waiting && !m.waiting ==> r.Dnload?)
    && (m.running && !n.running ==> r.Dnload? && StartCommand(n) && n.data[1] != 0x00)
  }

  lemma RunLeaving(dev: Device, h: seq<Machine>, rs: seq<Request>, i: nat)
    requires IsRun(dev, h, rs) && Orderly(dev, h[0]) && i < |rs|
    ensures Leaving(dev, h[i], rs[i], h[i + 1])
  {
    OrderlyRun(dev, h, rs, i);
    assert Moves(dev, h, rs, i);
    OrderlyNext(dev, h[i], rs[i], h[i + 1]);
  }

  /** A request that makes an exit pending, before a state in which one is. */
  lemma {:induction false} FirstPending(dev: Device, h: seq<Machine>, rs: seq<Request>, j: nat) returns (i: nat)
    requires IsRun(dev, h, rs) && Orderly(dev, h[0]) && !h[0].waiting && j < |h| && h[j].waiting
    ensures i < j && rs[i].Dnload? && !h[i].waiting && Orderly(dev, h[i + 1]) && h[i + 1].waiting
  {
    i := j - 1;
    RunLeaving(dev, h, rs, i);
    if h[i].waiting { i := FirstPending(dev, h, rs, i); }
  }

  /** A request that takes the run flag away, before a state without it. */
  lemma {:induction false} FirstStop(dev: Device, h: seq<Machine>, rs: seq<Request>, k: nat) returns (s: nat)
    requires IsRun(dev, h, rs) && Orderly(dev, h[0]) && h[0].running && k < |h| && !h[k].running
    ensures s < k && rs[s].Dnload? && h[s].running && !h[s + 1].running
    ensures Orderly(dev, h[s + 1]) && StartCommand(h[s + 1]) && h[s + 1].data[1] != 0x00
  {
    s := k - 1;
    RunLeaving(dev, h, rs, s);
    if !h[s].running { s := FirstStop(dev, h, rs, s); }
  }

  /** The request at which the main loop ends. */
  lemma {:induction false} LastAlive(dev: Device, h: seq<Machine>, rs: seq<Request>, k: nat) returns (j: nat)
    requires IsRun(dev, h, rs) && Orderly(dev, h[0]) && Alive(h[0]) && k < |h| && !Alive(h[k])
    ensures j < k && rs[j].Dnload? && h[j].waiting && !Alive(h[j + 1])
  {
    j := k - 1;
    RunLeaving(dev, h, rs, j);
    if !Alive(h[j]) { j := LastAlive(dev, h, rs, j); }
  }

  /** The main loop ends only at a DNLOAD that finds an exit pending, and so only after two
      DNLOADs: one that brought the start command and one behind it.  One of the run's DNLOADs,
      s, has taken the run flag away, with a start command whose second parameter is not 0. */
  lemma LoopEnds(dev: Device, h: seq<Machine>, rs: seq<Request>, k: nat)
    returns (i: nat, j: nat, s: nat)
    requires IsRun(dev, h, rs) && Orderly(dev, h[0]) && h[0].running && !h[0].waiting && k < |h| && !Alive(h[k])
    ensures i < j < k && rs[i].Dnload? && rs[j].Dnload?
    ensures Orderly(dev, h[i + 1]) && h[i + 1].waiting && StartCommand(h[i + 1])
    ensures h[j].waiting && Alive(h[j]) && !Alive(h[j + 1])
    ensures s <= j && rs[s].Dnload? && h[s].running && !h[s + 1].running
    ensures Orderly(dev, h[s + 1]) && StartCommand(h[s + 1]) && h[s + 1].data[1] != 0x00
  {
    j := LastAlive(dev, h, rs, k);
    i := FirstPending(dev, h, rs, j);
    s := FirstStop(dev, h, rs, j + 1);
  }

  /** The host's way out: the start command without further data and a second parameter other
      than 0, then an empty DNLOAD. */
  lemma StartSequence(dev: Device, m: Machine, packet: seq<byte>, n: Machine, e: Machine)
    requires Sane(dev, m) && !m.isSecure && !m.waiting && m.state != DnloadIdle
    requires 3 <= |packet| <= 6 && packet[0] == 0x04 && packet[1] == 0x03 && packet[2] != 0x00
    requires n == Next(dev, m, Dnload(|packet|, packet, [])) && e == Next(dev, n, Dnload(0, [], []))
    ensures Alive(n) && n.waiting && !n.running
    ensures !Alive(e) && e.flash == m.flash && e.eeprom == m.eeprom
  {
    var d := Params(packet, m.data);
    assert d[0] == packet[1] && d[1] == packet[2];
  }
}
