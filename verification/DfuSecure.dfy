/** Secure mode: what holds of every run of requests on a device that starts secure. */
module DfuSecure {
  import opened Bits
  import opened FlashModel
  import opened DfuModel

  /** What holds of a device that has been secure since power-up. */
  ghost predicate Locked(dev: Device, m: Machine) {
    && Sane(dev, m) && m.isSecure && !m.waiting && (m.state == Idle || m.state == Error)
    && m.buffer == Blanks(dev.page)
  }

  /** The request brings the erase command. */
  predicate Lifts(m: Machine, r: Request)
    requires |m.data| == 5
  {
    && r.Dnload? && r.length != 0 && r.packet != [] && r.packet[0] == 0x04
    && Param(r.packet, m.data, 0) == 0x00 && Param(r.packet, m.data, 1) == 0xFF
  }

  lemma ErasedBlank(dev: Device, m: Machine)
    requires Sane(dev, m) && m.buffer == Blanks(dev.page)
    ensures AllBlank(Cleared(m.flash, m.buffer, dev.bootStart)[..dev.bootStart])
  {
    if dev.bootStart > 0 {
      ClearedBlank(m.flash, m.buffer, dev.bootStart);
    }
  }

  /** A secure device executes a command. */
  lemma SecureExecute(dev: Device, m: Machine, n: Machine)
    requires Locked(dev, m) && n == Execute(dev, m)
    ensures EraseCommand(m) ==>
      n == m.(flash := Cleared(m.flash, m.buffer, dev.bootStart), buffer := Blanks(dev.page), isSecure := false)
    ensures !EraseCommand(m) ==>
      && n == m.(state := n.state, status := n.status, responseByte := n.responseByte)
      && (n.state == m.state || n.state == Error)
  {}

  /** One request on a locked device: its EEPROM is untouched, and either it stays locked with
      its flash untouched, or the request is the erase and leaves the application section blank. */
  lemma SecureNext(dev: Device, m: Machine, r: Request, n: Machine)
    requires Locked(dev, m) && RequestOk(r) && n == Next(dev, m, r)
    ensures n.eeprom == m.eeprom && n.running == m.running && n.buffer == Blanks(dev.page)
    ensures !n.waiting && (n.state == Idle || n.state == Error)
    ensures n.isSecure <==> !Lifts(m, r)
    ensures n.isSecure ==> Locked(dev, n) && n.flash == m.flash
    ensures !n.isSecure ==>
      n.flash == Cleared(m.flash, m.buffer, dev.bootStart) && AllBlank(n.flash[..dev.bootStart])
  {
    if r.Dnload? && r.length != 0 && r.packet != [] {
      var loaded := Load(m.(dataSize := r.length), r.packet);
      ParamsAre(r.packet, m.data);
      SecureExecute(dev, loaded, Execute(dev, loaded));
      ErasedBlank(dev, m);
    }
  }

  /** Secure mode does not come back. */
  lemma OpenNext(dev: Device, m: Machine, r: Request)
    requires Sane(dev, m) && RequestOk(r) && !m.isSecure
    ensures !Next(dev, m, r).isSecure
  {
    if r.Dnload? {
      OpenExecute(dev, m.(dataSize := r.length));
      if r.length != 0 && r.packet != [] {
        OpenExecute(dev, Load(Pending(dev, m.(dataSize := r.length)), r.packet));
      }
    }
  }

  lemma OpenExecute(dev: Device, m: Machine)
    requires Sane(dev, m) && !m.isSecure
    ensures !Execute(dev, m).isSecure
  {}

  // --------------------------------------------------------------------- runs

  lemma {:induction false} SecureSoFar(dev: Device, h: seq<Machine>, rs: seq<Request>, i: nat)
    requires IsRun(dev, h, rs) && Locked(dev, h[0]) && i < |h| && h[i].isSecure
    ensures Locked(dev, h[i]) && h[i].flash == h[0].flash && h[i].eeprom == h[0].eeprom && h[i].running == h[0].running
  {
    if i > 0 {
      assert Moves(dev, h, rs, i - 1);
      if !h[i - 1].isSecure {
        OpenNext(dev, h[i - 1], rs[i - 1]);
      } else {
        SecureSoFar(dev, h, rs, i - 1);
        SecureNext(dev, h[i - 1], rs[i - 1], h[i]);
      }
    }
  }

  /** What the next request does to secure mode: only the erase lifts it, and then the
      application section is blank and the rest of both memories as it was. */
  ghost predicate Falls(dev: Device, h: seq<Machine>, rs: seq<Request>, i: nat)
    requires IsRun(dev, h, rs) && i < |rs|
  {
    && Sane(dev, h[i]) && (h[i + 1].isSecure <==> !Lifts(h[i], rs[i]))
    && (!h[i + 1].isSecure ==>
          && |h[i + 1].flash| == dev.size && AllBlank(h[i + 1].flash[..dev.bootStart])
          && h[i + 1].flash[dev.bootStart..] == h[0].flash[dev.bootStart..] && h[i + 1].eeprom == h[0].eeprom)
  }

  lemma SecureFalls(dev: Device, h: seq<Machine>, rs: seq<Request>, i: nat)
    requires IsRun(dev, h, rs) && Locked(dev, h[0]) && i < |rs| && h[i].isSecure
    ensures Falls(dev, h, rs, i)
  {
    SecureSoFar(dev, h, rs, i);
    assert Moves(dev, h, rs, i);
    SecureNext(dev, h[i], rs[i], h[i + 1]);
  }

  lemma {:induction false} StaysOpen(dev: Device, h: seq<Machine>, rs: seq<Request>, i: nat, j: nat)
    requires IsRun(dev, h, rs) && i <= j < |h| && !h[i].isSecure
    ensures !h[j].isSecure
  {
    if i < j {
      StaysOpen(dev, h, rs, i, j - 1);
      assert Moves(dev, h, rs, j - 1);
      OpenNext(dev, h[j - 1], rs[j - 1]);
    }
  }

  /** In every run that starts locked: as long as the device is secure its state is idle or
      error, no exit is pending and its memories are the initial ones; secure mode falls at most
      once, at an erase, and the application section is blank then. */
  ghost predicate SecureStory(dev: Device, h: seq<Machine>, rs: seq<Request>)
    requires IsRun(dev, h, rs)
  {
    && (forall i :: 0 <= i < |h| && h[i].isSecure ==>
          Locked(dev, h[i]) && h[i].flash == h[0].flash && h[i].eeprom == h[0].eeprom)
    && (forall i :: 0 <= i < |rs| && h[i].isSecure ==> Falls(dev, h, rs, i))
    && (forall i, j :: 0 <= i <= j < |h| && h[j].isSecure ==> h[i].isSecure)
  }

  lemma SecureRun(dev: Device, h: seq<Machine>, rs: seq<Request>)
    requires IsRun(dev, h, rs) && Locked(dev, h[0])
    ensures SecureStory(dev, h, rs)
  {
    forall i | 0 <= i < |h| && h[i].isSecure
      ensures Locked(dev, h[i]) && h[i].flash == h[0].flash && h[i].eeprom == h[0].eeprom
    {
      SecureSoFar(dev, h, rs, i);
    }
    forall i | 0 <= i < |rs| && h[i].isSecure
      ensures Falls(dev, h, rs, i)
    {
      SecureFalls(dev, h, rs, i);
    }
    forall i, j | 0 <= i <= j < |h| && h[j].isSecure
      ensures h[i].isSecure
    {
      if !h[i].isSecure { StaysOpen(dev, h, rs, i, j); }
    }
  }

  // -------------------------------------------------------------- disclosure

  /** The same device with other contents in its memories. */
  ghost predicate Twin(dev: Device, m: Machine, t: Machine) {
    Sane(dev, t) && t == m.(flash := t.flash, eeprom := t.eeprom)
  }

  /** A locked device answers and goes on the same whatever its memories hold. */
  lemma BlindNext(dev: Device, m: Machine, t: Machine, r: Request)
    requires Locked(dev, m) && Twin(dev, m, t) && RequestOk(r) && !Lifts(m, r)
    ensures Reply(dev, t, r) == Reply(dev, m, r)
    ensures Twin(dev, Next(dev, m, r), Next(dev, t, r))
    ensures Next(dev, t, r).flash == t.flash && Next(dev, t, r).eeprom == t.eeprom
  {
    SecureNext(dev, m, r, Next(dev, m, r));
    SecureNext(dev, t, r, Next(dev, t, r));
    if r.Dnload? && r.length != 0 && r.packet != [] {
      var a, b := Load(m.(dataSize := r.length), r.packet), Load(t.(dataSize := r.length), r.packet);
      BlindExecute(dev, a, b);
    }
  }

  lemma BlindExecute(dev: Device, m: Machine, t: Machine)
    requires Locked(dev, m) && Twin(dev, m, t) && !EraseCommand(m)
    ensures Twin(dev, Execute(dev, m), Execute(dev, t)) && Execute(dev, t).flash == t.flash
    ensures Execute(dev, t).eeprom == t.eeprom
  {}

  /** So two devices that differ in their memories only cannot be told apart while they stay
      secure. */
  lemma {:induction false} BlindRun(
      dev: Device, h: seq<Machine>, k: seq<Machine>, rs: seq<Request>, i: nat)
    requires IsRun(dev, h, rs) && IsRun(dev, k, rs) && Locked(dev, h[0]) && Twin(dev, h[0], k[0])
    requires i < |rs| && h[i + 1].isSecure
    ensures Sane(dev, h[i]) && Sane(dev, k[i]) && RequestOk(rs[i])
    ensures Reply(dev, h[i], rs[i]) == Reply(dev, k[i], rs[i])
    ensures Twin(dev, h[i + 1], k[i + 1])
  {
    assert Moves(dev, h, rs, i) && Moves(dev, k, rs, i);
    if !h[i].isSecure { OpenNext(dev, h[i], rs[i]); }
    if i > 0 { BlindRun(dev, h, k, rs, i - 1); }
    SecureSoFar(dev, h, rs, i);
    SecureNext(dev, h[i], rs[i], h[i + 1]);
    BlindNext(dev, h[i], k[i], rs[i]);
  }
}
