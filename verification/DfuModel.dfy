/** The DFU bootloader as a state machine on values: what each request does to the device. */
module DfuModel {
  import opened Bits
  import opened FlashModel

  datatype State = Idle | DnloadIdle | UploadIdle | Error
  datatype Status = Ok | ErrWrite | ErrCheckErased

  const PROG_START: byte := 0x01
  const DISP_DATA: byte := 0x03
  const WRITE: byte := 0x04
  const READ: byte := 0x05
  const CHANGE_BASE_ADDR: byte := 0x06
  const MAGIC_BOOT_KEY := 0xDC42

  /** A class request to the DFU interface. A DNLOAD carries the first packet of its data stage
      (empty when the device is detached before it arrives) and the firmware bytes that follow
      the filler; a stream that ends early stands for a device detached in mid-transfer. */
  datatype Request =
    | Dnload(length: nat, packet: seq<byte>, body: seq<byte>)
    | Upload
    | GetStatus
    | ClrStatus
    | GetState
    | Abort
    | Other

  /** What is fixed: page size, start of the boot section, flash size, how addresses select a
      page and a word of the page buffer, and the answers of the version and signature tables to
      the two parameters of a read command. */
  datatype Device = Device(
    page: nat,
    bootStart: nat,
    size: nat,
    select: nat -> nat,
    slot: nat -> nat,
    info: (byte, byte) -> byte)

  /** The memories and the static variables of the bootloader. */
  datatype Machine = Machine(
    flash: seq<byte>,
    buffer: seq<byte>,     // temporary page buffer
    eeprom: seq<byte>,
    isSecure: bool,
    running: bool,         // RunBootloader
    waiting: bool,         // WaitForExit
    state: State,
    status: Status,
    command: byte,
    data: seq<byte>,       // command parameters; stale bytes stay
    dataSize: nat,
    responseByte: byte,
    appStart: nat,
    bootKey: nat,
    flash64: nat,
    startAddr: nat,
    endAddr: nat)

  /** Addresses inside the memory are decoded as they should; others select some page. */
  ghost predicate DeviceOk(dev: Device) {
    && 2 <= dev.page <= 510 && dev.page % 2 == 0 && dev.page <= dev.size
    && Aligned(dev.bootStart, dev.page) && (dev.bootStart == 0 || dev.page <= dev.bootStart)
    && dev.bootStart <= dev.size
    && (forall a: nat :: dev.select(a) + dev.page <= dev.size)
    && (forall a: nat :: dev.slot(a) + 2 <= dev.page)
    && (forall a: nat :: Decodes(dev, a)) && (forall a: nat, i: nat :: DecodesWord(dev, a, i))
  }

  ghost predicate Decodes(dev: Device, a: nat)
    requires dev.page > 0
  {
    Aligned(a, dev.page) && a + dev.page <= dev.size ==> dev.select(a) == a
  }

  ghost predicate DecodesWord(dev: Device, a: nat, i: nat)
    requires dev.page > 0
  {
    Aligned(a, dev.page) && 2 * i < dev.page ==> dev.slot(a + 2 * i) == 2 * i
  }

  ghost predicate Sane(dev: Device, m: Machine) {
    && DeviceOk(dev) && |m.flash| == dev.size && |m.buffer| == dev.page && 0 < |m.eeprom| <= 0x1_0000
    && |m.data| == 5 && m.dataSize < 0x1_0000 && m.flash64 < 256 && m.startAddr < 0x1_0000 && m.endAddr < 0x1_0000
  }

  // ---------------------------------------------------------------- addresses

  /** 16-bit count of bytes from address first to address last. */
  function ByteCount(first: nat, last: nat): (n: nat)
    ensures n < 0x1_0000
  {
    (last - first + 1) % 0x1_0000
  }

  /** Sum and difference of 16-bit values in 16 bits. */
  function Plus16(a: nat, b: nat): nat {
    if a + b >= 0x1_0000 then a + b - 0x1_0000 else a + b
  }

  function Minus16(a: nat, b: nat): int {
    if a >= b then a - b else a + 0x1_0000 - b
  }

  /** Big-endian address at position i. */
  function AddrAt(s: seq<byte>, i: nat): (a: nat)
    requires i + 1 < |s|
    ensures a < 0x1_0000
  {
    (s[i] as int) * 256 + s[i + 1] as int
  }

  /** Flash address of the 16-bit start address in the selected 64 KB page. */
  function Base(m: Machine): nat {
    m.startAddr + 0x1_0000 * m.flash64
  }

  /** Words between the start and the end address. */
  function Words(m: Machine): (n: nat)
    ensures 2 * n < 0x1_0000
  {
    ByteCount(m.startAddr, m.endAddr) / 2
  }

  // ----------------------------------------------------------------- commands

  predicate EraseCommand(m: Machine)
    requires |m.data| == 5
  {
    m.command == WRITE && m.data[0] == 0x00 && m.data[1] == 0xFF
  }

  predicate StartCommand(m: Machine)
    requires |m.data| == 5
  {
    m.command == WRITE && m.data[0] == 0x03
  }

  function LoadAddresses(m: Machine): Machine
    requires |m.data| == 5
  {
    m.(startAddr := AddrAt(m.data, 1), endAddr := AddrAt(m.data, 3))
  }

  /** ProcessMemProgCommand. */
  function Prepare(dev: Device, m: Machine): (r: Machine)
    requires Sane(dev, m)
    ensures Sane(dev, r)
  {
    if m.data[0] > 0x01 then m else
      var a := LoadAddresses(m).(state := DnloadIdle);
      if m.data[0] == 0x00 then a.(flash := Erase(m.flash, dev.select(Base(a)), dev.page)) else a
  }

  /** Address of the first byte below end that is not blank, or end. */
  function FirstUsed(flash: seq<byte>, end: nat): (a: nat)
    requires end <= |flash|
    ensures a <= end && (a < end ==> flash[a] != BLANK)
    ensures forall i :: 0 <= i < a ==> flash[i] == BLANK
  {
    if end == 0 then 0 else
      var a := FirstUsed(flash, end - 1);
      if a < end - 1 || flash[end - 1] != BLANK then a else end
  }

  function BlankCheck(dev: Device, m: Machine): (r: Machine)
    requires Sane(dev, m)
    ensures Sane(dev, r)
  {
    var a := FirstUsed(m.flash, dev.bootStart);
    if a == dev.bootStart then m
    else m.(flash64 := a / 0x1_0000 % 256, startAddr := a % 0x1_0000, state := Error, status := ErrCheckErased)
  }

  /** ProcessMemReadCommand. */
  function Display(dev: Device, m: Machine): (r: Machine)
    requires Sane(dev, m)
    ensures Sane(dev, r)
  {
    if m.data[0] == 0x00 || m.data[0] == 0x02 then LoadAddresses(m).(state := UploadIdle)
    else if m.data[0] == 0x01 then BlankCheck(dev, m)
    else m
  }

  function StartApplication(m: Machine): Machine
    requires |m.data| == 5
  {
    var w := m.(waiting := true);
    if m.dataSize != 0 then (if m.data[1] == 0x01 then w.(appStart := AddrAt(m.data, 3)) else w)
    else if m.data[1] == 0x00 then w.(bootKey := MAGIC_BOOT_KEY)
    else w.(running := false)
  }

  /** ProcessWriteCommand. */
  function Order(dev: Device, m: Machine): (r: Machine)
    requires Sane(dev, m)
    ensures Sane(dev, r)
  {
    if m.data[0] == 0x03 then StartApplication(m)
    else if m.data[0] == 0x00 && m.data[1] == 0xFF then
      m.(flash := Cleared(m.flash, m.buffer, dev.bootStart), buffer := Blanks(dev.page), isSecure := false)
    else m
  }

  /** The command is refused: the device is secure, and it is neither a read nor the erase. */
  predicate Refused(m: Machine)
    requires |m.data| == 5
  {
    m.isSecure && !EraseCommand(m) && m.command != READ
  }

  /** ProcessBootloaderCommand. */
  function Execute(dev: Device, m: Machine): (r: Machine)
    requires Sane(dev, m)
    ensures Sane(dev, r)
  {
    if Refused(m) then m.(state := Error, status := ErrWrite)
    else if m.command == PROG_START then Prepare(dev, m)
    else if m.command == DISP_DATA then Display(dev, m)
    else if m.command == WRITE then Order(dev, m)
    else if m.command == READ then
      (if m.data[0] <= 0x01 then m.(responseByte := dev.info(m.data[0], m.data[1])) else m)
    else if m.command == CHANGE_BASE_ADDR && m.data[0] == 0x03 && m.data[1] == 0x00 then m.(flash64 := m.data[2])
    else m
  }

  // ----------------------------------------------------------------- requests

  /** Parameters after a packet came in: its bytes behind the first, then stale ones. */
  function Params(packet: seq<byte>, stale: seq<byte>): (d: seq<byte>)
    requires packet != [] && |stale| == 5
    ensures |d| == 5
  {
    var k := Min(5, |packet| - 1);
    packet[1..k + 1] + stale[k..]
  }

  /** Parameter i after a packet came in, byte by byte. */
  function Param(packet: seq<byte>, stale: seq<byte>, i: nat): byte
    requires |stale| == 5 && i < 5
  {
    if i + 1 < |packet| then packet[i + 1] else stale[i]
  }

  lemma ParamsAre(packet: seq<byte>, stale: seq<byte>)
    requires packet != [] && |stale| == 5
    ensures forall i :: 0 <= i < 5 ==> Params(packet, stale)[i] == Param(packet, stale, i)
  {}

  /** Bytes of the request that follow its first packet's command and parameters. */
  function Remaining(length: nat, packet: seq<byte>): int
    requires packet != []
  {
    Minus16(length, Min(5, |packet| - 1) + 1)
  }

  function Load(m: Machine, packet: seq<byte>): Machine
    requires packet != [] && |m.data| == 5 && m.dataSize < 0x1_0000
  {
    m.(command := packet[0], data := Params(packet, m.data), dataSize := Remaining(m.dataSize, packet))
  }

  /** An exit that waits for its last command. */
  function Pending(dev: Device, m: Machine): (r: Machine)
    requires Sane(dev, m)
    ensures Sane(dev, r)
  {
    if m.waiting then Execute(dev, m).(waiting := false) else m
  }

  /** Command part of a DNLOAD whose packet, if it has a data stage, comes in. */
  function Commanded(dev: Device, m: Machine, length: nat, packet: seq<byte>): (r: Machine)
    requires Sane(dev, m) && length < 0x1_0000 && (length != 0 ==> packet != [])
    ensures Sane(dev, r)
  {
    var p := Pending(dev, m.(dataSize := length));
    if length == 0 then p else Execute(dev, Load(p, packet))
  }

  /** Where a programming loop stands. */
  datatype Prog = Prog(flash: seq<byte>, buffer: seq<byte>, pageStart: nat, cur: nat, inPage: nat)

  ghost predicate ProgOk(dev: Device, p: Prog) {
    DeviceOk(dev) && |p.flash| == dev.size && |p.buffer| == dev.page
  }

  /** One word of the loop; `more` says that words remain after it. */
  function WordStep(dev: Device, p: Prog, more: bool, lo: byte, hi: byte): (r: Prog)
    requires ProgOk(dev, p)
    ensures ProgOk(dev, r)
  {
    var full := p.inPage + 1 == dev.page / 2;
    var now := WordDone(p.flash, p.buffer, dev.select(p.pageStart), dev.slot(p.cur), dev.select(p.cur + 2), full, more,
                        lo, hi);
    if full && more then Prog(now.0, now.1, p.cur + 2, p.cur + 2, 0)
    else Prog(now.0, now.1, p.pageStart, p.cur + 2, p.inPage + 1)
  }

  /** The same with the decoded addresses named. */
  lemma StepIs(dev: Device, p: Prog, at: nat, o: nat, next: nat, full: bool, more: bool, lo: byte, hi: byte, q: Prog)
    requires ProgOk(dev, p) && q.cur == p.cur + 2 && full == (p.inPage + 1 == dev.page / 2)
    requires at == dev.select(p.pageStart) && o == dev.slot(p.cur) && next == dev.select(q.cur)
    requires WordDone(p.flash, p.buffer, at, o, next, full, more, lo, hi) == (q.flash, q.buffer)
    requires q.pageStart == (if full && more then q.cur else p.pageStart)
    requires q.inPage == (if full && more then 0 else p.inPage + 1)
    ensures WordStep(dev, p, more, lo, hi) == q
  {}

  /** The loop over n words, after k of them. */
  function WordLoop(dev: Device, p: Prog, n: nat, body: seq<byte>, k: nat): (r: Prog)
    requires ProgOk(dev, p) && 2 * k <= |body|
    ensures ProgOk(dev, r)
  {
    if k == 0 then p
    else WordStep(dev, WordLoop(dev, p, n, body, k - 1), k < n, body[2 * k - 2], body[2 * k - 1])
  }

  /** One more word, with the word and the last result named. */
  lemma LoopMore(dev: Device, start: Prog, n: nat, body: seq<byte>, j: nat, p: Prog, more: bool, lo: byte, hi: byte,
                 q: Prog)
    requires ProgOk(dev, start) && ProgOk(dev, p) && 0 < 2 * j <= |body| && p == WordLoop(dev, start, n, body, j - 1)
    requires more == (j < n) && lo == body[2 * j - 2] && hi == body[2 * j - 1] && q == WordStep(dev, p, more, lo, hi)
    ensures q == WordLoop(dev, start, n, body, j)
  {}

  function ProgStart(m: Machine): Prog {
    Prog(m.flash, m.buffer, Base(m), Base(m), 0)
  }

  /** Flash half of the data stage. */
  function FlashData(dev: Device, m: Machine, body: seq<byte>): (r: Machine)
    requires Sane(dev, m)
    ensures Sane(dev, r)
  {
    var p := WordLoop(dev, ProgStart(m), Words(m), body, Min(Words(m), |body| / 2));
    if 2 * Words(m) <= |body| then m.(flash := p.flash, buffer := Blanks(dev.page), startAddr := m.endAddr)
    else m.(flash := p.flash, buffer := p.buffer)
  }

  /** The EEPROM loop from address addr on, after k bytes. */
  function ByteLoop(eeprom: seq<byte>, addr: nat, body: seq<byte>, k: nat): (r: seq<byte>)
    requires 0 < |eeprom| && k <= |body|
    ensures |r| == |eeprom|
  {
    if k == 0 then eeprom
    else ByteLoop(eeprom, addr, body, k - 1)[Wrap(Plus16(addr, k - 1), |eeprom|) := body[k - 1]]
  }

  /** EEPROM half of the data stage.  Writing to EEPROM empties the page buffer. */
  function EepromData(dev: Device, m: Machine, body: seq<byte>): (r: Machine)
    requires Sane(dev, m)
    ensures Sane(dev, r)
  {
    var k := Min(ByteCount(m.startAddr, m.endAddr), |body|);
    m.(eeprom := ByteLoop(m.eeprom, m.startAddr, body, k), startAddr := Plus16(m.startAddr, k),
       buffer := if k == 0 then m.buffer else Blanks(dev.page))
  }

  /** Data part of a DNLOAD. */
  function Received(dev: Device, m: Machine, body: seq<byte>): (r: Machine)
    requires Sane(dev, m)
    ensures Sane(dev, r)
  {
    if m.state != DnloadIdle then m
    else if m.dataSize == 0 then m.(state := Idle)
    else if m.data[0] == 0x00 then FlashData(dev, m, body)
    else EepromData(dev, m, body)
  }

  function AfterDnload(dev: Device, m: Machine, length: nat, packet: seq<byte>, body: seq<byte>): (r: Machine)
    requires Sane(dev, m) && length < 0x1_0000
    ensures Sane(dev, r)
  {
    if length != 0 && packet == [] then Pending(dev, m.(dataSize := length))
    else Received(dev, Commanded(dev, m, length, packet), body)
  }

  function AfterUpload(m: Machine): Machine
    requires |m.data| == 5
  {
    if m.state != UploadIdle then m
    else if m.data[0] == 0x00 then m.(startAddr := m.endAddr, state := Idle)
    else if m.data[0] == 0x02 then
      m.(startAddr := Plus16(m.startAddr, ByteCount(m.startAddr, m.endAddr)), state := Idle)
    else m.(state := Idle)
  }

  /** Bytes of n words of flash from address a on. */
  function FlashWords(flash: seq<byte>, a: nat, n: nat): seq<byte>
    requires |flash| > 0
  {
    if n == 0 then []
    else
      var b := a + 2 * (n - 1);
      FlashWords(flash, a, n - 1) + [flash[Wrap(b, |flash|)], flash[Wrap(b + 1, |flash|)]]
  }

  function EepromBytes(eeprom: seq<byte>, a: nat, n: nat): seq<byte>
    requires |eeprom| > 0
  {
    if n == 0 then [] else EepromBytes(eeprom, a, n - 1) + [eeprom[Wrap(Plus16(a, n - 1), |eeprom|)]]
  }

  function UploadReply(dev: Device, m: Machine): seq<byte>
    requires Sane(dev, m)
  {
    if m.state != UploadIdle then
      (if m.state == Error && m.data[0] == 0x01 then [m.startAddr % 256, m.startAddr / 256] else [m.responseByte])
    else if m.data[0] == 0x00 then FlashWords(m.flash, Base(m), Words(m))
    else if m.data[0] == 0x02 then EepromBytes(m.eeprom, m.startAddr, ByteCount(m.startAddr, m.endAddr))
    else []
  }

  function StateCode(s: State): byte {
    match s case Idle => 2 case DnloadIdle => 5 case UploadIdle => 9 case Error => 10
  }

  function StatusCode(s: Status): byte {
    match s case Ok => 0 case ErrWrite => 3 case ErrCheckErased => 5
  }

  predicate RequestOk(r: Request) {
    r.Dnload? ==> r.length < 0x1_0000
  }

  /** The device after a request, and the bytes it answers. */
  function Next(dev: Device, m: Machine, r: Request): (n: Machine)
    requires Sane(dev, m) && RequestOk(r)
    ensures Sane(dev, n)
  {
    match r
    case Dnload(length, packet, body) => AfterDnload(dev, m, length, packet, body)
    case Upload => AfterUpload(m)
    case ClrStatus => m.(status := Ok)
    case Abort => m.(state := Idle)
    case _ => m
  }

  function Reply(dev: Device, m: Machine, r: Request): seq<byte>
    requires Sane(dev, m) && RequestOk(r)
  {
    match r
    case Upload => UploadReply(dev, m)
    case GetStatus => [StatusCode(m.status), 0, 0, 0, StateCode(m.state), 0]
    case GetState => [StateCode(m.state)]
    case _ => []
  }

  /** h are the states of the device during the requests rs. */
  ghost predicate IsRun(dev: Device, h: seq<Machine>, rs: seq<Request>) {
    |h| == |rs| + 1 && Sane(dev, h[0]) && forall i :: 0 <= i < |rs| ==> Moves(dev, h, rs, i)
  }

  ghost predicate Moves(dev: Device, h: seq<Machine>, rs: seq<Request>, i: nat)
    requires i < |rs| && |h| == |rs| + 1
  {
    Sane(dev, h[i]) && RequestOk(rs[i]) && h[i + 1] == Next(dev, h[i], rs[i])
  }
}
