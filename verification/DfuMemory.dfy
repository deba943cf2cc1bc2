/** What the bootloader's requests do to an open device's memories. */
module DfuMemory {
  import opened Bits
  import opened FlashModel
  import opened DfuModel

  // ----------------------------------------------------------- the flash loop

  ghost function ProgAt(run: Run, done: nat, inPage: nat): (p: Prog)
    requires run.Pos(done, inPage)
  {
    Prog(run.FlashAt(done, inPage), run.BufferAt(done, inPage), run.base + done, run.base + done + 2 * inPage, inPage)
  }

  /** The run is one on the device. */
  ghost predicate On(dev: Device, run: Run) {
    DeviceOk(dev) && run.page == dev.page && |run.flash| == dev.size
  }

  /** The next word of the run. */
  ghost predicate NextWord(dev: Device, run: Run, done: nat, inPage: nat, more: bool, lo: byte, hi: byte) {
    && On(dev, run) && run.Pos(done, inPage) && done + 2 * inPage + 2 <= |run.data|
    && more == (done + 2 * inPage + 2 < 2 * run.words) && (!more ==> |run.data| == 2 * run.words)
    && lo == run.data[done + 2 * inPage] && hi == run.data[done + 2 * inPage + 1]
  }

  /** One word moves the loop one position on. */
  lemma StepOnCourse(dev: Device, run: Run, done: nat, inPage: nat, more: bool, lo: byte, hi: byte)
    returns (d: nat, i: nat)
    requires NextWord(dev, run, done, inPage, more, lo, hi)
    ensures d + 2 * i == done + 2 * inPage + 2 && run.Pos(d, i)
    ensures WordStep(dev, ProgAt(run, done, inPage), more, lo, hi) == ProgAt(run, d, i)
  {
    if !more {
      d, i := StepLast(dev, run, done, inPage, lo, hi);
    } else if inPage + 1 == run.page / 2 {
      d, i := StepFull(dev, run, done, inPage, lo, hi);
    } else {
      d, i := StepInside(dev, run, done, inPage, lo, hi);
    }
  }

  lemma StepLast(dev: Device, run: Run, done: nat, inPage: nat, lo: byte, hi: byte) returns (d: nat, i: nat)
    requires NextWord(dev, run, done, inPage, false, lo, hi)
    ensures d == done && i == inPage + 1 && run.Pos(d, i)
    ensures WordStep(dev, ProgAt(run, done, inPage), false, lo, hi) == ProgAt(run, d, i)
  {
    d, i := done, inPage + 1;
    Decoded(dev, run, done, inPage);
    var next, full := dev.select(run.base + done + 2 * inPage + 2), inPage + 1 == run.page / 2;
    RunWordLast(run, done, inPage, next, full, lo, hi);
    StepIs(dev, ProgAt(run, done, inPage), run.base + done, 2 * inPage, next, full, false, lo, hi, ProgAt(run, d, i));
  }

  lemma StepFull(dev: Device, run: Run, done: nat, inPage: nat, lo: byte, hi: byte) returns (d: nat, i: nat)
    requires NextWord(dev, run, done, inPage, true, lo, hi) && inPage + 1 == run.page / 2
    ensures d == done + 2 * inPage + 2 && i == 0 && run.Pos(d, i)
    ensures WordStep(dev, ProgAt(run, done, inPage), true, lo, hi) == ProgAt(run, d, i)
  {
    d, i := done + run.page, 0;
    FullDecoded(dev, run, done, inPage, d);
    RunWordFull(run, done, inPage, run.base + d, lo, hi);
    var p, q := ProgAt(run, done, inPage), ProgAt(run, d, 0);
    PagesOn(run, done, inPage, d, p, q);
    StepIs(dev, p, p.pageStart, 2 * inPage, q.cur, true, true, lo, hi, q);
  }

  lemma PagesOn(run: Run, done: nat, inPage: nat, d: nat, p: Prog, q: Prog)
    requires run.Pos(done, inPage) && run.Pos(d, 0) && d == done + 2 * inPage + 2
    requires p == ProgAt(run, done, inPage) && q == ProgAt(run, d, 0)
    ensures p.pageStart == run.base + done && p.cur == run.base + done + 2 * inPage && p.inPage == inPage
    ensures q.pageStart == q.cur == p.cur + 2 == run.base + d && q.inPage == 0
  {}

  lemma FullDecoded(dev: Device, run: Run, done: nat, inPage: nat, d: nat)
    requires On(dev, run) && run.Pos(done, inPage) && inPage + 1 == run.page / 2 && d == done + run.page < 2 * run.words
    ensures 2 * inPage + 2 == run.page && run.base + d + run.page <= |run.flash|
    ensures dev.select(run.base + done) == run.base + done && dev.select(run.base + d) == run.base + d
    ensures dev.slot(run.base + done + 2 * inPage) == 2 * inPage
  {
    PageHalf(run.page, inPage);
    Decoded(dev, run, done, inPage);
    NextDecoded(dev, run, done, d);
  }

  lemma StepInside(dev: Device, run: Run, done: nat, inPage: nat, lo: byte, hi: byte) returns (d: nat, i: nat)
    requires NextWord(dev, run, done, inPage, true, lo, hi) && inPage + 1 != run.page / 2
    ensures d == done && i == inPage + 1 && run.Pos(d, i)
    ensures WordStep(dev, ProgAt(run, done, inPage), true, lo, hi) == ProgAt(run, d, i)
  {
    PageHalf(run.page, inPage);
    d, i := done, inPage + 1;
    Decoded(dev, run, done, inPage);
    var next := dev.select(run.base + done + 2 * inPage + 2);
    RunWordInside(run, done, inPage, next, lo, hi);
    StepIs(dev, ProgAt(run, done, inPage), run.base + done, 2 * inPage, next, false, true, lo, hi, ProgAt(run, d, i));
  }

  /** The loop's addresses are decoded to the page being filled and the word in it. */
  lemma Decoded(dev: Device, run: Run, done: nat, inPage: nat)
    requires On(dev, run) && run.Pos(done, inPage) && 2 * inPage < run.page
    ensures dev.select(run.base + done) == run.base + done
    ensures dev.slot(run.base + done + 2 * inPage) == 2 * inPage
  {
    RunAligned(run, done);
    assert Decodes(dev, run.base + done) && DecodesWord(dev, run.base + done, inPage);
  }

  lemma NextDecoded(dev: Device, run: Run, done: nat, d: nat)
    requires On(dev, run) && run.Good() && Aligned(done, run.page) && d == done + run.page < 2 * run.words
    ensures run.base + d + run.page <= |run.flash| && dev.select(run.base + d) == run.base + d
  {
    NextPage(run, done);
    RunAligned(run, d);
    assert Decodes(dev, run.base + d);
  }

  lemma PageHalf(page: nat, inPage: nat)
    requires page % 2 == 0
    ensures inPage + 1 == page / 2 <==> 2 * inPage + 2 == page
  {}

  /** The run's data is what the stream has of it. */
  ghost predicate Streams(run: Run, body: seq<byte>) {
    && |run.data| == Min(2 * run.words, |body|) && run.data <= body
  }

  /** The loop stands where the run is after k words. */
  ghost predicate Stands(run: Run, p: Prog, k: nat) {
    exists d: nat, i: nat :: d + 2 * i == 2 * k && run.Pos(d, i) && p == ProgAt(run, d, i)
  }

  lemma {:induction false} LoopOnCourse(dev: Device, run: Run, p: Prog, body: seq<byte>, k: nat)
    requires On(dev, run) && Streams(run, body) && ProgOk(dev, p) && Stands(run, p, 0) && 2 * k <= |run.data|
    ensures Stands(run, WordLoop(dev, p, run.words, body, k), k)
  {
    if k > 0 {
      LoopOnCourse(dev, run, p, body, k - 1);
      LoopNext(dev, run, WordLoop(dev, p, run.words, body, k - 1), body, k);
    }
  }

  lemma LoopNext(dev: Device, run: Run, q: Prog, body: seq<byte>, k: nat)
    requires On(dev, run) && Streams(run, body) && 0 < 2 * k <= |run.data|
    requires ProgOk(dev, q) && Stands(run, q, k - 1)
    ensures Stands(run, WordStep(dev, q, k < run.words, body[2 * k - 2], body[2 * k - 1]), k)
  {
    var d: nat, i: nat :| d + 2 * i == 2 * k - 2 && run.Pos(d, i) && q == ProgAt(run, d, i);
    var _, _ := StepOnCourse(dev, run, d, i, k < run.words, body[2 * k - 2], body[2 * k - 1]);
  }

  /** The addressed range can be programmed: it fits and its first page is erased. */
  ghost predicate Ready(dev: Device, m: Machine)
    requires Sane(dev, m)
  {
    && Fits(dev, Base(m), Words(m))
    && m.flash[Base(m)..Base(m) + dev.page] == Blanks(dev.page)
  }

  /** The whole pages of n words from base on lie in flash and start on a page boundary. */
  predicate Fits(dev: Device, base: nat, n: nat)
    requires dev.page > 0
  {
    Aligned(base, dev.page) && base + Span(2 * n, dev.page) <= dev.size
  }

  /** Bytes of a stream that were committed to flash before it broke off: whole pages. */
  function Committed(body: seq<byte>, page: nat): (n: nat)
    requires page > 0
    ensures n <= Taken(body)
  {
    FullPages(Taken(body), page)
  }

  /** Bytes of a stream that were taken as words. */
  function Taken(body: seq<byte>): (n: nat)
    ensures n <= |body|
  {
    |body| - |body| % 2
  }

  /** The outcome of the flash half of the data stage on a ready range: all of it, */
  lemma FlashDataWhole(dev: Device, m: Machine, body: seq<byte>)
    requires Sane(dev, m) && Ready(dev, m) && 2 * Words(m) <= |body|
    ensures FlashData(dev, m, body).flash == Written(m.flash, Base(m), body[..2 * Words(m)], m.buffer)
  {
    var n := Words(m);
    var run := Run(m.flash, m.buffer, Base(m), body[..2 * n], dev.page, n);
    RunBegin(run);
    var p := ProgStart(m);
    assert 0 + 2 * 0 == 0 && p == ProgAt(run, 0, 0);
    LoopOnCourse(dev, run, p, body, n);
    WholeAt(run, WordLoop(dev, p, n, body, n));
  }

  /** or as far as the stream went. */
  lemma FlashDataBroken(dev: Device, m: Machine, body: seq<byte>)
    requires Sane(dev, m) && Ready(dev, m) && 2 * Words(m) > |body|
    ensures BrokenOff(m.flash, m.buffer, Base(m), body, FlashData(dev, m, body).flash, FlashData(dev, m, body).buffer)
  {
    var n := Words(m);
    var run := Run(m.flash, m.buffer, Base(m), body, dev.page, n);
    RunBegin(run);
    var p := ProgStart(m);
    assert 0 + 2 * 0 == 0 && p == ProgAt(run, 0, 0);
    LoopOnCourse(dev, run, p, body, |body| / 2);
    BrokenPos(run, WordLoop(dev, p, n, body, |body| / 2));
  }

  lemma WholeAt(run: Run, p: Prog)
    requires Stands(run, p, run.words)
    ensures |run.data| == 2 * run.words && p.flash == Written(run.flash, run.base, run.data, run.buffer)
  {
    var d: nat, i: nat :| d + 2 * i == 2 * run.words && run.Pos(d, i) && p == ProgAt(run, d, i);
    RunEnd(run, d, i);
  }

  lemma BrokenPos(run: Run, p: Prog)
    requires Stands(run, p, |run.data| / 2) && |run.data| < 2 * run.words && |run.buffer| > 0
    ensures BrokenOff(run.flash, run.buffer, run.base, run.data, p.flash, p.buffer)
  {
    var d: nat, i: nat :| d + 2 * i == 2 * (|run.data| / 2) && run.Pos(d, i) && p == ProgAt(run, d, i);
    BrokenAt(run.page, run.data, d, i);
  }

  /** What the page buffer holds after a transfer that broke off: the words of the page that was
      being filled, and behind them blanks or, in the first page, what was there before. */
  function Waiting(buffer: seq<byte>, body: seq<byte>): (r: seq<byte>)
    requires |buffer| > 0
    ensures |r| == |buffer|
  {
    var done := Committed(body, |buffer|);
    Over(body[done..Taken(body)], if done == 0 then buffer else Blanks(|buffer|))
  }

  /** A transfer that broke off has left whole pages in flash, a blank one behind them, and the
      rest in the page buffer. */
  predicate BrokenOff(
      flash: seq<byte>, buffer: seq<byte>, base: nat, body: seq<byte>, flash': seq<byte>, buffer': seq<byte>)
    requires |buffer| > 0
  {
    var done := Committed(body, |buffer|);
    && base + done + |buffer| <= |flash|
    && flash' == Splice(flash, base, body[..done] + Blanks(|buffer|))
    && buffer' == Waiting(buffer, body)
  }

  lemma BrokenAt(page: nat, body: seq<byte>, d: nat, i: nat)
    requires page > 0 && page % 2 == 0 && Aligned(d, page) && 2 * i < page && d + 2 * i <= |body| < d + 2 * i + 2
    ensures d == Committed(body, page) && d + 2 * i == Taken(body)
  {
    var n := d + 2 * i;
    TakenIs(page, body, d, i, n);
    CommittedIs(page, body, d, 2 * i, n);
  }

  lemma TakenIs(page: nat, body: seq<byte>, d: nat, i: nat, n: nat)
    requires page > 0 && page % 2 == 0 && Aligned(d, page) && n == d + 2 * i <= |body| < n + 2
    ensures Taken(body) == n
  {
    EvenPages(d, page);
    EvenPart(|body|, n);
  }

  lemma CommittedIs(page: nat, body: seq<byte>, d: nat, r: nat, n: nat)
    requires page > 0 && Aligned(d, page) && r < page && n == d + r == Taken(body)
    ensures Committed(body, page) == d
  {
    FullPagesIs(n, page, d);
  }

  lemma {:induction false} EvenPages(d: nat, page: nat)
    requires page > 0 && page % 2 == 0 && Aligned(d, page)
    ensures d % 2 == 0
  {
    if d > 0 { EvenPages(d - page, page); }
  }

  lemma EvenPart(n: nat, k: nat)
    requires k % 2 == 0 && k <= n < k + 2
    ensures n - n % 2 == k
  {}

  // ----------------------------------------------------------------- requests

  /** A device that takes commands: neither secure nor about to exit. */
  ghost predicate Open(dev: Device, m: Machine) {
    Sane(dev, m) && !m.isSecure && !m.waiting
  }

  /** A first packet with all parameters, for the given command and memory. */
  predicate FullPacket(length: nat, packet: seq<byte>, command: byte, memory: byte) {
    6 <= length < 0x1_0000 && |packet| >= 6 && packet[0] == command && packet[1] == memory
  }

  lemma LoadsAll(m: Machine, length: nat, packet: seq<byte>)
    requires |m.data| == 5 && 6 <= length < 0x1_0000 && |packet| >= 6
    ensures Params(packet, m.data) == packet[1..6] && Remaining(length, packet) == length - 6
  {}

  /** The machine with a packet's command in place. */
  function Loaded(m: Machine, length: nat, packet: seq<byte>): Machine
    requires |packet| >= 6 && 6 <= length < 0x1_0000
  {
    m.(command := packet[0], data := packet[1..6], dataSize := length - 6)
  }

  lemma CommandedIs(dev: Device, m: Machine, length: nat, packet: seq<byte>)
    requires Sane(dev, m) && !m.waiting && 6 <= length < 0x1_0000 && |packet| >= 6
    ensures Commanded(dev, m, length, packet) == Execute(dev, Loaded(m, length, packet))
  {
    LoadsAll(m, length, packet);
  }

  /** The addresses a full packet carries. */
  lemma PacketAddresses(packet: seq<byte>, d: seq<byte>)
    requires |packet| >= 6 && d == packet[1..6]
    ensures AddrAt(d, 1) == AddrAt(packet, 2) && AddrAt(d, 3) == AddrAt(packet, 4) && d[0] == packet[1]
  {
    assert d[1] == packet[2] && d[2] == packet[3] && d[3] == packet[4] && d[4] == packet[5];
  }

  /** The command part of a download to memory 0 (flash) or 1 (EEPROM). */
  lemma DownloadCommand(dev: Device, m: Machine, length: nat, packet: seq<byte>, memory: byte, c: Machine)
    requires Open(dev, m) && FullPacket(length, packet, PROG_START, memory) && memory <= 1
    requires c == Commanded(dev, m, length, packet)
    ensures c == Loaded(m, length, packet).(startAddr := AddrAt(packet, 2), endAddr := AddrAt(packet, 4),
                                            state := DnloadIdle, flash := c.flash)
    ensures c.flash == if memory == 0 then Erase(m.flash, dev.select(Base(c)), dev.page) else m.flash
  {
    CommandedIs(dev, m, length, packet);
    PacketAddresses(packet, packet[1..6]);
  }

  /** The packet addresses the bytes from first to last, high byte of each address first. */
  predicate Addresses(packet: seq<byte>, first: nat, last: nat)
    requires |packet| >= 6
  {
    first == (packet[2] as int) * 256 + packet[3] as int && last == (packet[4] as int) * 256 + packet[5] as int
  }

  /** n is the number of bytes from first to last, up to a multiple of 65536. */
  predicate Spans(first: nat, last: nat, n: nat) {
    n < 0x1_0000 && (n == last - first + 1 || n == last - first + 0x1_0001 || n == last - first - 0xFFFF)
  }

  lemma AddressesAre(packet: seq<byte>, first: nat, last: nat)
    requires |packet| >= 6 && Addresses(packet, first, last)
    ensures AddrAt(packet, 2) == first && AddrAt(packet, 4) == last
  {}

  lemma SpansAre(first: nat, last: nat, n: nat)
    requires Spans(first, last, n)
    ensures ByteCount(first, last) == n
  {}

  /** The packet addresses w words of the 64 KB page from base on. */
  predicate Selects(packet: seq<byte>, flash64: nat, base: nat, w: nat)
    requires |packet| >= 6
  {
    var first, last := (packet[2] as int) * 256 + packet[3] as int, (packet[4] as int) * 256 + packet[5] as int;
    base == first + 0x1_0000 * flash64 && (Spans(first, last, 2 * w) || Spans(first, last, 2 * w + 1))
  }

  lemma SelectsAre(packet: seq<byte>, flash64: nat, base: nat, w: nat)
    requires |packet| >= 6 && Selects(packet, flash64, base, w)
    ensures base == AddrAt(packet, 2) + 0x1_0000 * flash64
    ensures ByteCount(AddrAt(packet, 2), AddrAt(packet, 4)) / 2 == w
  {
    var first, last := AddrAt(packet, 2), AddrAt(packet, 4);
    AddressesAre(packet, first, last);
    if Spans(first, last, 2 * w) { SpansAre(first, last, 2 * w); } else { SpansAre(first, last, 2 * w + 1); }
  }

  /** A download of w words to flash, from base on: command 1, memory 0. */
  ghost predicate IsDownload(dev: Device, m: Machine, r: Request, base: nat, w: nat) {
    && Open(dev, m) && r.Dnload? && FullPacket(r.length, r.packet, 0x01, 0x00) && r.length > 6
    && Selects(r.packet, m.flash64, base, w) && Fits(dev, base, w)
  }

  /** Programming flash: the streamed words, or as many as came, whatever was in the page buffer. */
  lemma ProgramsFlash(dev: Device, m: Machine, r: Request, base: nat, w: nat, n: Machine)
    requires IsDownload(dev, m, r, base, w) && n == Next(dev, m, r)
    ensures Open(dev, n) && n.state == DnloadIdle && n.eeprom == m.eeprom && n.flash64 == m.flash64
    ensures n.status == m.status && n.running == m.running
    ensures 2 * w <= |r.body| ==>
      && n.flash == Written(m.flash, base, r.body[..2 * w], m.buffer) && n.buffer == Blanks(dev.page)
      && n.startAddr == n.endAddr == (r.packet[4] as int) * 256 + r.packet[5] as int
    ensures 2 * w > |r.body| ==> BrokenOff(m.flash, m.buffer, base, r.body, n.flash, n.buffer)
  {
    var c := DownloadIs(dev, m, r, base, w, n);
    DataStage(dev, m.flash, base, w, c, r.body, n);
  }

  /** The two stages of a download: the command, after which the device is c, and the data. */
  lemma DownloadIs(dev: Device, m: Machine, r: Request, base: nat, w: nat, n: Machine) returns (c: Machine)
    requires IsDownload(dev, m, r, base, w) && n == Next(dev, m, r)
    ensures Open(dev, c) && Base(c) == base && Words(c) == w && n == FlashData(dev, c, r.body)
    ensures c.endAddr == (r.packet[4] as int) * 256 + r.packet[5] as int
    ensures c.flash == Erase(m.flash, dev.select(base), dev.page) && c.buffer == m.buffer && c.state == DnloadIdle
    ensures c.eeprom == m.eeprom && c.flash64 == m.flash64 && c.status == m.status && c.running == m.running
  {
    c := Commanded(dev, m, r.length, r.packet);
    DownloadCommand(dev, m, r.length, r.packet, 0, c);
    SelectsAre(r.packet, m.flash64, base, w);
  }

  /** The data stage of a download, when its first page has been erased. */
  lemma DataStage(dev: Device, flash: seq<byte>, base: nat, w: nat, c: Machine, body: seq<byte>, n: Machine)
    requires Sane(dev, c) && |flash| == dev.size && c.flash == Erase(flash, dev.select(base), dev.page)
    requires Fits(dev, base, w) && Base(c) == base && Words(c) == w && n == FlashData(dev, c, body)
    ensures n == c.(flash := n.flash, buffer := n.buffer, startAddr := n.startAddr)
    ensures 2 * w <= |body| ==>
      && n.flash == Written(flash, base, body[..2 * w], c.buffer) && n.buffer == Blanks(dev.page)
      && n.startAddr == c.endAddr
    ensures 2 * w > |body| ==> BrokenOff(flash, c.buffer, base, body, n.flash, n.buffer)
  {
    ErasedReady(dev, flash, base, w, c);
    if 2 * w <= |body| {
      WholeFromErased(dev, flash, base, w, c, body);
    } else {
      FlashDataBroken(dev, c, body);
      BrokenFromErased(flash, c.buffer, base, body, c.flash, n.flash, n.buffer);
    }
  }

  /** The pages of a complete download hold its words and are blank behind them exactly if there
      were no words, or they fill the first page, or the page buffer was blank behind them. */
  lemma ProgramsExactly(dev: Device, m: Machine, r: Request, base: nat, w: nat, n: Machine)
    requires IsDownload(dev, m, r, base, w) && n == Next(dev, m, r) && 2 * w <= |r.body|
    ensures n.flash == Programmed(m.flash, base, r.body[..2 * w], dev.page)
            <==> w == 0 || 2 * w >= dev.page || AllBlank(m.buffer[2 * w..])
  {
    ProgramsFlash(dev, m, r, base, w, n);
    WrittenExact(m.flash, base, r.body[..2 * w], m.buffer);
  }

  lemma WholeFromErased(dev: Device, flash: seq<byte>, base: nat, w: nat, c: Machine, body: seq<byte>)
    requires Sane(dev, c) && Ready(dev, c) && Base(c) == base && Words(c) == w && 2 * w <= |body|
    requires |flash| == dev.size && c.flash == Erase(flash, base, dev.page)
    ensures FlashData(dev, c, body).flash == Written(flash, base, body[..2 * w], c.buffer)
  {
    FlashDataWhole(dev, c, body);
    EraseFirst(flash, base, body[..2 * w], c.buffer, c.flash);
  }

  lemma ErasedReady(dev: Device, flash: seq<byte>, base: nat, w: nat, c: Machine)
    requires Sane(dev, c) && |flash| == dev.size && c.flash == Erase(flash, dev.select(base), dev.page)
    requires Fits(dev, base, w) && Base(c) == base && Words(c) == w
    ensures Ready(dev, c) && dev.select(base) == base
  {
    assert Decodes(dev, base);
  }

  lemma BrokenFromErased(flash: seq<byte>, buffer: seq<byte>, base: nat, body: seq<byte>, erased: seq<byte>,
                         flash': seq<byte>, buffer': seq<byte>)
    requires |buffer| > 0 && base + |buffer| <= |flash|
    requires erased == Erase(flash, base, |buffer|) && BrokenOff(erased, buffer, base, body, flash', buffer')
    ensures BrokenOff(flash, buffer, base, body, flash', buffer')
  {
    var part := body[..Committed(body, |buffer|)] + Blanks(|buffer|);
    assert Splice(erased, base, part) == Splice(flash, base, part);
  }

  /** Selecting a range for upload. */
  lemma Shows(dev: Device, m: Machine, length: nat, packet: seq<byte>, body: seq<byte>, memory: byte, n: Machine)
    requires Open(dev, m) && FullPacket(length, packet, DISP_DATA, memory) && (memory == 0 || memory == 2)
    requires n == Next(dev, m, Dnload(length, packet, body))
    ensures n.state == UploadIdle && n.data[0] == memory
    ensures n.startAddr == AddrAt(packet, 2) && n.endAddr == AddrAt(packet, 4)
    ensures n.flash == m.flash && n.eeprom == m.eeprom && n.buffer == m.buffer && n.flash64 == m.flash64 && Open(dev, n)
  {
    CommandedIs(dev, m, length, packet);
    PacketAddresses(packet, packet[1..6]);
  }

  lemma {:induction false} FlashWordsAre(flash: seq<byte>, a: nat, n: nat)
    requires a + 2 * n <= |flash| && |flash| > 0
    ensures FlashWords(flash, a, n) == flash[a..a + 2 * n]
  {
    if n > 0 {
      FlashWordsAre(flash, a, n - 1);
      var b := a + 2 * (n - 1);
      assert Wrap(b, |flash|) == b && Wrap(b + 1, |flash|) == b + 1;
      SliceMore(flash, a, b);
    }
  }

  lemma SliceMore(s: seq<byte>, a: nat, b: nat)
    requires a <= b && b + 2 <= |s|
    ensures s[a..b] + [s[b], s[b + 1]] == s[a..b + 2]
  {}

  lemma {:induction false} EepromBytesAre(eeprom: seq<byte>, a: nat, n: nat)
    requires a + n <= |eeprom| <= 0x1_0000 && |eeprom| > 0
    ensures EepromBytes(eeprom, a, n) == eeprom[a..a + n]
  {
    if n > 0 {
      EepromBytesAre(eeprom, a, n - 1);
      assert eeprom[a..a + n - 1] + [eeprom[a + n - 1]] == eeprom[a..a + n];
    }
  }

  /** Programming a range and selecting it for upload: the upload returns exactly the words,
      whatever was in the page buffer. */
  lemma FlashRoundTrip(dev: Device, m: Machine, r: Request, base: nat, w: nat,
                       length': nat, packet': seq<byte>, n: Machine, s: Machine)
    requires IsDownload(dev, m, r, base, w) && 2 * w <= |r.body| && n == Next(dev, m, r)
    requires FullPacket(length', packet', 0x03, 0x00) && packet'[2..6] == r.packet[2..6]
    requires s == Next(dev, n, Dnload(length', packet', []))
    ensures Reply(dev, s, Upload) == r.body[..2 * w]
    ensures s.flash == n.flash
  {
    ProgramsFlash(dev, m, r, base, w, n);
    Shows(dev, n, length', packet', [], 0, s);
    SameAddresses(r.packet, packet');
    SelectsAre(r.packet, m.flash64, base, w);
    UploadsWritten(dev, s, m.flash, m.buffer, base, w, r.body[..2 * w]);
  }

  lemma UploadsWritten(
      dev: Device, s: Machine, flash: seq<byte>, buffer: seq<byte>, base: nat, w: nat, data: seq<byte>)
    requires Sane(dev, s) && s.state == UploadIdle && s.data[0] == 0 && Base(s) == base && Words(s) == w
    requires |flash| == dev.size && |buffer| == dev.page && |data| == 2 * w
    requires base + Span(2 * w, dev.page) <= dev.size && s.flash == Written(flash, base, data, buffer)
    ensures Reply(dev, s, Upload) == data
  {
    ReadBack(flash, base, data, buffer);
    FlashWordsAre(s.flash, base, w);
  }

  lemma SameAddresses(a: seq<byte>, b: seq<byte>)
    requires |a| >= 6 && |b| >= 6 && a[2..6] == b[2..6]
    ensures AddrAt(a, 2) == AddrAt(b, 2) && AddrAt(a, 4) == AddrAt(b, 4)
  {
    assert a[2] == a[2..6][0] && a[3] == a[2..6][1] && a[4] == a[2..6][2] && a[5] == a[2..6][3];
    assert b[2] == b[2..6][0] && b[3] == b[2..6][1] && b[4] == b[2..6][2] && b[5] == b[2..6][3];
  }

  // ------------------------------------------------------------------- EEPROM

  lemma {:induction false} ByteLoopIs(eeprom: seq<byte>, addr: nat, body: seq<byte>, k: nat)
    requires 0 < |eeprom| <= 0x1_0000 && k <= |body| && addr + k <= |eeprom|
    ensures ByteLoop(eeprom, addr, body, k) == Splice(eeprom, addr, body[..k])
  {
    if k == 0 {
      assert Splice(eeprom, addr, body[..0]) == eeprom;
    } else {
      ByteLoopIs(eeprom, addr, body, k - 1);
      ByteLoopNext(eeprom, addr, body, k - 1, ByteLoop(eeprom, addr, body, k - 1));
    }
  }

  lemma ByteLoopNext(eeprom: seq<byte>, addr: nat, body: seq<byte>, k: nat, r: seq<byte>)
    requires 0 < |eeprom| <= 0x1_0000 && k < |body| && addr + k < |eeprom| && r == Splice(eeprom, addr, body[..k])
    ensures |r| == |eeprom| && Wrap(Plus16(addr, k), |r|) == addr + k
    ensures r[addr + k := body[k]] == Splice(eeprom, addr, body[..k + 1])
  {
    SpliceByte(eeprom, addr, body, k);
  }

  /** Programming EEPROM: the streamed bytes, or as many as came. */
  lemma ProgramsEeprom(dev: Device, m: Machine, length: nat, packet: seq<byte>, body: seq<byte>,
                       first: nat, last: nat, count: nat, k: nat, n: Machine)
    requires Open(dev, m) && FullPacket(length, packet, 0x01, 0x01) && length > 6
    requires Addresses(packet, first, last) && Spans(first, last, count) && k == Min(count, |body|)
    requires first + k <= |m.eeprom| && n == Next(dev, m, Dnload(length, packet, body))
    ensures Open(dev, n) && n.eeprom == Splice(m.eeprom, first, body[..k])
    ensures n.flash == m.flash && n.flash64 == m.flash64 && n.state == DnloadIdle
    ensures n.buffer == (if k == 0 then m.buffer else Blanks(dev.page)) && n.startAddr == (first + k) % 0x1_0000
  {
    DownloadCommand(dev, m, length, packet, 1, Commanded(dev, m, length, packet));
    AddressesAre(packet, first, last);
    SpansAre(first, last, count);
    ByteLoopIs(m.eeprom, first, body, k);
  }

  lemma EepromRoundTrip(dev: Device, m: Machine, length: nat, packet: seq<byte>, body: seq<byte>,
                        first: nat, last: nat, k: nat, length': nat, packet': seq<byte>, n: Machine, s: Machine)
    requires Open(dev, m) && FullPacket(length, packet, 0x01, 0x01) && length > 6
    requires Addresses(packet, first, last) && Spans(first, last, k) && k <= |body|
    requires first + k <= |m.eeprom| && n == Next(dev, m, Dnload(length, packet, body))
    requires FullPacket(length', packet', 0x03, 0x02) && packet'[2..6] == packet[2..6]
    requires s == Next(dev, n, Dnload(length', packet', []))
    ensures s.eeprom == Splice(m.eeprom, first, body[..k]) && s.flash == m.flash
    ensures Reply(dev, s, Upload) == body[..k]
  {
    ProgramsEeprom(dev, m, length, packet, body, first, last, k, k, n);
    Shows(dev, n, length', packet', [], 2, s);
    SameAddresses(packet, packet');
    AddressesAre(packet, first, last);
    SpansAre(first, last, k);
    EepromBytesAre(s.eeprom, first, k);
  }

  // ------------------------------------------------------ erase and blank check

  /** No data stage of a download follows the command. */
  predicate Quiet(m: Machine, length: nat, packet: seq<byte>)
    requires packet != []
  {
    m.state != DnloadIdle || length == Min(6, |packet|)
  }

  /** A download that was going on is over. */
  function Settle(s: State): State {
    if s == DnloadIdle then Idle else s
  }

  /** The erase command, with whatever stale parameters complete it. */
  predicate IsErase(m: Machine, length: nat, packet: seq<byte>)
    requires |m.data| == 5
  {
    && 0 < length < 0x1_0000 && packet != [] && packet[0] == 0x04
    && Param(packet, m.data, 0) == 0x00 && Param(packet, m.data, 1) == 0xFF
  }

  predicate IsBlankCheck(m: Machine, length: nat, packet: seq<byte>)
    requires |m.data| == 5
  {
    && 0 < length < 0x1_0000 && packet != [] && packet[0] == 0x03
    && Param(packet, m.data, 0) == 0x01
  }

  /** The erase clears the application section, up to what waited in the page buffer, and
      lifts secure mode. */
  lemma Erases(dev: Device, m: Machine, length: nat, packet: seq<byte>, body: seq<byte>, n: Machine)
    requires Sane(dev, m) && !m.waiting && IsErase(m, length, packet) && Quiet(m, length, packet)
    requires n == Next(dev, m, Dnload(length, packet, body))
    ensures Open(dev, n) && n.flash == Cleared(m.flash, m.buffer, dev.bootStart) && n.buffer == Blanks(dev.page)
    ensures n.state == Settle(m.state) && n.status == m.status && n.startAddr == m.startAddr && n.flash64 == m.flash64
    ensures n.eeprom == m.eeprom && n.running == m.running
    ensures dev.bootStart > 0 ==> (AllBlank(n.flash[..dev.bootStart]) <==> m.buffer == Blanks(dev.page))
    ensures forall a :: 0 <= a < dev.size ==>
      n.flash[a] == if a >= dev.bootStart then m.flash[a] else if a < dev.page then m.buffer[a] else 0xFF
  {
    ParamsAre(packet, m.data);
    if dev.bootStart > 0 { ClearedBlank(m.flash, m.buffer, dev.bootStart); }
  }

  /** The blank check of a blank application section changes nothing but the command; that of
      another one reports the first byte in use. */
  lemma Checks(dev: Device, m: Machine, length: nat, packet: seq<byte>, body: seq<byte>, n: Machine)
    requires Open(dev, m) && IsBlankCheck(m, length, packet) && Quiet(m, length, packet)
    requires n == Next(dev, m, Dnload(length, packet, body))
    ensures Open(dev, n) && n.flash == m.flash && n.eeprom == m.eeprom && n.buffer == m.buffer && n.running == m.running
    ensures AllBlank(m.flash[..dev.bootStart]) ==>
      n.state == Settle(m.state) && n.status == m.status && n.startAddr == m.startAddr && n.flash64 == m.flash64
    ensures !AllBlank(m.flash[..dev.bootStart]) ==>
      var a := FirstUsed(m.flash, dev.bootStart);
      && a < dev.bootStart && n.state == Error && n.status == ErrCheckErased
      && n.startAddr == a % 0x1_0000 && n.flash64 == a / 0x1_0000 % 256 && n.data[0] == 0x01
  {
    ParamsAre(packet, m.data);
    FirstUsedBlank(m.flash, dev.bootStart);
  }

  lemma FirstUsedBlank(flash: seq<byte>, end: nat)
    requires end <= |flash|
    ensures FirstUsed(flash, end) == end <==> AllBlank(flash[..end])
  {
    if AllBlank(flash[..end]) && FirstUsed(flash, end) < end {
      assert flash[..end][FirstUsed(flash, end)] == BLANK;
    }
  }

  /** What the erase leaves in use is what the page buffer held. */
  lemma FirstUsedCleared(flash: seq<byte>, buffer: seq<byte>, end: nat)
    requires |buffer| <= end <= |flash| && end > 0 && buffer != Blanks(|buffer|)
    ensures FirstUsed(buffer, |buffer|) < |buffer|
    ensures FirstUsed(Cleared(flash, buffer, end), end) == FirstUsed(buffer, |buffer|)
  {
    var r, a, blank := Cleared(flash, buffer, end), FirstUsed(buffer, |buffer|), Blanks(|buffer|);
    assert a == |buffer| ==> buffer == blank;
    assert forall i :: 0 <= i < |buffer| ==> r[i] == buffer[i];
    assert r[a] != BLANK && forall i :: 0 <= i < a ==> r[i] == BLANK;
  }

  /** The blank check behind an erase finds nothing exactly if the page buffer was empty or
      there is no application section, and otherwise reports the first byte in use of that buffer. */
  lemma EraseThenCheck(dev: Device, m: Machine, length: nat, packet: seq<byte>, length': nat, packet': seq<byte>,
                       n: Machine, c: Machine)
    requires Sane(dev, m) && !m.waiting
    requires IsErase(m, length, packet) && Quiet(m, length, packet) && n == Next(dev, m, Dnload(length, packet, []))
    requires IsBlankCheck(n, length', packet') && c == Next(dev, n, Dnload(length', packet', []))
    ensures !c.isSecure
    ensures AllBlank(c.flash[..dev.bootStart]) <==> dev.bootStart == 0 || m.buffer == Blanks(dev.page)
    ensures dev.bootStart == 0 || m.buffer == Blanks(dev.page) ==>
      c.state == Settle(m.state) && c.status == m.status && c.startAddr == m.startAddr && c.flash64 == m.flash64
    ensures dev.bootStart > 0 && m.buffer != Blanks(dev.page) ==>
      var a := FirstUsed(m.buffer, dev.page);
      && a < dev.page && c.state == Error && c.status == ErrCheckErased
      && c.startAddr == a % 0x1_0000 && c.flash64 == a / 0x1_0000 % 256
  {
    Erases(dev, m, length, packet, [], n);
    Checks(dev, n, length', packet', [], c);
    if dev.bootStart > 0 && m.buffer != Blanks(dev.page) { FirstUsedCleared(m.flash, m.buffer, dev.bootStart); }
  }

  /** A check that finds a byte in use has the following upload tell its address. */
  lemma CheckThenUpload(dev: Device, m: Machine, length: nat, packet: seq<byte>, n: Machine)
    requires Open(dev, m) && IsBlankCheck(m, length, packet) && Quiet(m, length, packet)
    requires n == Next(dev, m, Dnload(length, packet, [])) && !AllBlank(m.flash[..dev.bootStart])
    ensures var a := FirstUsed(m.flash, dev.bootStart);
            && a < dev.bootStart && m.flash[a] != BLANK && AllBlank(m.flash[..a])
            && Reply(dev, n, Upload) == [a % 0x1_0000 % 256, a % 0x1_0000 / 256]
  {
    Checks(dev, m, length, packet, [], n);
  }

  /** A download that broke off and then an erase: the application section is blank exactly if
      what the download left in the page buffer is. */
  lemma BrokenThenErase(dev: Device, m: Machine, r: Request, base: nat, w: nat,
                        length': nat, packet': seq<byte>, n: Machine, e: Machine)
    requires IsDownload(dev, m, r, base, w) && 2 * w > |r.body| && n == Next(dev, m, r)
    requires dev.bootStart > 0 && IsErase(n, length', packet') && length' == Min(6, |packet'|)
    requires e == Next(dev, n, Dnload(length', packet', []))
    ensures var done := Committed(r.body, dev.page);
            && Taken(r.body) - done <= dev.page
            && (AllBlank(e.flash[..dev.bootStart]) <==>
                  AllBlank(r.body[done..Taken(r.body)]) && (done > 0 || AllBlank(m.buffer[Taken(r.body)..])))
  {
    ProgramsFlash(dev, m, r, base, w, n);
    Erases(dev, n, length', packet', [], e);
    WaitingBlank(m.buffer, r.body);
  }

  lemma WaitingBlank(buffer: seq<byte>, body: seq<byte>)
    requires |buffer| > 0
    ensures var done := Committed(body, |buffer|);
            && Taken(body) - done <= |buffer|
            && (Waiting(buffer, body) == Blanks(|buffer|) <==>
                  AllBlank(body[done..Taken(body)]) && (done > 0 || AllBlank(buffer[Taken(body)..])))
  {
    var done := Committed(body, |buffer|);
    OverBlank(body[done..Taken(body)], if done == 0 then buffer else Blanks(|buffer|));
  }

  // ----------------------------------------------------------------- examples

  /** An open device with nothing programmed and nothing in its page buffer. */
  ghost predicate PowerUp(dev: Device, m: Machine) {
    Open(dev, m) && m.buffer == Blanks(dev.page) && AllBlank(m.flash)
  }

  function SlotOf8(a: nat): (o: nat)
    ensures o <= 6
  {
    if a % 8 == 2 then 2 else if a % 8 == 4 then 4 else if a % 8 == 6 then 6 else 0
  }

  lemma SlotOf8Is(a: nat, i: nat)
    requires a % 8 == 0 && 2 * i < 8
    ensures SlotOf8(a + 2 * i) == 2 * i
  {}

  /** Two pages of eight bytes, the second one for the boot section. */
  lemma EightBytePages() returns (dev: Device)
    ensures DeviceOk(dev) && dev.page == 8 && dev.bootStart == 8 && dev.size == 16
  {
    dev := Device(8, 8, 16, (a: nat) => if a == 8 then 8 else 0, SlotOf8, (a: byte, b: byte) => 0);
    forall a: nat, i: nat ensures DecodesWord(dev, a, i) {
      AlignedIs(a, 8);
      if a % 8 == 0 && 2 * i < 8 { SlotOf8Is(a, i); }
    }
  }

  lemma Unprogrammed(dev: Device) returns (m: Machine)
    requires DeviceOk(dev) && dev.page == 8 && dev.size == 16
    ensures PowerUp(dev, m) && m.flash64 == 0
  {
    m := Machine(Blanks(16), Blanks(8), [0], false, true, false, Idle, Ok, 0, [0, 0, 0, 0, 0], 0, 0, 0, 0, 0, 0, 0);
  }

  lemma ShortStream(page: nat, body: seq<byte>)
    requires |body| < page && |body| % 2 == 0
    ensures Committed(body, page) == 0 && Taken(body) == |body|
  {
  }

  /** One word of a longer download to flash, and the erase. */
  ghost predicate OneWord(dev: Device, m: Machine, r: Request, r': Request, base: nat, w: nat) {
    && IsDownload(dev, m, r, base, w) && dev.page > 2 && dev.bootStart > 0
    && |r.body| == 2 && !AllBlank(r.body) && w > 1
    && r'.Dnload? && r'.length == |r'.packet| == 3 && r'.body == []
    && r'.packet[0] == WRITE && r'.packet[1] == 0x00 && r'.packet[2] == 0xFF
  }

  lemma ThreeByteErase(m: Machine, length: nat, packet: seq<byte>)
    requires |m.data| == 5 && length == |packet| == 3
    requires packet[0] == 0x04 && packet[1] == 0x00 && packet[2] == 0xFF
    ensures IsErase(m, length, packet)
  {}

  /** So a single word that is not blank survives the erase. */
  lemma WordSurvives(dev: Device, m: Machine, r: Request, r': Request, base: nat, w: nat, n: Machine, e: Machine)
    requires OneWord(dev, m, r, r', base, w) && n == Next(dev, m, r) && e == Next(dev, n, r')
    ensures !AllBlank(e.flash[..dev.bootStart])
  {
    ThreeByteErase(n, r'.length, r'.packet);
    BrokenThenErase(dev, m, r, base, w, r'.length, r'.packet, n, e);
    ShortStream(dev.page, r.body);
    assert r.body[0..2] == r.body;
  }

  /** Such a case: two bytes of a download of sixteen. */
  lemma OneWordCase() returns (dev: Device, m: Machine, r: Request, r': Request, base: nat, w: nat)
    ensures OneWord(dev, m, r, r', base, w) && PowerUp(dev, m)
  {
    dev := EightBytePages();
    m := Unprogrammed(dev);
    r, r' := Dnload(64, [0x01, 0, 0, 0, 0, 15], [0x12, 0x34]), Dnload(3, [0x04, 0x00, 0xFF], []);
    base, w := 0, 8;
    assert r.body[0] != BLANK;
  }

  /** There the erase does not leave the application section blank. */
  lemma EraseLeavesWord() returns (dev: Device, m: Machine, r: Request, r': Request, e: Machine)
    ensures PowerUp(dev, m) && RequestOk(r) && RequestOk(r')
    ensures e == Next(dev, Next(dev, m, r), r') && !AllBlank(e.flash[..dev.bootStart])
  {
    var base, w;
    dev, m, r, r', base, w := OneWordCase();
    var n := Next(dev, m, r);
    e := Next(dev, n, r');
    WordSurvives(dev, m, r, r', base, w, n, e);
  }

  /** Two words of a longer download to flash, and a whole download of one word to the same
      place. */
  ghost predicate TwoThenOne(dev: Device, m: Machine, r: Request, r': Request, base: nat, w: nat) {
    && IsDownload(dev, m, r, base, w) && dev.page > 4 && |r.body| == 4 && w > 2
    && r'.Dnload? && FullPacket(r'.length, r'.packet, 0x01, 0x00) && r'.length > 6 && |r'.body| == 2
    && Selects(r'.packet, m.flash64, base, 1) && Fits(dev, base, 1)
  }

  lemma TwoLeft(dev: Device, m: Machine, r: Request, base: nat, w: nat, n: Machine)
    requires IsDownload(dev, m, r, base, w) && dev.page > 4 && |r.body| == 4 && w > 2 && n == Next(dev, m, r)
    ensures Open(dev, n) && n.flash64 == m.flash64 && n.buffer[2..4] == r.body[2..]
  {
    ShortStream(dev.page, r.body);
    ProgramsFlash(dev, m, r, base, w, n);
    assert r.body[0..4] == r.body;
  }

  lemma OneBefore(dev: Device, n: Machine, r: Request, base: nat, e: Machine)
    requires IsDownload(dev, n, r, base, 1) && dev.page > 4 && |r.body| == 2 && e == Next(dev, n, r)
    ensures base + 4 <= |e.flash| && e.flash[base..base + 4] == r.body + n.buffer[2..4]
  {
    ProgramsFlash(dev, n, r, base, 1, e);
    assert r.body[..2] == r.body;
    FrontOfPage(n.flash, base, r.body, n.buffer, e.flash);
  }

  lemma FrontOfPage(flash: seq<byte>, base: nat, data: seq<byte>, buffer: seq<byte>, now: seq<byte>)
    requires |buffer| > 4 && |data| == 2 && base + Span(2, |buffer|) <= |flash|
    requires now == Written(flash, base, data, buffer)
    ensures base + 4 <= |now| && now[base..base + 4] == data + buffer[2..4]
  {
    var rest := buffer[2..];
    assert rest[..2] == buffer[2..4];
    SpliceFront(flash, base, data + rest[..2], rest[2..]);
    assert data + rest == data + rest[..2] + rest[2..];
  }

  /** The second word of the first download ends up behind the word of the second. */
  lemma StaleWord(dev: Device, m: Machine, r: Request, r': Request, base: nat, w: nat, n: Machine, e: Machine)
    requires TwoThenOne(dev, m, r, r', base, w) && n == Next(dev, m, r) && e == Next(dev, n, r')
    ensures base + 4 <= |e.flash| && e.flash[base..base + 4] == r'.body + r.body[2..]
  {
    TwoLeft(dev, m, r, base, w, n);
    OneBefore(dev, n, r', base, e);
  }

  lemma TwoThenOneCase() returns (dev: Device, m: Machine, r: Request, r': Request, base: nat, w: nat)
    ensures TwoThenOne(dev, m, r, r', base, w) && PowerUp(dev, m)
    ensures r.body == [0x12, 0x34, 0x56, 0x78] && r'.body == [0xAA, 0xBB]
  {
    dev := EightBytePages();
    m := Unprogrammed(dev);
    r := Dnload(64, [0x01, 0, 0, 0, 0, 15], [0x12, 0x34, 0x56, 0x78]);
    r' := Dnload(64, [0x01, 0, 0, 0, 0, 1], [0xAA, 0xBB]);
    base, w := 0, 8;
  }

  lemma NotProgrammed(flash: seq<byte>, base: nat, data: seq<byte>, page: nat, now: seq<byte>)
    requires page > 4 && |data| == 2 && base + Span(2, page) <= |flash| == |now| && now[base + 2] != BLANK
    ensures now != Programmed(flash, base, data, page)
  {
    ProgrammedAt(flash, base, data, page, base + 2);
  }

  lemma StaleCase(dev: Device, m: Machine, r: Request, r': Request, base: nat, w: nat, n: Machine, e: Machine)
    requires TwoThenOne(dev, m, r, r', base, w) && n == Next(dev, m, r) && e == Next(dev, n, r') && r.body[2] != BLANK
    ensures |e.flash| == |m.flash| && base + Span(2, dev.page) <= |m.flash|
    ensures base + 4 <= |e.flash| && e.flash[base..base + 4] == r'.body + r.body[2..]
    ensures e.flash != Programmed(m.flash, base, r'.body, dev.page)
  {
    StaleWord(dev, m, r, r', base, w, n, e);
    assert e.flash[base + 2] == e.flash[base..base + 4][2] == r.body[2];
    NotProgrammed(m.flash, base, r'.body, dev.page, e.flash);
  }

  /** From power-up: a download that breaks off after two words and one of a single word.  The
      page of that word is not blank behind it: there is the second word of the first download. */
  lemma StaleExample() returns (dev: Device, m: Machine, r: Request, r': Request, base: nat, e: Machine)
    ensures PowerUp(dev, m) && RequestOk(r) && RequestOk(r') && r.Dnload? && r'.Dnload?
    ensures r.body == [0x12, 0x34, 0x56, 0x78] && r'.body == [0xAA, 0xBB]
    ensures e == Next(dev, Next(dev, m, r), r') && base + Span(2, dev.page) <= |m.flash|
    ensures base + 4 <= |e.flash| && e.flash[base..base + 4] == r'.body + r.body[2..]
    ensures e.flash != Programmed(m.flash, base, r'.body, dev.page)
  {
    var w;
    dev, m, r, r', base, w := TwoThenOneCase();
    var n := Next(dev, m, r);
    e := Next(dev, n, r');
    StaleCase(dev, m, r, r', base, w, n, e);
  }
}
