/** The bootloader as the host meets it: which bytes it sends, which bytes come back, and which
    bytes the memories hold then, all in plain numbers. */
module DfuHost {
  import opened Bits
  import opened FlashModel
  import opened DfuModel
  import opened DfuMemory

  // -------------------------------------------------------------------- flash

  /** A range of bytes that is shorter than 64 KB. */
  predicate Range(first: nat, last: nat) {
    first <= last && last - first < 0xFFFF
  }

  /** len is the length of the range in whole words, in bytes. */
  predicate WholeWords(first: nat, last: nat, len: nat) {
    len % 2 == 0 && (len == last - first + 1 || len == last - first)
  }

  /** The bytes from base on lie in `pages` pages, which lie in flash. */
  predicate OnPages(dev: Device, base: nat, len: nat, pages: nat)
    requires dev.page > 0
  {
    && base % dev.page == 0 && pages >= 1 && base + pages * dev.page <= dev.size
    && (pages == 1 || (pages - 1) * dev.page < len) && len <= pages * dev.page
  }

  /** A DNLOAD with command 1 for memory 0, flash. */
  ghost predicate FlashDownload(dev: Device, m: Machine, r: Request, first: nat, last: nat, base: nat, len: nat,
                                pages: nat) {
    && Open(dev, m) && r.Dnload? && FullPacket(r.length, r.packet, 0x01, 0x00) && r.length > 6
    && Addresses(r.packet, first, last) && Range(first, last) && WholeWords(first, last, len)
    && base == first + 0x1_0000 * m.flash64 && OnPages(dev, base, len, pages)
  }

  lemma {:induction false} SpanOf(n: nat, page: nat, pages: nat)
    requires page > 0 && pages >= 1 && (pages == 1 || (pages - 1) * page < n) && n <= pages * page
    ensures Span(n, page) == pages * page
  {
    MulSucc(pages - 1, page);
    if pages > 1 {
      MulSucc(pages - 2, page);
      SpanOf(n - page, page, pages - 1);
    }
  }

  lemma DownloadFits(dev: Device, m: Machine, r: Request, first: nat, last: nat, base: nat, len: nat, pages: nat)
    requires FlashDownload(dev, m, r, first, last, base, len, pages)
    ensures IsDownload(dev, m, r, base, len / 2) && Span(len, dev.page) == pages * dev.page
  {
    AlignedIs(base, dev.page);
    SpanOf(len, dev.page, pages);
    assert Spans(first, last, last - first + 1);
  }

  /** What follows len downloaded bytes in their last page, at distance i from their start: 0xFF, or
      what was in the page buffer if they end in the first page. */
  function Behind(buffer: seq<byte>, len: nat, i: nat): byte {
    if 0 < len && i < |buffer| then buffer[i] else 0xFF
  }

  lemma SpliceAt(s: seq<byte>, p: nat, part: seq<byte>, a: nat)
    requires p + |part| <= |s| && a < |s|
    ensures Splice(s, p, part)[a] == if p <= a < p + |part| then part[a - p] else s[a]
  {}

  lemma RestAt(len: nat, buffer: seq<byte>, i: nat)
    requires |buffer| > 0 && i < Span(len, |buffer|) - len
    ensures Rest(len, buffer)[i] == Behind(buffer, len, len + i)
  {
    if 0 < len <= |buffer| { SpanIs(len, |buffer|, 0); }
  }

  lemma WrittenAt(flash: seq<byte>, base: nat, data: seq<byte>, buffer: seq<byte>, area: nat, r: seq<byte>, a: nat)
    requires |buffer| > 0 && area == Span(|data|, |buffer|) && base + area <= |flash| && a < |flash|
    requires r == Written(flash, base, data, buffer)
    ensures r[a] == if base <= a < base + |data| then data[a - base]
                    else if base + |data| <= a < base + area then Behind(buffer, |data|, a - base)
                    else flash[a]
  {
    var part := data + Rest(|data|, buffer);
    SpliceAt(flash, base, part, a);
    if base + |data| <= a < base + area { RestAt(|data|, buffer, a - base - |data|); }
  }

  /** A complete download: every addressed word holds the streamed bytes, and no byte outside the
      pages of the range changes. */
  lemma DownloadedBytes(dev: Device, m: Machine, r: Request, first: nat, last: nat, base: nat, len: nat, pages: nat,
                        n: Machine, a: nat)
    requires FlashDownload(dev, m, r, first, last, base, len, pages) && len <= |r.body| && n == Next(dev, m, r)
    requires a < dev.size
    ensures |n.flash| == dev.size && n.startAddr == n.endAddr == last
    ensures n.flash[a] == if base <= a < base + len then r.body[a - base]
                          else if base + len <= a < base + pages * dev.page then Behind(m.buffer, len, a - base)
                          else m.flash[a]
  {
    DownloadFits(dev, m, r, first, last, base, len, pages);
    ProgramsFlash(dev, m, r, base, len / 2, n);
    WrittenAt(m.flash, base, r.body[..len], m.buffer, pages * dev.page, n.flash, a);
  }

  /** A download that breaks off after t bytes of whole words: `done` of them, whole pages, are in
      flash with a blank page behind them, and the rest is in the page buffer. */
  lemma BrokenBytes(dev: Device, m: Machine, r: Request, first: nat, last: nat, base: nat, len: nat, pages: nat,
                    t: nat, done: nat, n: Machine)
    requires FlashDownload(dev, m, r, first, last, base, len, pages) && |r.body| < len && n == Next(dev, m, r)
    requires t % 2 == 0 && t <= |r.body| < t + 2 && done % dev.page == 0 && done <= t < done + dev.page
    ensures |n.flash| == dev.size && |n.buffer| == dev.page
    ensures forall a :: 0 <= a < dev.size ==>
      n.flash[a] == if base <= a < base + done then r.body[a - base]
                    else if base + done <= a < base + done + dev.page then 0xFF
                    else m.flash[a]
    ensures forall i :: 0 <= i < dev.page ==>
      n.buffer[i] == if i < t - done then r.body[done + i] else if done == 0 then m.buffer[i] else 0xFF
  {
    DownloadFits(dev, m, r, first, last, base, len, pages);
    ProgramsFlash(dev, m, r, base, len / 2, n);
    BrokenAre(m.flash, m.buffer, base, r.body, t, done, n.flash, n.buffer);
  }

  lemma BrokenAre(flash: seq<byte>, buffer: seq<byte>, base: nat, body: seq<byte>, t: nat, done: nat,
                  flash': seq<byte>, buffer': seq<byte>)
    requires |buffer| > 0 && BrokenOff(flash, buffer, base, body, flash', buffer')
    requires t % 2 == 0 && t <= |body| < t + 2 && done % |buffer| == 0 && done <= t < done + |buffer|
    ensures |flash'| == |flash| && |buffer'| == |buffer|
    ensures forall a :: 0 <= a < |flash| ==>
      flash'[a] == if base <= a < base + done then body[a - base]
                   else if base + done <= a < base + done + |buffer| then 0xFF
                   else flash[a]
    ensures forall i :: 0 <= i < |buffer| ==>
      buffer'[i] == if i < t - done then body[done + i] else if done == 0 then buffer[i] else 0xFF
  {
    BrokenSizes(body, |buffer|, t, done);
    BrokenFlash(flash, base, body[..done], |buffer|, flash');
    BrokenBuffer(body[done..t], if done == 0 then buffer else Blanks(|buffer|), buffer');
  }

  lemma BrokenSizes(body: seq<byte>, page: nat, t: nat, done: nat)
    requires page > 0 && t % 2 == 0 && t <= |body| < t + 2 && done % page == 0 && done <= t < done + page
    ensures Taken(body) == t && Committed(body, page) == done
  {
    AlignedIs(done, page);
    EvenPart(|body|, t);
    FullPagesIs(t, page, done);
  }

  lemma BrokenFlash(flash: seq<byte>, base: nat, part: seq<byte>, page: nat, flash': seq<byte>)
    requires base + |part| + page <= |flash| && flash' == Splice(flash, base, part + Blanks(page))
    ensures |flash'| == |flash|
    ensures forall a :: 0 <= a < |flash| ==>
      flash'[a] == if base <= a < base + |part| then part[a - base]
                   else if base + |part| <= a < base + |part| + page then 0xFF
                   else flash[a]
  {}

  lemma BrokenBuffer(part: seq<byte>, under: seq<byte>, buffer': seq<byte>)
    requires |part| <= |under| && buffer' == Over(part, under)
    ensures |buffer'| == |under|
    ensures forall i :: 0 <= i < |under| ==> buffer'[i] == if i < |part| then part[i] else under[i]
  {}

  /** A DNLOAD with command 3 for memory 0 and then an UPLOAD: the flash bytes of the range, in
      whole words. */
  lemma UploadedBytes(dev: Device, m: Machine, length: nat, packet: seq<byte>, first: nat, last: nat, base: nat,
                      len: nat, s: Machine)
    requires Open(dev, m) && FullPacket(length, packet, 0x03, 0x00) && Addresses(packet, first, last)
    requires Range(first, last) && WholeWords(first, last, len)
    requires base == first + 0x1_0000 * m.flash64 && base + len <= dev.size
    requires s == Next(dev, m, Dnload(length, packet, []))
    ensures Open(dev, s) && s.flash == m.flash && s.eeprom == m.eeprom
    ensures Reply(dev, s, Upload) == m.flash[base..base + len]
    ensures Reply(dev, Next(dev, s, Upload), GetState) == [2] && Next(dev, s, Upload).flash == m.flash
    ensures Next(dev, s, Upload).startAddr == last
  {
    Shows(dev, m, length, packet, [], 0, s);
    SelectsRange(packet, first, last, m.flash64, base, len);
    FlashWordsAre(m.flash, base, len / 2);
    UploadEnds(dev, s);
  }

  lemma SelectsRange(packet: seq<byte>, first: nat, last: nat, flash64: nat, base: nat, len: nat)
    requires |packet| >= 6 && Addresses(packet, first, last) && Range(first, last) && WholeWords(first, last, len)
    requires base == first + 0x1_0000 * flash64
    ensures AddrAt(packet, 2) == first && AddrAt(packet, 4) == last
    ensures base == AddrAt(packet, 2) + 0x1_0000 * flash64 && ByteCount(first, last) / 2 == len / 2
  {
    assert Spans(first, last, last - first + 1);
    SelectsAre(packet, flash64, base, len / 2);
    AddressesAre(packet, first, last);
  }

  lemma UploadEnds(dev: Device, s: Machine)
    requires Sane(dev, s) && s.state == UploadIdle && s.data[0] == 0x00
    ensures Reply(dev, Next(dev, s, Upload), GetState) == [2]
    ensures Next(dev, s, Upload) == s.(state := Idle, startAddr := s.endAddr)
  {}

  // ------------------------------------------------------------------- EEPROM

  /** A DNLOAD with command 1 for memory 1: the addressed EEPROM bytes are the streamed ones, as
      far as the stream goes. */
  lemma DownloadedEeprom(dev: Device, m: Machine, length: nat, packet: seq<byte>, body: seq<byte>,
                         first: nat, last: nat, k: nat, n: Machine)
    requires Open(dev, m) && FullPacket(length, packet, 0x01, 0x01) && length > 6
    requires Addresses(packet, first, last) && Range(first, last) && k == Min(last - first + 1, |body|)
    requires first + k <= |m.eeprom| && n == Next(dev, m, Dnload(length, packet, body))
    ensures Open(dev, n) && |n.eeprom| == |m.eeprom| && n.flash == m.flash && n.startAddr == (first + k) % 0x1_0000
    ensures forall a :: 0 <= a < |m.eeprom| ==>
      n.eeprom[a] == if first <= a < first + k then body[a - first] else m.eeprom[a]
  {
    assert Spans(first, last, last - first + 1);
    ProgramsEeprom(dev, m, length, packet, body, first, last, last - first + 1, k, n);
  }

  /** A DNLOAD with command 3 for memory 2 and then an UPLOAD: the EEPROM bytes of the range. */
  lemma UploadedEeprom(dev: Device, m: Machine, length: nat, packet: seq<byte>, first: nat, last: nat, s: Machine)
    requires Open(dev, m) && FullPacket(length, packet, 0x03, 0x02) && Addresses(packet, first, last)
    requires Range(first, last) && last < |m.eeprom| && s == Next(dev, m, Dnload(length, packet, []))
    ensures Open(dev, s) && s.flash == m.flash && s.eeprom == m.eeprom
    ensures Reply(dev, s, Upload) == m.eeprom[first..last + 1]
    ensures Reply(dev, Next(dev, s, Upload), GetState) == [2]
    ensures Next(dev, s, Upload).startAddr == (last + 1) % 0x1_0000
  {
    Shows(dev, m, length, packet, [], 2, s);
    AddressesAre(packet, first, last);
    SpansAre(first, last, last - first + 1);
    EepromBytesAre(m.eeprom, first, last - first + 1);
  }

  // ------------------------------------------------------------- other requests

  /** GETSTATUS and GETSTATE in numbers, as the DFU specification assigns them. */
  lemma StatusBytes(dev: Device, m: Machine, status: byte, state: byte)
    requires Sane(dev, m)
    requires status == (if m.status == Ok then 0 else if m.status == ErrWrite then 3 else 5)
    requires state == (if m.state == Idle then 2 else if m.state == DnloadIdle then 5
                       else if m.state == UploadIdle then 9 else 10)
    ensures Reply(dev, m, GetStatus) == [status, 0, 0, 0, state, 0] && Reply(dev, m, GetState) == [state]
    ensures Next(dev, m, GetStatus) == m && Next(dev, m, GetState) == m
  {}

  /** After CLRSTATUS the status reads 0, after ABORT the state 2, and nothing else has changed. */
  lemma Resets(dev: Device, m: Machine, c: Machine, i: Machine)
    requires Sane(dev, m) && c == Next(dev, m, ClrStatus) && i == Next(dev, m, Abort)
    ensures Reply(dev, c, GetStatus)[0] == 0 && Reply(dev, c, GetState) == Reply(dev, m, GetState)
    ensures Reply(dev, i, GetState) == [2] && Reply(dev, i, GetStatus)[0] == Reply(dev, m, GetStatus)[0]
    ensures c.flash == m.flash && c.eeprom == m.eeprom && i.flash == m.flash && i.eeprom == m.eeprom
  {}

  /** A DNLOAD without data ends a download: the state reads 2. */
  lemma DownloadEnds(dev: Device, m: Machine, n: Machine)
    requires Sane(dev, m) && !m.waiting && m.state == DnloadIdle && n == Next(dev, m, Dnload(0, [], []))
    ensures n == m.(state := n.state, dataSize := 0) && Reply(dev, n, GetState) == [2]
  {}

  /** Command 6 with 3 and 0 selects the 64 KB page. */
  lemma SelectsPage(dev: Device, m: Machine, page: byte, n: Machine)
    requires Open(dev, m) && m.state != DnloadIdle && n == Next(dev, m, Dnload(4, [0x06, 0x03, 0x00, page], []))
    ensures Open(dev, n) && n.flash64 == page && n.flash == m.flash && n.eeprom == m.eeprom && n.state == m.state
  {
    ParamsAre([0x06, 0x03, 0x00, page], m.data);
  }

  /** Command 5 with table and index: an idle device, locked or not, answers the next UPLOAD with the
      table's byte. */
  lemma ReadsInfo(dev: Device, m: Machine, table: byte, index: byte, n: Machine)
    requires Sane(dev, m) && !m.waiting && m.state == Idle && table <= 1
    requires n == Next(dev, m, Dnload(3, [0x05, table, index], []))
    ensures Reply(dev, n, Upload) == [dev.info(table, index)] && n.flash == m.flash && n.eeprom == m.eeprom
    ensures n.state == Idle && n.status == m.status && n.isSecure == m.isSecure
  {
    ParamsAre([0x05, table, index], m.data);
  }

  /** Command 4 with 3 and 1 and further data: where the application will be started. */
  lemma SetsStart(dev: Device, m: Machine, length: nat, packet: seq<byte>, body: seq<byte>, n: Machine)
    requires Open(dev, m) && m.state != DnloadIdle && 6 < length < 0x1_0000 && |packet| >= 6
    requires packet[0] == 0x04 && packet[1] == 0x03 && packet[2] == 0x01
    requires n == Next(dev, m, Dnload(length, packet, body))
    ensures n.appStart == (packet[4] as int) * 256 + packet[5] as int
    ensures n.waiting && n.running == m.running && n.flash == m.flash && n.eeprom == m.eeprom
  {
    LoadsAll(m, length, packet);
  }

  /** Command 4 with 3 and 0 and nothing else: a start through the watchdog. */
  lemma StartsByWatchdog(dev: Device, m: Machine, n: Machine)
    requires Open(dev, m) && m.state != DnloadIdle && n == Next(dev, m, Dnload(3, [0x04, 0x03, 0x00], []))
    ensures n.bootKey == 0xDC42 && n.waiting && n.running == m.running && n.flash == m.flash && n.eeprom == m.eeprom
  {
    ParamsAre([0x04, 0x03, 0x00], m.data);
  }

  /** A secure device refuses every command but 5 and the erase: GETSTATUS then reads 3 and 10. */
  lemma SecureRefuses(dev: Device, m: Machine, length: nat, packet: seq<byte>, body: seq<byte>, n: Machine)
    requires Sane(dev, m) && m.isSecure && !m.waiting && 0 < length < 0x1_0000 && packet != []
    requires packet[0] != 0x05 && !IsErase(m, length, packet) && n == Next(dev, m, Dnload(length, packet, body))
    ensures Reply(dev, n, GetStatus) == [3, 0, 0, 0, 10, 0]
    ensures n.isSecure && !n.waiting && n.flash == m.flash && n.eeprom == m.eeprom && n.flash64 == m.flash64
  {
    ParamsAre(packet, m.data);
  }
}
