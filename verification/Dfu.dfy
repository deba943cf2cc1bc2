/** The bootloader as the code has it: static variables that its functions and loops update.
    Each method is proved against the state machine on values. */
module Dfu {
  import opened Bits
  import opened FlashModel
  import opened DfuModel
  import opened DfuSecure
  import opened DfuExit

  class Bootloader {
    const dev: Device
    var flash: seq<byte>
    var buffer: seq<byte>
    var eeprom: seq<byte>
    var isSecure: bool
    var running: bool
    var waiting: bool
    var state: State
    var status: Status
    var command: byte
    var data: seq<byte>
    var dataSize: nat
    var responseByte: byte
    var appStart: nat
    var bootKey: nat
    var flash64: nat
    var startAddr: nat
    var endAddr: nat

    ghost function View(): Machine
      reads this
    {
      Machine(flash, buffer, eeprom, isSecure, running, waiting, state, status, command, data, dataSize, responseByte,
              appStart, bootKey, flash64, startAddr, endAddr)
    }

    ghost predicate Valid()
      reads this
    {
      Sane(dev, View())
    }

    ghost predicate MemoryOk()
      reads `flash, `buffer
    {
      |flash| == dev.size && |buffer| == dev.page
    }

    /** Power-up state; secure is the build's SECURE_MODE. */
    constructor (dev: Device, flash: seq<byte>, eeprom: seq<byte>, secure: bool)
      requires DeviceOk(dev) && |flash| == dev.size && 0 < |eeprom| <= 0x1_0000
      ensures Valid() && this.dev == dev && this.flash == flash && this.eeprom == eeprom
      ensures Orderly(dev, View()) && running && !waiting && buffer == Blanks(dev.page)
      ensures if secure then Locked(dev, View()) else !isSecure
    {
      this.dev, this.flash, this.eeprom, isSecure := dev, flash, eeprom, secure;
      buffer := Blanks(dev.page);
      running, waiting, state, status := true, false, Idle, Ok;
      command, data, dataSize, responseByte := 0, [0, 0, 0, 0, 0], 0, 0;
      appStart, bootKey, flash64, startAddr, endAddr := 0, 0, 0, 0, 0;
    }

    // Flash primitives.

    method PageErase(a: nat)
      requires DeviceOk(dev) && MemoryOk()
      modifies `flash
      ensures MemoryOk() && flash == Erase(old(flash), dev.select(a), dev.page)
    {
      var p := dev.select(a);
      flash := flash[..p] + Blanks(dev.page) + flash[p + dev.page..];
    }

    method PageFill(a: nat, lo: byte, hi: byte)
      requires DeviceOk(dev) && MemoryOk()
      modifies `buffer
      ensures MemoryOk() && buffer == Fill(old(buffer), dev.slot(a), lo, hi)
    {
      var o := dev.slot(a);
      buffer := buffer[o := lo];
      buffer := buffer[o + 1 := hi];
    }

    method PageWrite(a: nat)
      requires DeviceOk(dev) && MemoryOk()
      modifies `flash, `buffer
      ensures MemoryOk() && buffer == Blanks(dev.page) && flash == Commit(old(flash), dev.select(a), old(buffer))
    {
      var p := dev.select(a);
      flash := flash[..p] + buffer + flash[p + dev.page..];
      buffer := Blanks(dev.page);
    }

    // Data stage of DNLOAD.

    /** One word of the programming loop; `more` says that words remain after it. */
    method ProgramWord(pageStart: nat, cur: nat, inPage: nat, more: bool, lo: byte, hi: byte, ghost p: Prog)
      returns (nextStart: nat, nextIn: nat, ghost q: Prog)
      requires DeviceOk(dev) && MemoryOk() && p == Prog(flash, buffer, pageStart, cur, inPage)
      modifies `flash, `buffer
      ensures MemoryOk() && q == Prog(flash, buffer, nextStart, cur + 2, nextIn)
      ensures q == WordStep(dev, p, more, lo, hi)
    {
      PageFill(cur, lo, hi);
      nextStart, nextIn := pageStart, inPage + 1;
      if nextIn == dev.page / 2 || !more {
        PageWrite(pageStart);
        if more {
          nextStart, nextIn := cur + 2, 0;
          PageErase(cur + 2);
        }
      }
      q := Prog(flash, buffer, nextStart, cur + 2, nextIn);
      StepIs(dev, p, dev.select(pageStart), dev.slot(cur), dev.select(cur + 2), inPage + 1 == dev.page / 2, more,
             lo, hi, q);
    }

    /** The word at index at of the stream, word j of the loop. */
    method ProgramNext(pageStart: nat, cur: nat, inPage: nat, more: bool, body: seq<byte>, at: nat,
                       ghost start: Prog, ghost n: nat, ghost j: nat, ghost p: Prog)
      returns (nextStart: nat, nextIn: nat, ghost q: Prog)
      requires DeviceOk(dev) && MemoryOk() && p == Prog(flash, buffer, pageStart, cur, inPage) && ProgOk(dev, start)
      requires 0 < 2 * j == at + 2 <= |body| && more == (j < n) && p == WordLoop(dev, start, n, body, j - 1)
      modifies `flash, `buffer
      ensures MemoryOk() && q == Prog(flash, buffer, nextStart, cur + 2, nextIn)
      ensures q == WordLoop(dev, start, n, body, j)
    {
      var lo, hi := body[at], body[at + 1];
      nextStart, nextIn, q := ProgramWord(pageStart, cur, inPage, more, lo, hi, p);
      LoopMore(dev, start, n, body, j, p, more, lo, hi, q);
    }

    /** The programming loop. */
    method ProgramWords(base: nat, words: nat, body: seq<byte>, ghost start: Prog)
      returns (finished: bool, ghost k: nat, ghost p: Prog)
      requires DeviceOk(dev) && MemoryOk() && start == Prog(flash, buffer, base, base, 0)
      modifies `flash, `buffer
      ensures MemoryOk() && finished == (2 * words <= |body|) && flash == p.flash && buffer == p.buffer
      ensures k == Min(words, |body| / 2) && p == WordLoop(dev, start, words, body, k)
    {
      k, p := 0, start;
      var remaining, cur, pageStart: nat, inPage: nat, at := words, base, base, 0, 0;
      while remaining != 0
        invariant MemoryOk() && 0 <= remaining && remaining + k == words && at == 2 * k <= |body| && cur == base + at
        invariant p == Prog(flash, buffer, pageStart, cur, inPage) && p == WordLoop(dev, start, words, body, k)
      {
        if |body| - at < 2 {
          return false, k, p;
        }
        remaining, k := remaining - 1, k + 1;
        pageStart, inPage, p := ProgramNext(pageStart, cur, inPage, remaining != 0, body, at, start, words, k, p);
        cur, at := cur + 2, at + 2;
      }
      return true, k, p;
    }

    method ProgramFlash(body: seq<byte>)
      requires Valid()
      modifies `flash, `buffer, `startAddr
      ensures Valid() && View() == FlashData(dev, old(View()), body)
    {
      var finished, base, words := false, startAddr + 0x1_0000 * flash64, ByteCount(startAddr, endAddr) / 2;
      ghost var before, start, k, p := View(), ProgStart(View()), 0, ProgStart(View());
      finished, k, p := ProgramWords(base, words, body, start);
      FlashDataIs(dev, before, body, words, k, start, p);
      if finished {
        startAddr := endAddr;
        buffer := Blanks(dev.page);    // re-enabling the RWW section empties the page buffer
      }
    }

    method ProgramEeprom(body: seq<byte>)
      requires Valid()
      modifies `eeprom, `buffer, `startAddr
      ensures Valid() && View() == EepromData(dev, old(View()), body)
    {
      var remaining := ByteCount(startAddr, endAddr);
      ghost var n, first, before := remaining, startAddr, eeprom;
      var at := 0;
      while remaining != 0 && at < |body|
        invariant Valid() && 0 <= remaining && 0 <= at <= |body| && at + remaining == n
        invariant startAddr == Plus16(first, at) && eeprom == ByteLoop(before, first, body, at)
        invariant buffer == if at == 0 then old(buffer) else Blanks(dev.page)
      {
        eeprom := eeprom[Wrap(startAddr, |eeprom|) := body[at]];
        buffer := Blanks(dev.page);
        remaining, at := remaining - 1, at + 1;
        startAddr := Plus16(startAddr, 1);
      }
    }

    // Commands.

    method LoadStartEndAddresses()
      requires Valid()
      modifies `startAddr, `endAddr
      ensures Valid() && View() == LoadAddresses(old(View()))
    {
      startAddr := (data[1] as int) * 256 + data[2] as int;
      endAddr := (data[3] as int) * 256 + data[4] as int;
    }

    method ProcessMemProg()
      requires Valid()
      modifies `startAddr, `endAddr, `flash, `state
      ensures Valid() && View() == Prepare(dev, old(View()))
    {
      if data[0] == 0x00 || data[0] == 0x01 {
        LoadStartEndAddresses();
        if data[0] == 0x00 {
          PageErase(startAddr + 0x1_0000 * flash64);
        }
        state := DnloadIdle;
      }
    }

    method CheckBlank()
      requires Valid()
      modifies `flash64, `startAddr, `state, `status
      ensures Valid() && View() == BlankCheck(dev, old(View()))
    {
      var a := 0;
      while a < dev.bootStart
        invariant 0 <= a <= dev.bootStart && forall i :: 0 <= i < a ==> flash[i] == BLANK
      {
        if flash[a] != BLANK {
          flash64, startAddr := a / 0x1_0000 % 256, a % 0x1_0000;
          state, status := Error, ErrCheckErased;
          return;
        }
        a := a + 1;
      }
    }

    method ProcessMemRead()
      requires Valid()
      modifies `startAddr, `endAddr, `flash64, `state, `status
      ensures Valid() && View() == Display(dev, old(View()))
    {
      if data[0] == 0x00 || data[0] == 0x02 {
        LoadStartEndAddresses();
        state := UploadIdle;
      } else if data[0] == 0x01 {
        CheckBlank();
      }
    }

    method ClearPage(a: nat)
      requires DeviceOk(dev) && MemoryOk()
      modifies `flash, `buffer
      ensures MemoryOk() && buffer == Blanks(dev.page)
      ensures flash == Commit(Erase(old(flash), dev.select(a), dev.page), dev.select(a), old(buffer))
    {
      PageErase(a);
      PageWrite(a);
    }

    /** The page at a of the application section, after those below it. */
    method ClearNext(a: nat, ghost flash0: seq<byte>, ghost buffer0: seq<byte>)
      requires DeviceOk(dev) && MemoryOk() && a < dev.bootStart && Aligned(a, dev.page) && (a == 0 || dev.page <= a)
      requires |flash0| == dev.size && |buffer0| == dev.page && flash == Cleared(flash0, buffer0, a)
      requires buffer == if a == 0 then buffer0 else Blanks(dev.page)
      modifies `flash, `buffer
      ensures MemoryOk() && a + dev.page <= dev.bootStart && Aligned(a + dev.page, dev.page)
      ensures flash == Cleared(flash0, buffer0, a + dev.page) && buffer == Blanks(dev.page)
    {
      ClearedStep(flash0, buffer0, a, dev.bootStart, flash, buffer);
      assert Decodes(dev, a);
      ClearPage(a);
    }

    /** The loop over the pages of the application section. */
    method ClearPages()
      requires DeviceOk(dev) && MemoryOk()
      modifies `flash, `buffer
      ensures MemoryOk() && flash == Cleared(old(flash), old(buffer), dev.bootStart)
    {
      ghost var flash0, buffer0 := flash, buffer;
      var a := 0;
      while a < dev.bootStart
        invariant MemoryOk() && 0 <= a <= dev.bootStart && Aligned(a, dev.page) && (a == 0 || dev.page <= a)
        invariant flash == Cleared(flash0, buffer0, a)
        invariant buffer == if a == 0 then buffer0 else Blanks(dev.page)
      {
        ClearNext(a, flash0, buffer0);
        a := a + dev.page;
      }
    }

    /** Clears the application section and leaves secure mode. */
    method EraseApplication()
      requires Valid()
      modifies `flash, `buffer, `isSecure
      ensures Valid() && !isSecure && buffer == Blanks(dev.page)
      ensures flash == Cleared(old(flash), old(buffer), dev.bootStart)
    {
      ClearPages();
      buffer := Blanks(dev.page);
      isSecure := false;
    }

    method StartApp()
      requires Valid()
      modifies `waiting, `appStart, `bootKey, `running
      ensures Valid() && View() == StartApplication(old(View()))
    {
      waiting := true;
      if dataSize != 0 {
        if data[1] == 0x01 {
          appStart := (data[3] as int) * 256 + data[4] as int;
        }
      } else if data[1] == 0x00 {
        bootKey := MAGIC_BOOT_KEY;
      } else {
        running := false;
      }
    }

    method ProcessWrite()
      requires Valid()
      modifies `waiting, `appStart, `bootKey, `running, `flash, `buffer, `isSecure
      ensures Valid() && View() == Order(dev, old(View()))
    {
      if data[0] == 0x03 {
        StartApp();
      } else if data[0] == 0x00 && data[1] == 0xFF {
        EraseApplication();
      }
    }

    method ProcessRead()
      requires Valid()
      modifies `responseByte
      ensures Valid() && responseByte == if data[0] <= 0x01 then dev.info(data[0], data[1]) else old(responseByte)
    {
      if data[0] == 0x00 || data[0] == 0x01 {
        responseByte := dev.info(data[0], data[1]);
      }
    }

    /** ProcessBootloaderCommand. */
    method ProcessCommand()
      requires Valid()
      modifies this
      ensures Valid() && View() == Execute(dev, old(View()))
    {
      if isSecure && !((command == WRITE && data[0] == 0x00 && data[1] == 0xFF) || command == READ) {
        state, status := Error, ErrWrite;
        return;
      }
      if command == PROG_START {
        ProcessMemProg();
      } else if command == DISP_DATA {
        ProcessMemRead();
      } else if command == WRITE {
        ProcessWrite();
      } else if command == READ {
        ProcessRead();
      } else if command == CHANGE_BASE_ADDR {
        if data[0] == 0x03 && data[1] == 0x00 {
          flash64 := data[2];
        }
      }
    }

    // Requests.

    /** The loop over the parameter bytes, behind the command byte. */
    method LoadParams(packet: seq<byte>)
      requires packet != [] && |data| == 5 && dataSize < 0x1_0000
      modifies `data, `dataSize
      ensures |data| == 5 && dataSize < 0x1_0000 && data == Params(packet, old(data))
      ensures dataSize == Minus16(old(dataSize), Min(5, |packet| - 1))
    {
      ghost var stale, size := data, dataSize;
      var i := 0;
      while i < 5 && i + 1 < |packet|
        invariant |data| == 5 && 0 <= dataSize < 0x1_0000 && 0 <= i <= 5 && i < |packet|
        invariant data == packet[1..i + 1] + stale[i..] && dataSize == Minus16(size, i)
        decreases 5 - i
      {
        ParamsMore(packet, stale, i);
        data := data[i := packet[i + 1]];
        dataSize := Minus16(dataSize, 1);
        i := i + 1;
      }
    }

    /** Takes the command byte and up to five parameter bytes from the first packet. */
    method LoadCommand(packet: seq<byte>)
      requires Valid() && packet != []
      modifies `command, `data, `dataSize
      ensures Valid() && View() == Load(old(View()), packet)
    {
      command := packet[0];
      dataSize := Minus16(dataSize, 1);
      LoadParams(packet);
    }

    method FinishPending()
      requires Valid()
      modifies this
      ensures Valid() && View() == Pending(dev, old(View()))
    {
      if waiting {
        ProcessCommand();
        waiting := false;
      }
    }

    method ReceiveData(body: seq<byte>)
      requires Valid()
      modifies `flash, `buffer, `startAddr, `eeprom, `state
      ensures Valid() && View() == Received(dev, old(View()), body)
    {
      if state == DnloadIdle {
        if dataSize == 0 {
          state := Idle;
        } else if data[0] == 0x00 {
          ProgramFlash(body);
        } else {
          ProgramEeprom(body);
        }
      }
    }

    method HandleDnload(length: nat, packet: seq<byte>, body: seq<byte>)
      requires Valid() && length < 0x1_0000
      modifies this
      ensures Valid() && View() == AfterDnload(dev, old(View()), length, packet, body)
    {
      dataSize := length;
      FinishPending();
      ghost var pending := View();
      assert pending == Pending(dev, old(View()).(dataSize := length));
      PendingSize(dev, old(View()).(dataSize := length));
      if dataSize != 0 {
        if packet == [] {
          return;
        }
        LoadCommand(packet);
        ProcessCommand();
      }
      assert View() == Commanded(dev, old(View()), length, packet);
      ReceiveData(body);
    }

    method ReadFlash() returns (reply: seq<byte>)
      requires Valid()
      ensures reply == FlashWords(flash, Base(View()), Words(View()))
    {
      var remaining, cur := ByteCount(startAddr, endAddr) / 2, startAddr + 0x1_0000 * flash64;
      ghost var base, n, k: nat := cur, remaining, 0;
      reply := [];
      while remaining != 0
        invariant 0 <= remaining && remaining + k == n && cur == base + 2 * k
        invariant reply == FlashWords(flash, base, k)
      {
        FlashWordsMore(flash, base, k, cur);
        reply := reply + [flash[Wrap(cur, dev.size)], flash[Wrap(cur + 1, dev.size)]];
        remaining, cur, k := remaining - 1, cur + 2, k + 1;
      }
    }

    method ReadEeprom() returns (reply: seq<byte>)
      requires Valid()
      modifies `startAddr
      ensures Valid()
      ensures var n := ByteCount(old(startAddr), endAddr);
              && startAddr == Plus16(old(startAddr), n)
              && reply == EepromBytes(eeprom, old(startAddr), n)
    {
      var remaining := ByteCount(startAddr, endAddr);
      ghost var n, first := remaining, startAddr;
      reply := [];
      while remaining != 0
        invariant Valid() && 0 <= remaining <= n && startAddr == Plus16(first, n - remaining)
        invariant reply == EepromBytes(eeprom, first, n - remaining)
      {
        reply := reply + [eeprom[Wrap(startAddr, |eeprom|)]];
        remaining := remaining - 1;
        startAddr := Plus16(startAddr, 1);
      }
    }

    method HandleUpload() returns (reply: seq<byte>)
      requires Valid()
      modifies `startAddr, `state
      ensures Valid() && View() == AfterUpload(old(View())) && reply == UploadReply(dev, old(View()))
    {
      if state != UploadIdle {
        if state == Error && data[0] == 0x01 {
          reply := [startAddr % 256, startAddr / 256];
        } else {
          reply := [responseByte];
        }
        return;
      }
      reply := [];
      if data[0] == 0x00 {
        reply := ReadFlash();
        startAddr := endAddr;
      } else if data[0] == 0x02 {
        reply := ReadEeprom();
      }
      state := Idle;
    }

    /** EVENT_USB_Device_ControlRequest. */
    method Handle(r: Request) returns (reply: seq<byte>)
      requires Valid() && RequestOk(r)
      modifies this
      ensures Valid() && View() == Next(dev, old(View()), r) && reply == Reply(dev, old(View()), r)
    {
      reply := [];
      match r
      case Dnload(length, packet, body) => HandleDnload(length, packet, body);
      case Upload => reply := HandleUpload();
      case GetStatus => reply := [StatusCode(status), 0, 0, 0, StateCode(state), 0];
      case ClrStatus => status := Ok;
      case GetState => reply := [StateCode(state)];
      case Abort => state := Idle;
      case Other =>
    }

    /** The main loop over the requests of a session: a run of the state machine, request by
        request, until the loop ends. Started locked, it has the story of secure runs. */
    method Session(requests: seq<Request>)
      returns (served: nat, replies: seq<seq<byte>>, ghost history: seq<Machine>)
      requires Valid() && forall i :: 0 <= i < |requests| ==> RequestOk(requests[i])
      modifies this
      ensures Valid() && served <= |requests| && IsRun(dev, history, requests[..served])
      ensures history[0] == old(View()) && history[served] == View()
      ensures forall i :: 0 <= i < served ==> Answered(dev, history, requests, replies, i) && Alive(history[i])
      ensures served < |requests| ==> !Alive(View())
      ensures old(Locked(dev, View())) ==> SecureStory(dev, history, requests[..served])
    {
      served, replies, history := 0, [], [View()];
      while served < |requests| && (running || waiting)
        invariant Valid() && served <= |requests| && |history| == served + 1 && |replies| == served
        invariant history[0] == old(View()) && history[served] == View()
        invariant IsRun(dev, history, requests[..served])
        invariant forall i :: 0 <= i < served ==> Answered(dev, history, requests, replies, i) && Alive(history[i])
      {
        ghost var was, before := history, replies;
        var reply := Handle(requests[served]);
        history := history + [View()];
        replies := replies + [reply];
        RunGrows(dev, was, requests, served, View());
        AnswersGrow(dev, was, requests, before, served, View(), reply);
        served := served + 1;
      }
      if Locked(dev, history[0]) {
        SecureRun(dev, history, requests[..served]);
      }
    }
  }

  lemma FlashWordsMore(flash: seq<byte>, a: nat, k: nat, b: nat)
    requires |flash| > 0 && b == a + 2 * k
    ensures FlashWords(flash, a, k + 1) ==
            FlashWords(flash, a, k) + [flash[Wrap(b, |flash|)], flash[Wrap(b + 1, |flash|)]]
  {}

  lemma FlashDataIs(dev: Device, m: Machine, body: seq<byte>, n: nat, k: nat, start: Prog, p: Prog)
    requires Sane(dev, m) && n == Words(m) && k == Min(n, |body| / 2) && start == ProgStart(m)
    requires p == WordLoop(dev, start, n, body, k)
    ensures FlashData(dev, m, body) ==
            if 2 * n <= |body| then m.(flash := p.flash, buffer := Blanks(dev.page), startAddr := m.endAddr)
            else m.(flash := p.flash, buffer := p.buffer)
  {}

  lemma ParamsMore(packet: seq<byte>, stale: seq<byte>, i: nat)
    requires i + 1 < |packet| && i < |stale|
    ensures (packet[1..i + 1] + stale[i..])[i := packet[i + 1]] == packet[1..i + 2] + stale[i + 1..]
  {}

  lemma PendingSize(dev: Device, m: Machine)
    requires Sane(dev, m)
    ensures Pending(dev, m).dataSize == m.dataSize
  {}

  /** The i-th reply is the machine's. */
  ghost predicate Answered(dev: Device, h: seq<Machine>, rs: seq<Request>, replies: seq<seq<byte>>, i: nat) {
    && i < |h| && i < |rs| && i < |replies| && Sane(dev, h[i]) && RequestOk(rs[i])
    && replies[i] == Reply(dev, h[i], rs[i])
  }

  lemma RunGrows(dev: Device, h: seq<Machine>, rs: seq<Request>, k: nat, m: Machine)
    requires k < |rs| && IsRun(dev, h, rs[..k]) && Sane(dev, h[k]) && RequestOk(rs[k]) && m == Next(dev, h[k], rs[k])
    ensures IsRun(dev, h + [m], rs[..k + 1])
  {
    var h', rs' := h + [m], rs[..k + 1];
    forall i | 0 <= i < k + 1
      ensures Moves(dev, h', rs', i)
    {
      if i < k { assert Moves(dev, h, rs[..k], i); }
    }
  }

  lemma AnswersGrow(dev: Device, h: seq<Machine>, rs: seq<Request>, replies: seq<seq<byte>>, k: nat, m: Machine,
                    reply: seq<byte>)
    requires |h| == k + 1 && |replies| == k < |rs| && Sane(dev, h[k]) && RequestOk(rs[k])
    requires Alive(h[k]) && reply == Reply(dev, h[k], rs[k])
    requires forall i :: 0 <= i < k ==> Answered(dev, h, rs, replies, i) && Alive(h[i])
    ensures forall i :: 0 <= i < k + 1 ==> Answered(dev, h + [m], rs, replies + [reply], i) && Alive((h + [m])[i])
  {
    forall i | 0 <= i < k + 1
      ensures Answered(dev, h + [m], rs, replies + [reply], i) && Alive((h + [m])[i])
    {
      if i < k { assert Answered(dev, h, rs, replies, i); }
    }
  }
}
