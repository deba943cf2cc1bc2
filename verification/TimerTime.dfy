/** The wall clock of timer1_clock.c: a mixed-radix count of milliseconds. */
module TimerTime {
  import opened Bits

  const MS_PER_DAY := 86_400_000

  /** The day counter is 16 bits wide: 65536 days. */
  const LIMIT := 5_662_310_400_000

  datatype WallTime = WallTime(msec: nat, sec: nat, min: nat, hour: nat, day: nat, freerunningSec: nat)

  predicate Normal(w: WallTime) {
    w.msec < 1000 && w.sec < 60 && w.min < 60 && w.hour < 24 && w.day < 0x1_0000
  }

  /** The milliseconds that a time denotes. */
  function Total(w: WallTime): nat {
    w.msec + 1000 * (w.sec + 60 * (w.min + 60 * (w.hour + 24 * w.day)))
  }

  /** The time that denotes n milliseconds. */
  function FromMs(n: nat, freerunningSec: nat): (w: WallTime)
    requires n < LIMIT
    ensures Normal(w)
  {
    WallTime(n % 1000, n / 1000 % 60, n / 60_000 % 60, n / 3_600_000 % 24, n / MS_PER_DAY, freerunningSec)
  }

  /** Both directions: times in normal form and millisecond counts are the same thing. */
  lemma TotalFromMs(n: nat, f: nat)
    requires n < LIMIT
    ensures Total(FromMs(n, f)) == n
  {
    var s := n / 1000;
    var m := s / 60;
    var h := m / 60;
    assert n / 60_000 == m && n / 3_600_000 == h && n / MS_PER_DAY == h / 24;
  }

  lemma FromMsTotal(w: WallTime)
    requires Normal(w)
    ensures Total(w) < LIMIT && FromMs(Total(w), w.freerunningSec) == w
  {
    var h := w.hour + 24 * w.day;
    var m := w.min + 60 * h;
    var s := w.sec + 60 * m;
    var n := w.msec + 1000 * s;
    assert n / 1000 == s && s / 60 == m && m / 60 == h;
    assert n / 60_000 == m && n / 3_600_000 == h && n / MS_PER_DAY == w.day;
  }

  // --------------------------------------------------------------- one tick

  /** 16-bit increment. */
  function Inc16(x: nat): nat {
    if x + 1 == 0x1_0000 then 0 else x + 1
  }

  /** The carry chain of the timer interrupt. */
  function Advance(w: WallTime): (r: WallTime) {
    if w.msec + 1 < 1000 then w.(msec := w.msec + 1)
    else
      var f := Inc16(w.freerunningSec);
      if w.sec + 1 < 60 then w.(msec := 0, freerunningSec := f, sec := w.sec + 1)
      else if w.min + 1 < 60 then w.(msec := 0, freerunningSec := f, sec := 0, min := w.min + 1)
      else if w.hour + 1 < 24 then w.(msec := 0, freerunningSec := f, sec := 0, min := 0, hour := w.hour + 1)
      else WallTime(0, 0, 0, 0, Inc16(w.day), f)
  }

  lemma AdvanceTotal(w: WallTime)
    requires Normal(w)
    ensures Normal(Advance(w))
    ensures Total(Advance(w)) == if Total(w) + 1 == LIMIT then 0 else Total(w) + 1
  {
  }

  function AfterTicks(w: WallTime, n: nat): WallTime {
    if n == 0 then w else Advance(AfterTicks(w, n - 1))
  }

  lemma NextMod(n: nat, m: nat)
    requires m > 0
    ensures (n + 1) % m == if n % m + 1 == m then 0 else n % m + 1
  {
    DivModEq(n, m);
    var q, r := n / m, n % m;
    if r + 1 == m {
      MulSucc(q, m);
      DivModUnique(n + 1, m, q + 1, 0);
    } else {
      DivModUnique(n + 1, m, q, r + 1);
    }
  }

  lemma NextSecond(n: nat)
    ensures (n + 1) / 1000 == n / 1000 + if n % 1000 == 999 then 1 else 0
  {}

  /** The clock shows n ms, up to the wrap of the day counter. */
  ghost predicate ShowsMs(w: WallTime, n: nat) {
    Normal(w) && Total(w) == n % LIMIT
  }

  /** Its free-running counter shows the whole seconds in n ms, up to its own wrap. */
  ghost predicate ShowsSec(w: WallTime, n: nat) {
    w.msec == n % 1000 && w.freerunningSec == n / 1000 % 0x1_0000
  }

  lemma AdvanceMs(w: WallTime, n: nat, w': WallTime)
    requires ShowsMs(w, n) && w' == Advance(w)
    ensures ShowsMs(w', n + 1)
  {
    AdvanceTotal(w);
    NextMod(n, LIMIT);
  }

  lemma AdvanceFreeRunning(w: WallTime, w': WallTime)
    requires w' == Advance(w)
    ensures w'.freerunningSec == if w.msec + 1 < 1000 then w.freerunningSec else Inc16(w.freerunningSec)
    ensures w'.msec == if w.msec + 1 < 1000 then w.msec + 1 else 0
  {}

  lemma AdvanceSec(w: WallTime, n: nat, w': WallTime)
    requires ShowsSec(w, n) && w' == Advance(w)
    ensures ShowsSec(w', n + 1)
  {
    AdvanceFreeRunning(w, w');
    NextSecond(n);
    NextMod(n / 1000, 0x1_0000);
  }

  lemma AfterTick(z: WallTime, n: nat, w: WallTime) returns (w0: WallTime)
    requires n > 0 && w == AfterTicks(z, n)
    ensures w0 == AfterTicks(z, n - 1) && w == Advance(w0)
  {
    w0 := AfterTicks(z, n - 1);
  }

  predicate AtStart(w: WallTime) {
    w == WallTime(0, 0, 0, 0, 0, 0)
  }

  lemma StartMs(w: WallTime)
    requires AtStart(w)
    ensures Normal(w) && Total(w) == 0
  {}

  /** After n ticks from the start the clock shows n ms. */
  lemma {:induction false} ClockAfterTicks(z: WallTime, n: nat, w: WallTime)
    requires AtStart(z) && w == AfterTicks(z, n)
    ensures ShowsMs(w, n)
  {
    if n == 0 {
      StartMs(w);
    } else {
      var w0 := AfterTick(z, n, w);
      ClockAfterTicks(z, n - 1, w0);
      AdvanceMs(w0, n - 1, w);
    }
  }

  /** And its free-running counter shows n / 1000 s. */
  lemma {:induction false} SecondsAfterTicks(z: WallTime, n: nat, w: WallTime)
    requires AtStart(z) && w == AfterTicks(z, n)
    ensures ShowsSec(w, n)
  {
    if n > 0 {
      var w0 := AfterTick(z, n, w);
      SecondsAfterTicks(z, n - 1, w0);
      AdvanceSec(w0, n - 1, w);
    }
  }

  /** So every field is what it should be, in plain numbers, also beyond the wrap. */
  lemma FieldsAfterTicks(z: WallTime, n: nat, w: WallTime)
    requires AtStart(z) && w == AfterTicks(z, n)
    ensures w.msec == n % 1000 && w.sec == n / 1000 % 60 && w.min == n / 60_000 % 60
    ensures w.hour == n / 3_600_000 % 24 && w.day == n / 86_400_000 % 0x1_0000
    ensures w.freerunningSec == n / 1000 % 0x1_0000
  {
    ClockAfterTicks(z, n, w);
    SecondsAfterTicks(z, n, w);
    FromMsTotal(w);
    FieldsAre(n, n / LIMIT, n % LIMIT);
  }

  lemma FieldsAre(n: nat, k: nat, r: nat)
    requires n == LIMIT * k + r && r < LIMIT
    ensures r / 1000 % 60 == n / 1000 % 60 && r / 60_000 % 60 == n / 60_000 % 60
    ensures r / 3_600_000 % 24 == n / 3_600_000 % 24 && r / 86_400_000 == n / 86_400_000 % 0x1_0000
  {
    DivModUnique(n, 1000, 5_662_310_400 * k + r / 1000, r % 1000);
    DivModUnique(n, 60_000, 94_371_840 * k + r / 60_000, r % 60_000);
    DivModUnique(n, 3_600_000, 1_572_864 * k + r / 3_600_000, r % 3_600_000);
    DivModUnique(n, 86_400_000, 65_536 * k + r / 86_400_000, r % 86_400_000);
    SameMod(r / 1000, 60, 94_371_840 * k);
    SameMod(r / 60_000, 60, 1_572_864 * k);
    SameMod(r / 3_600_000, 24, 65_536 * k);
    SameMod(r / 86_400_000, 0x1_0000, k);
  }

  lemma SameMod(x: nat, m: nat, q: nat)
    requires m > 0
    ensures (x + m * q) % m == x % m
  {
    DivModEq(x, m);
    DivModUnique(x + m * q, m, x / m + q, x % m);
  }

  // ---------------------------------------------------------- the due test

  /** timer1_clock_check compares field by field. */
  predicate Due(now: WallTime, t: WallTime) {
    || now.day > t.day
    || (now.day == t.day && now.hour > t.hour)
    || (now.day == t.day && now.hour == t.hour && now.min > t.min)
    || (now.day == t.day && now.hour == t.hour && now.min == t.min && now.sec > t.sec)
    || (now.day == t.day && now.hour == t.hour && now.min == t.min && now.sec == t.sec && now.msec >= t.msec)
  }

  lemma DueIsNumeric(now: WallTime, t: WallTime)
    requires Normal(now) && Normal(t)
    ensures Due(now, t) <==> Total(now) >= Total(t)
  {
    var h, h' := now.hour + 24 * now.day, t.hour + 24 * t.day;
    var m, m' := now.min + 60 * h, t.min + 60 * h';
    var s, s' := now.sec + 60 * m, t.sec + 60 * m';
    assert h > h' <==> now.day > t.day || (now.day == t.day && now.hour > t.hour);
    assert m > m' <==> h > h' || (h == h' && now.min > t.min);
    assert s > s' <==> m > m' || (m == m' && now.sec > t.sec);
  }

  // --------------------------------------------------------------- deadlines

  /** The delay that register_callback adds: sec is 16 bits wide, so a carry out of the
      milliseconds loses 65536 seconds when sec is already 65535. */
  function EffectiveDelay(now: nat, sec: nat, msec: nat): int {
    1000 * sec + msec - if sec == 0xFFFF && now % 1000 + msec >= 1000 then 65_536_000 else 0
  }

  /** The deadline, up to the wrap of the day counter. */
  function Deadline(now: nat, sec: nat, msec: nat): (t: nat)
    ensures t < LIMIT
  {
    (now + EffectiveDelay(now, sec, msec)) % LIMIT
  }

  /** Delays for which no carry can be lost, whatever the time of registration. */
  predicate ExactDelay(sec: nat, msec: nat) {
    sec < 0xFFFF || msec == 0
  }

  /** 65535 s and 999 ms. */
  const MAX_DELAY := 65_535_999

  /** The deadline is the time of registration plus the delay at every time exactly
      when ExactDelay holds. */
  lemma DeadlineExact(sec: nat, msec: nat)
    requires sec <= 0xFFFF && msec <= 999
    ensures (forall now: nat :: now + 65_535_999 < 65_536 * 86_400_000 ==>
               Deadline(now, sec, msec) == now + 1000 * sec + msec)
            <==> ExactDelay(sec, msec)
  {
    if ExactDelay(sec, msec) {
      forall now: nat | now + MAX_DELAY < LIMIT ensures Deadline(now, sec, msec) == now + 1000 * sec + msec {
        assert now % 1000 < 1000;
      }
    } else {
      assert Deadline(999, sec, msec) == msec - 1;
    }
  }

  /** The carry chain of register_callback. */
  function CarryChain(w: WallTime, sec0: nat, msec: nat): (t: WallTime)
    requires Normal(w) && sec0 <= 0xFFFF && msec <= 999
  {
    var ms := w.msec + msec;
    var sec := if ms >= 1000 then Inc16(sec0) else sec0;
    var s := w.sec + sec % 60;
    var m := w.min + sec / 60 % 60 + if s >= 60 then 1 else 0;
    var h := w.hour + sec / 60 / 60 + if m >= 60 then 1 else 0;
    WallTime(
      if ms >= 1000 then ms - 1000 else ms,
      if s >= 60 then s - 60 else s,
      if m >= 60 then m - 60 else m,
      if h >= 24 then h - 24 else h,
      if h >= 24 then Inc16(w.day) else w.day,
      sec0)
  }

  /** It computes the normal form of the deadline. */
  lemma CarryChainIsDeadline(w: WallTime, sec: nat, msec: nat)
    requires Normal(w) && sec <= 0xFFFF && msec <= 999
    ensures CarryChain(w, sec, msec) == FromMs(Deadline(Total(w), sec, msec), sec)
  {
    var t := CarryChain(w, sec, msec);
    CarryChainTotal(w, sec, msec, t);
    FromMsTotal(t);
  }

  /** The sum of all fields, carries taken out of one and put into the next. */
  lemma CarryIdentity(w: WallTime, t: WallTime, msec: nat, sec: nat, c1: int, c2: int, c3: int, c4: int, c5: int)
    requires t.msec == w.msec + msec - 1000 * c1
    requires t.sec == w.sec + sec % 60 - 60 * c2
    requires t.min == w.min + sec / 60 % 60 + c2 - 60 * c3
    requires t.hour == w.hour + sec / 60 / 60 + c3 - 24 * c4
    requires t.day == w.day + c4 - 0x1_0000 * c5
    ensures Total(t) == Total(w) + msec + 1000 * (sec - c1) - LIMIT * c5
  {
    var q := sec / 60;
    assert sec == 60 * q + sec % 60;
    assert q == 60 * (q / 60) + q % 60;
  }

  /** The carries, as numbers: c0 is the one that sec loses. */
  lemma Carries(w: WallTime, sec0: nat, msec: nat, t: WallTime)
      returns (sec: nat, c0: int, c1: int, c2: int, c3: int, c4: int, c5: int)
    requires Normal(w) && sec0 <= 0xFFFF && msec <= 999 && t == CarryChain(w, sec0, msec)
    ensures Normal(t)
    ensures c1 == (if w.msec + msec >= 1000 then 1 else 0)
    ensures c0 == (if sec0 == 0xFFFF && c1 == 1 then 1 else 0) && sec == sec0 + c1 - 0x1_0000 * c0
    ensures t.msec == w.msec + msec - 1000 * c1
    ensures t.sec == w.sec + sec % 60 - 60 * c2
    ensures t.min == w.min + sec / 60 % 60 + c2 - 60 * c3
    ensures t.hour == w.hour + sec / 60 / 60 + c3 - 24 * c4
    ensures t.day == w.day + c4 - 0x1_0000 * c5
  {
    c1 := if w.msec + msec >= 1000 then 1 else 0;
    c0 := if sec0 == 0xFFFF && c1 == 1 then 1 else 0;
    sec := sec0 + c1 - 0x1_0000 * c0;
    c2 := if w.sec + sec % 60 >= 60 then 1 else 0;
    c3 := if w.min + sec / 60 % 60 + c2 >= 60 then 1 else 0;
    c4 := if w.hour + sec / 60 / 60 + c3 >= 24 then 1 else 0;
    c5 := if w.day + c4 == 0x1_0000 then 1 else 0;
    assert sec / 60 / 60 <= 18;
  }

  lemma CarryChainTotal(w: WallTime, sec0: nat, msec: nat, t: WallTime)
    requires Normal(w) && sec0 <= 0xFFFF && msec <= 999 && t == CarryChain(w, sec0, msec)
    ensures Normal(t) && Total(t) == Deadline(Total(w), sec0, msec)
  {
    var sec, c0, c1, c2, c3, c4, c5 := Carries(w, sec0, msec, t);
    CarryIdentity(w, t, msec, sec, c1, c2, c3, c4, c5);
    FromMsTotal(t);
    MsecIs(w);
    DeadlineIs(Total(w), sec0, msec, Total(t), c5);
  }

  lemma MsecIs(w: WallTime)
    requires Normal(w)
    ensures Total(w) % 1000 == w.msec
  {
    DivModUnique(Total(w), 1000, w.sec + 60 * (w.min + 60 * (w.hour + 24 * w.day)), w.msec);
  }

  lemma DeadlineIs(now: nat, sec: nat, msec: nat, t: nat, c: int)
    requires t < LIMIT && t == now + EffectiveDelay(now, sec, msec) - LIMIT * c
    ensures Deadline(now, sec, msec) == t
  {
    DivModUnique(now + EffectiveDelay(now, sec, msec), LIMIT, c, t);
  }
}
