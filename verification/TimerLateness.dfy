/** How late a callback can be, given that a tick takes up only one. */
module TimerLateness {
  import opened TimerTime
  import opened TimerSched

  /** A run of ticks with nothing registered or removed in between. */
  ghost predicate TickRun<Id>(run: seq<Sched<Id>>) {
    forall i :: 0 <= i < |run| - 1 ==> Ticks(run, i)
  }

  ghost predicate Ticks<Id>(run: seq<Sched<Id>>, i: nat)
    requires i + 1 < |run|
  {
    run[i + 1] == Tick(run[i])
  }

  /** One tick, with the time and the callback taken up named. */
  lemma OneTick<Id>(s: Sched<Id>, s': Sched<Id>, now: nat, k: nat)
    requires s' == Tick(s) && now == s.now + 1 && Early(now) && k == FirstDue(s.chain, now)
    ensures s'.now == now
    ensures s'.chain == if k < |s.chain| then Take(s.chain, k, now) else s.chain
  {
    TickEarly(s, now, k);
  }

  lemma WhoFires<Id>(s: Sched<Id>, now: nat, k: nat)
    requires now == s.now + 1 && Early(now) && k == FirstDue(s.chain, now)
    ensures Fires(s) == if k < |s.chain| then Some(s.chain[k].id) else None
  {
    TickEarly(s, now, k);
  }

  // ------------------------------------------------------------- counting

  /** Number of callbacks among the first q with a deadline up to t. */
  function Pending<Id>(chain: seq<Timer<Id>>, q: nat, t: nat): (n: nat)
    requires q <= |chain|
    ensures n <= q
  {
    if q == 0 then 0 else Pending(chain, q - 1, t) + if chain[q - 1].due <= t then 1 else 0
  }

  lemma {:induction false} PendingSame<Id>(a: seq<Timer<Id>>, b: seq<Timer<Id>>, q: nat, t: nat)
    requires q <= |a| && q <= |b| && forall i :: 0 <= i < q ==> a[i] == b[i]
    ensures Pending(a, q, t) == Pending(b, q, t)
  {
    if q > 0 { PendingSame(a, b, q - 1, t); }
  }

  lemma {:induction false} PendingUpdate<Id>(chain: seq<Timer<Id>>, q: nat, t: nat, k: nat, x: Timer<Id>)
    requires k < q <= |chain| && chain[k].due <= t
    ensures Pending(chain[k := x], q, t) == Pending(chain, q, t) - if x.due <= t then 0 else 1
  {
    if k == q - 1 {
      PendingSame(chain, chain[k := x], q - 1, t);
    } else {
      PendingUpdate(chain, q - 1, t, k, x);
    }
  }

  lemma {:induction false} PendingRemove<Id>(chain: seq<Timer<Id>>, q: nat, t: nat, k: nat, rest: seq<Timer<Id>>)
    requires k < q <= |chain| && chain[k].due <= t && rest == chain[..k] + chain[k + 1..]
    ensures Pending(rest, q - 1, t) == Pending(chain, q, t) - 1
  {
    if k == q - 1 {
      PendingSame(chain, rest, k, t);
    } else {
      PendingRemove(chain, q - 1, t, k, rest);
    }
  }

  lemma {:induction false} PendingCounts<Id>(chain: seq<Timer<Id>>, q: nat, t: nat, i: nat)
    requires i < q <= |chain|
    ensures chain[i].due <= t ==> Pending(chain, q, t) > 0
    ensures chain[i].due > t ==> Pending(chain, q, t) < q
  {
    if i < q - 1 { PendingCounts(chain, q - 1, t, i); }
  }

  lemma {:induction false} PendingSome<Id>(chain: seq<Timer<Id>>, q: nat, t: nat)
    requires q <= |chain| && Pending(chain, q, t) > 0
    ensures exists i :: 0 <= i < q && chain[i].due <= t
  {
    if chain[q - 1].due > t { PendingSome(chain, q - 1, t); }
  }

  lemma {:induction false} PendingAll<Id>(chain: seq<Timer<Id>>, q: nat, t: nat)
    requires q <= |chain| && forall i :: 0 <= i < q ==> chain[i].due <= t
    ensures Pending(chain, q, t) == q
  {
    if q > 0 { PendingAll(chain, q - 1, t); }
  }

  // ------------------------------------------------------ bounded lateness

  /** Callback c is at position q, and every recurring one before it has a period of at
      least p ms. */
  ghost predicate Guarded<Id>(chain: seq<Timer<Id>>, q: nat, c: Timer<Id>, p: nat) {
    && q < |chain| && chain[q] == c && Distinct(chain)
    && forall i :: 0 <= i < q && chain[i].recurring ==> SlowEnough(chain[i], p)
  }

  predicate SlowEnough<Id>(t: Timer<Id>, p: nat) {
    Period(t) >= p && t.sec <= 0xFFFF && t.msec <= 999 && ExactDelay(t.sec, t.msec)
  }

  /** Taking up another callback keeps c guarded; one before it is pending no more. */
  lemma GuardedTake<Id>(chain: seq<Timer<Id>>, q: nat, c: Timer<Id>, p: nat, k: nat, now: nat, chain': seq<Timer<Id>>)
      returns (q': nat)
    requires Guarded(chain, q, c, p) && k < |chain| && k != q && chain[k].due <= now && Early(now)
    requires chain' == Take(chain, k, now)
    ensures q' <= q && Guarded(chain', q', c, p)
    ensures k < q ==> forall t :: now <= t < now + p ==> Pending(chain', q', t) == Pending(chain, q, t) - 1
  {
    q' := if k < q && !chain[k].recurring then q - 1 else q;
    if k < q {
      if chain[k].recurring {
        DeadlineEarly(now, chain[k].sec, chain[k].msec);
      }
      forall t | now <= t < now + p ensures Pending(chain', q', t) == Pending(chain, q, t) - 1 {
        if chain[k].recurring {
          PendingUpdate(chain, q, t, k, Rearmed(chain[k], now));
        } else {
          PendingRemove(chain, q, t, k, chain');
        }
      }
    }
  }

  /** A tick that does not take up c. */
  lemma GuardedTick<Id>(s: Sched<Id>, s': Sched<Id>, q: nat, c: Timer<Id>, p: nat, now: nat, k: nat) returns (q': nat)
    requires Guarded(s.chain, q, c, p) && s' == Tick(s)
    requires now == s.now + 1 && Early(now) && k == FirstDue(s.chain, now) && k != q
    ensures q' <= q && Guarded(s'.chain, q', c, p) && s'.now == now && Fires(s) != Some(c.id)
    ensures k < q ==> forall t :: now <= t < now + p ==> Pending(s'.chain, q', t) == Pending(s.chain, q, t) - 1
  {
    OneTick(s, s', now, k);
    WhoFires(s, now, k);
    if k < |s.chain| {
      q' := GuardedTake(s.chain, q, c, p, k, now, s'.chain);
    } else {
      q' := q;
    }
  }

  /** Until c is due it stays in the chain. */
  lemma {:induction false} Waits<Id>(run: seq<Sched<Id>>, q: nat, c: Timer<Id>, p: nat, n: nat) returns (q': nat)
    requires TickRun(run) && n < |run| && Guarded(run[0].chain, q, c, p)
    requires run[0].now + n < c.due && Early(run[0].now + n)
    ensures q' <= q && Guarded(run[n].chain, q', c, p) && run[n].now == run[0].now + n
    ensures forall j :: 0 <= j < n ==> Fires(run[j]) != Some(c.id)
  {
    if n == 0 {
      q' := q;
    } else {
      var q1 := Waits(run, q, c, p, n - 1);
      assert Ticks(run, n - 1);
      var now := run[0].now + n;
      q' := GuardedTick(run[n - 1], run[n], q1, c, p, now, FirstDue(run[n - 1].chain, now));
    }
  }

  /** Once c is due, each tick that does not fire it uses up one of the callbacks before
      it that can still be due by t. */
  lemma {:induction false} FiresByT<Id>(run: seq<Sched<Id>>, i: nat, q: nat, c: Timer<Id>, p: nat, t: nat, m: nat)
      returns (n: nat)
    requires TickRun(run) && i + m < |run| && Guarded(run[i].chain, q, c, p) && m == Pending(run[i].chain, q, t)
    requires c.due <= run[i].now + 1 && Early(t) && run[i].now + 1 + m <= t < run[i].now + 1 + p
    ensures i <= n <= i + m && Fires(run[n]) == Some(c.id)
    ensures forall j :: i <= j < n ==> Fires(run[j]) != Some(c.id)
    decreases m
  {
    var s, now := run[i], run[i].now + 1;
    var k := FirstDue(s.chain, now);
    if k == q {
      WhoFires(s, now, k);
      n := i;
    } else {
      PendingCounts(s.chain, q, t, k);
      assert Ticks(run, i);
      var q1 := GuardedTick(s, run[i + 1], q, c, p, now, k);
      n := FiresByT(run, i + 1, q1, c, p, t, m - 1);
    }
  }

  function Max(a: nat, b: nat): nat {
    if a >= b then a else b
  }

  /** If p callbacks come before c and each recurring one among them has a period of at
      least p + 1 ms, then, as long as nothing is registered or removed, c fires at the
      first tick at or after its deadline or at most p ticks later, and not before. */
  lemma BoundedLateness<Id>(run: seq<Sched<Id>>, p: nat, c: Timer<Id>, first: nat) returns (n: nat)
    requires TickRun(run) && run != [] && Guarded(run[0].chain, p, c, p + 1)
    requires first == Max(c.due, run[0].now + 1) && Early(first + p) && first + p - run[0].now <= |run|
    ensures n < |run| && first <= run[0].now + n + 1 <= first + p
    ensures Fires(run[n]) == Some(c.id)
    ensures forall j :: 0 <= j < n ==> Fires(run[j]) != Some(c.id)
  {
    var n0, q := first - 1 - run[0].now, p;
    if n0 > 0 {
      q := Waits(run, p, c, p + 1, n0);
    }
    n := FiresByT(run, n0, q, c, p + 1, first + p, Pending(run[n0].chain, q, first + p));
  }

  // ------------------------------------------------- the bound on periods is exact

  /** The first p callbacks recur, each with a period of at most p ms. */
  ghost predicate Busy<Id>(chain: seq<Timer<Id>>, p: nat) {
    && p <= |chain|
    && forall i :: 0 <= i < p ==> chain[i].recurring && Period(chain[i]) <= p && SlowEnough(chain[i], 0)
  }

  /** And so many of them are due so soon that one is due at every tick. */
  ghost predicate Crowded<Id>(chain: seq<Timer<Id>>, p: nat, now: nat)
    requires p <= |chain|
  {
    forall t :: now < t <= now + p ==> Pending(chain, p, t) >= t - now
  }

  lemma CrowdedIfDue<Id>(chain: seq<Timer<Id>>, p: nat, now: nat)
    requires p <= |chain| && forall i :: 0 <= i < p ==> chain[i].due <= now + 1
    ensures Crowded(chain, p, now)
  {
    forall t | now < t <= now + p ensures Pending(chain, p, t) >= t - now {
      PendingAll(chain, p, t);
    }
  }

  lemma CrowdedTake<Id>(
      chain: seq<Timer<Id>>, chain': seq<Timer<Id>>, p: nat, was: nat, now: nat, k: nat, x: Timer<Id>)
    requires p <= |chain| && Crowded(chain, p, was) && now == was + 1 && k < p && chain[k].due <= now
    requires x.due <= now + p && chain' == chain[k := x]
    ensures Crowded(chain', p, now)
  {
    forall t | now < t <= now + p ensures Pending(chain', p, t) >= t - now {
      if t < now + p {
        assert Pending(chain, p, t) >= t - was;
        PendingUpdate(chain, p, t, k, x);
      } else {
        assert Pending(chain, p, was + p) == p;
        forall i | 0 <= i < p ensures chain'[i].due <= t {
          PendingCounts(chain, p, was + p, i);
        }
        PendingAll(chain', p, t);
      }
    }
  }

  lemma CrowdedTick<Id>(s: Sched<Id>, s': Sched<Id>, p: nat, now: nat, k: nat)
    requires p > 0 && Busy(s.chain, p) && Crowded(s.chain, p, s.now) && s' == Tick(s)
    requires now == s.now + 1 && Early(now) && k == FirstDue(s.chain, now)
    ensures k < p && Fires(s) == Some(s.chain[k].id)
    ensures Busy(s'.chain, p) && Crowded(s'.chain, p, now) && s'.now == now
    ensures |s'.chain| == |s.chain| && forall i :: 0 <= i < |s.chain| ==> s'.chain[i].id == s.chain[i].id
  {
    assert Pending(s.chain, p, now) >= 1;
    PendingSome(s.chain, p, now);
    OneTick(s, s', now, k);
    WhoFires(s, now, k);
    var x := Rearmed(s.chain[k], now);
    DeadlineEarly(now, x.sec, x.msec);
    CrowdedTake(s.chain, s'.chain, p, s.now, now, k, x);
  }

  lemma {:induction false} StaysCrowded<Id>(run: seq<Sched<Id>>, p: nat, n: nat)
    requires TickRun(run) && n < |run| && p > 0 && Early(run[0].now + n + 1)
    requires Busy(run[0].chain, p) && Crowded(run[0].chain, p, run[0].now) && Distinct(run[0].chain)
    ensures run[n].now == run[0].now + n && Busy(run[n].chain, p) && Crowded(run[n].chain, p, run[n].now)
    ensures |run[n].chain| == |run[0].chain|
    ensures forall i :: 0 <= i < |run[0].chain| ==> run[n].chain[i].id == run[0].chain[i].id
    ensures forall i :: p <= i < |run[0].chain| ==> Fires(run[n]) != Some(run[0].chain[i].id)
  {
    if n > 0 {
      StaysCrowded(run, p, n - 1);
      assert Ticks(run, n - 1);
      var now := run[n - 1].now + 1;
      CrowdedTick(run[n - 1], run[n], p, now, FirstDue(run[n - 1].chain, now));
    }
    var now := run[n].now + 1;
    CrowdedTick(run[n], Tick(run[n]), p, now, FirstDue(run[n].chain, now));
  }

  /** Periods of p ms instead of p + 1 are not enough: if the p callbacks before c recur
      with at most that period and are all due, c never fires. */
  lemma Starvation<Id>(run: seq<Sched<Id>>, p: nat, q: nat, n: nat)
    requires TickRun(run) && n < |run| && 0 < p <= q < |run[0].chain| && Early(run[0].now + n + 1)
    requires Busy(run[0].chain, p) && Distinct(run[0].chain)
    requires forall i :: 0 <= i < p ==> run[0].chain[i].due <= run[0].now + 1
    ensures Fires(run[n]) != Some(run[0].chain[q].id)
  {
    CrowdedIfDue(run[0].chain, p, run[0].now);
    StaysCrowded(run, p, n);
  }

  /** p callbacks that recur every p ms, all due at once, and one more. */
  function FullChain(p: nat): (chain: seq<Timer<nat>>)
    ensures |chain| == p + 1
  {
    seq(p + 1, i requires 0 <= i <= p => Timer(i, 1, p / 1000, p % 1000, i < p))
  }

  /** So the bound on the periods cannot be lowered for any number p of callbacks: with all
      periods p the callback behind them starves, however long the run. */
  lemma BoundIsTight(p: nat, run: seq<Sched<nat>>, n: nat)
    requires 0 < p <= 65_535_000 && TickRun(run) && n < |run| && Early(n + 1)
    requires run[0] == Sched(0, FullChain(p))
    ensures Guarded(run[0].chain, p, run[0].chain[p], p)
    ensures Fires(run[n]) != Some(p)
  {
    PeriodIs(p);
    Starvation(run, p, p, n);
  }

  lemma PeriodIs(p: nat)
    requires p <= 65_535_000
    ensures 1000 * (p / 1000) + p % 1000 == p && p / 1000 <= 0xFFFF && ExactDelay(p / 1000, p % 1000)
  {}
}
