/** timer1_clock.c: the wall clock and the linked chain of callbacks, each operation
    one atomic step, proved against the steps of TimerSched. */
module TimerClock {
  import opened TimerTime
  import opened TimerSched
  import opened TimerLateness

  /** What a registration gives a callback: the function to call and its argument. */
  datatype Gift = Gift(action: int, data: int)

  class Callback {
    var next: Callback?
    var time: WallTime        // the deadline; its freerunningSec keeps the delay's seconds
    var recurring: bool
    var recurringMsec: nat
    var userData: int
    var action: int

    constructor ()
    {
      next, time, recurring := null, WallTime(0, 0, 0, 0, 0, 0), false;
      recurringMsec, userData, action := 0, 0, 0;
    }

    /** The callback as the scheduler model sees it. */
    ghost function View(): (t: Timer<Callback>)
      reads this`time, this`recurringMsec, this`recurring
    {
      Timer(this, Total(time), time.freerunningSec, recurringMsec, recurring)
    }

    ghost function Own(): Gift
      reads this`action, this`userData
    {
      Gift(action, userData)
    }

    ghost predicate Valid()
      reads this`time, this`recurringMsec
    {
      Normal(time) && time.freerunningSec <= 0xFFFF && recurringMsec <= 999
    }
  }

  ghost function NodeAt(nodes: seq<Callback>, i: nat): Callback? {
    if i < |nodes| then nodes[i] else null
  }

  ghost predicate Different(nodes: seq<Callback>) {
    forall i, j :: 0 <= i < j < |nodes| ==> nodes[i] != nodes[j]
  }

  lemma DifferentRemove(nodes: seq<Callback>, k: nat)
    requires Different(nodes) && k < |nodes|
    ensures Different(nodes[..k] + nodes[k + 1..])
  {}

  /** at is where cb is among nodes, or their number. */
  ghost predicate Position(nodes: seq<Callback>, cb: Callback, at: nat) {
    at <= |nodes| && cb !in nodes[..at] && (at < |nodes| ==> nodes[at] == cb)
  }

  /** ts are the timers of nodes. */
  ghost predicate SameIds(nodes: seq<Callback>, ts: seq<Timer<Callback>>) {
    |ts| == |nodes| && forall i :: 0 <= i < |nodes| ==> ts[i].id == nodes[i]
  }

  ghost predicate Placed(nodes: seq<Callback>, ts: seq<Timer<Callback>>, cb: Callback, at: nat) {
    Different(nodes) && SameIds(nodes, ts) && Position(nodes, cb, at)
  }

  lemma PositionIs(nodes: seq<Callback>, ts: seq<Timer<Callback>>, cb: Callback, at: nat)
    requires SameIds(nodes, ts) && Position(nodes, cb, at)
    ensures IndexOf(ts, cb) == at
  {
    assert forall i :: 0 <= i < at ==> nodes[i] in nodes[..at];
  }

  /** The timers are what the callbacks hold. */
  ghost predicate Mirrors(nodes: seq<Callback>, ts: seq<Timer<Callback>>)
    reads nodes`time, nodes`recurring, nodes`recurringMsec
  {
    |ts| == |nodes| && forall i :: 0 <= i < |nodes| ==> nodes[i].Valid() && ts[i] == nodes[i].View()
  }

  /** The same for all callbacks but cb. */
  ghost predicate MirrorsOthers(nodes: seq<Callback>, ts: seq<Timer<Callback>>, cb: Callback)
    reads set n | n in nodes && n != cb
  {
    |ts| == |nodes| && forall i :: 0 <= i < |nodes| && nodes[i] != cb ==> nodes[i].Valid() && ts[i] == nodes[i].View()
  }

  lemma MirrorsPut(nodes: seq<Callback>, ts: seq<Timer<Callback>>, cb: Callback, at: nat)
    requires MirrorsOthers(nodes, ts, cb) && Different(nodes) && Position(nodes, cb, at) && cb.Valid()
    ensures at < |nodes| ==> Mirrors(nodes, ts[at := cb.View()])
    ensures at == |nodes| ==> Mirrors(nodes + [cb], ts + [cb.View()])
  {}

  /** The timers after cb was linked in and set. */
  lemma PutMirrored(nodes: seq<Callback>, ts: seq<Timer<Callback>>, cb: Callback, at: nat, nodes': seq<Callback>,
                   ts': seq<Timer<Callback>>)
    requires MirrorsOthers(nodes, ts, cb) && Placed(nodes, ts, cb, at) && cb.Valid()
    requires nodes' == (if at < |nodes| then nodes else nodes + [cb]) && ts' == Put(ts, cb.View())
    ensures Mirrors(nodes', ts')
  {
    MirrorsPut(nodes, ts, cb, at);
    PositionIs(nodes, ts, cb, at);
  }

  /** The timers after cb was taken out of the chain. */
  lemma DropMirrored(nodes: seq<Callback>, ts: seq<Timer<Callback>>, cb: Callback, at: nat, nodes': seq<Callback>,
                     ts': seq<Timer<Callback>>)
    requires Mirrors(nodes, ts) && Position(nodes, cb, at)
    requires nodes' == (if at < |nodes| then nodes[..at] + nodes[at + 1..] else nodes) && ts' == Drop(ts, cb)
    ensures Mirrors(nodes', ts')
  {
    PositionIs(nodes, ts, cb, at);
  }

  class Clock {
    var wall: WallTime
    var chain: Callback?
    ghost var nodes: seq<Callback>             // the callbacks in the chain, first to last
    ghost var timers: seq<Timer<Callback>>     // the same, as the scheduler model sees them

    /** The chain links exactly nodes, without repetition, and ends. */
    ghost predicate Linked()
      reads this`chain, this`nodes, nodes`next
    {
      && chain == NodeAt(nodes, 0)
      && Different(nodes)
      && forall i :: 0 <= i < |nodes| ==> nodes[i].next == NodeAt(nodes, i + 1)
    }

    /** The scheduler model's view of the chain is what the callbacks hold. */
    ghost predicate Mirrored()
      reads this`nodes, this`timers, nodes`time, nodes`recurring, nodes`recurringMsec
    {
      Mirrors(nodes, timers)
    }

    ghost predicate Valid()
      reads this, nodes`next, nodes`time, nodes`recurring, nodes`recurringMsec
    {
      Linked() && Normal(wall) && Mirrored()
    }

    ghost function View(): (s: Sched<Callback>)
      reads this
    {
      Sched(Total(wall), timers)
    }

    /** timer1_clock_init, as far as memory goes. */
    constructor ()
      ensures Valid() && View() == Sched(0, [])
    {
      wall, chain, nodes, timers := WallTime(0, 0, 0, 0, 0, 0), null, [], [];
    }

    /** timer1_clock_insert_into_chain. */
    method InsertIntoChain(cb: Callback) returns (ghost at: nat)
      requires Linked()
      modifies this`chain, this`nodes, nodes`next, cb`next
      ensures Linked() && Position(old(nodes), cb, at)
      ensures nodes == if at < |old(nodes)| then old(nodes) else old(nodes) + [cb]
    {
      var prev: Callback? := null;
      var cur := chain;
      at := 0;
      while cur != cb && cur != null
        invariant 0 <= at <= |nodes| && cur == NodeAt(nodes, at)
        invariant prev == if at == 0 then null else nodes[at - 1]
        invariant cb !in nodes[..at]
        decreases |nodes| - at
      {
        prev, cur, at := cur, cur.next, at + 1;
      }
      if cur == null {
        if prev == null { chain := cb; } else { prev.next := cb; }
        cb.next := null;
        nodes := nodes + [cb];
      }
    }

    /** Takes the callback after previous out of the chain. */
    method UnlinkAfter(previous: Callback, next: Callback, ghost at: nat)
      requires Linked() && 1 <= at < |nodes| && previous == nodes[at - 1] && next == nodes[at]
      modifies this`nodes, previous`next
      ensures Linked() && nodes == old(nodes)[..at] + old(nodes)[at + 1..]
    {
      DifferentRemove(nodes, at);
      ghost var was := nodes;
      previous.next := next.next;
      nodes := nodes[..at] + nodes[at + 1..];
      forall i | 0 <= i < |nodes| ensures nodes[i].next == NodeAt(nodes, i + 1) {
        ghost var j := if i < at then i else i + 1;
        assert nodes[i] == was[j];
      }
    }

    /** The search of timer1_clock_unregister_callback. */
    method Unlink(cb: Callback) returns (ghost at: nat)
      requires Linked()
      modifies this`chain, this`nodes, nodes`next
      ensures Linked() && Position(old(nodes), cb, at)
      ensures nodes == if at < |old(nodes)| then old(nodes)[..at] + old(nodes)[at + 1..] else old(nodes)
    {
      at := 0;
      if chain == null { return; }
      if chain == cb {
        chain := chain.next;
        nodes := nodes[1..];
        return;
      }
      var previous := chain;
      var next := chain.next;
      at := 1;
      while next != null
        invariant 1 <= at <= |nodes| && next == NodeAt(nodes, at) && previous == nodes[at - 1]
        invariant cb !in nodes[..at] && nodes == old(nodes) && Linked()
        decreases |nodes| - at
      {
        if next != cb {
          previous, next, at := next, next.next, at + 1;
        } else {
          UnlinkAfter(previous, next, at);
          return;
        }
      }
    }

    /** The carries of register_callback. */
    method CarriedTime(sec0: nat, msec: nat) returns (t: WallTime)
      requires Normal(wall) && sec0 <= 0xFFFF && msec <= 999
      ensures Normal(t) && t.freerunningSec == sec0 && Total(t) == Deadline(Total(wall), sec0, msec)
    {
      var sec := sec0;
      var min', hour', day' := 0, 0, 0;
      var ms := wall.msec + msec;
      if ms >= 1000 {
        sec := if sec + 1 == 0x1_0000 then 0 else sec + 1;
        ms := ms - 1000;
      }
      var s := wall.sec + sec % 60;
      if s >= 60 {
        min' := min' + 1;
        s := s - 60;
      }
      sec := sec / 60;
      var m := wall.min + sec % 60 + min';
      if m >= 60 {
        hour' := hour' + 1;
        m := m - 60;
      }
      sec := sec / 60;
      var h := wall.hour + sec + hour';
      if h >= 24 {
        day' := day' + 1;
        h := h - 24;
      }
      day' := if wall.day + day' == 0x1_0000 then 0 else wall.day + day';
      t := WallTime(ms, s, m, h, day', sec0);
      CarryChainTotal(wall, sec0, msec, t);
    }

    /** The assignments of register_callback. */
    method SetDeadline(cb: Callback, sec: nat, msec: nat, recurring: bool, action: int, userData: int)
      requires Normal(wall) && sec <= 0xFFFF && msec <= 999
      modifies cb`time, cb`recurring, cb`recurringMsec, cb`userData, cb`action
      ensures cb.action == action && cb.userData == userData
      ensures cb.Valid() && cb.View() == Timer(cb, Deadline(Total(wall), sec, msec), sec, msec, recurring)
    {
      cb.recurringMsec := msec;
      cb.time := CarriedTime(sec, msec);
      cb.recurring := recurring;
      cb.userData := userData;
      cb.action := action;
    }

    /** Links cb into the chain; what the other callbacks hold stays as it is. */
    method Link(cb: Callback) returns (ghost at: nat)
      requires Valid()
      modifies this`chain, this`nodes, nodes`next, cb`next
      ensures Linked() && Position(old(nodes), cb, at)
      ensures nodes == if at < |old(nodes)| then old(nodes) else old(nodes) + [cb]
      ensures Placed(old(nodes), timers, cb, at) && MirrorsOthers(old(nodes), timers, cb)
    {
      at := InsertIntoChain(cb);
    }

    /** Sets a callback that is linked into the chain. */
    method Arm(cb: Callback, sec: nat, msec: nat, recurring: bool, action: int, userData: int,
               ghost was: seq<Callback>, ghost at: nat)
      requires Linked() && Normal(wall) && sec <= 0xFFFF && msec <= 999
      requires Placed(was, timers, cb, at) && MirrorsOthers(was, timers, cb)
      requires nodes == if at < |was| then was else was + [cb]
      modifies this`timers, cb`time, cb`recurring, cb`recurringMsec, cb`userData, cb`action
      ensures Valid() && cb.action == action && cb.userData == userData
      ensures timers == Put(old(timers), Timer(cb, Deadline(Total(wall), sec, msec), sec, msec, recurring))
    {
      SetDeadline(cb, sec, msec, recurring, action, userData);
      timers := Put(timers, cb.View());
      PutMirrored(was, old(timers), cb, at, nodes, timers);
    }

    /** timer1_clock_register_callback: a step of the scheduler model. */
    method RegisterCallback(cb: Callback, sec: nat, msec: nat, recurring: bool, action: int, userData: int)
      requires Valid() && sec <= 0xFFFF && msec <= 999
      modifies this`chain, this`nodes, this`timers, nodes`next, cb
      ensures Valid() && View() == Step(old(View()), Register(cb, sec, msec, recurring))
      ensures cb.action == action && cb.userData == userData
    {
      ghost var at := Link(cb);
      Arm(cb, sec, msec, recurring, action, userData, old(nodes), at);
    }

    /** timer1_clock_unregister_callback: a step of the scheduler model. */
    method UnregisterCallback(cb: Callback)
      requires Valid()
      modifies this`chain, this`nodes, this`timers, nodes`next
      ensures Valid() && View() == Step(old(View()), Unregister(cb))
    {
      ghost var at := Unlink(cb);
      timers := Drop(timers, cb);
      DropMirrored(old(nodes), old(timers), cb, at, nodes, timers);
    }

    /** timer1_clock_check on the k-th callback of the chain. */
    method Check(cb: Callback, ghost k: nat, ghost pool: set<Callback>, ghost gifts: map<Callback, Gift>)
      returns (due: bool)
      requires Valid() && k < |nodes| && nodes[k] == cb && cb in pool && Hold(pool, gifts)
      modifies this`chain, this`nodes, this`timers, nodes`next, cb
      ensures Valid() && due == (old(timers[k].due) <= Total(wall))
      ensures !due ==> nodes == old(nodes) && timers == old(timers)
      ensures due ==> timers == Take(old(timers), k, Total(wall))
      ensures Hold(pool, gifts)
    {
      DueIsNumeric(wall, cb.time);
      due := Due(wall, cb.time);
      if due {
        assert Position(nodes, cb, k);
        PositionIs(nodes, timers, cb, k);
        if cb.recurring {
          RegisterCallback(cb, cb.time.freerunningSec, cb.recurringMsec, cb.recurring, cb.action, cb.userData);
        } else {
          UnregisterCallback(cb);
        }
      }
    }

    /** The clock part of the timer interrupt. */
    method AdvanceWall()
      requires Normal(wall)
      modifies this`wall
      ensures wall == Advance(old(wall)) && Normal(wall)
      ensures Total(wall) == NextMs(old(Total(wall)))
    {
      AdvanceTotal(wall);
      wall := wall.(msec := wall.msec + 1);
      if wall.msec >= 1000 {
        wall := wall.(msec := 0, freerunningSec := Inc16(wall.freerunningSec), sec := wall.sec + 1);
        if wall.sec >= 60 {
          wall := wall.(sec := 0, min := wall.min + 1);
          if wall.min >= 60 {
            wall := wall.(min := 0, hour := wall.hour + 1);
            if wall.hour >= 24 {
              wall := wall.(hour := 0, day := Inc16(wall.day));
            }
          }
        }
      }
    }

    /** The callback part of the timer interrupt: the first callback that is due. */
    method TakeUpOne(ghost pool: set<Callback>, ghost gifts: map<Callback, Gift>)
      returns (fired: Callback?, ghost k: nat)
      requires Valid() && InPool(nodes, pool) && Hold(pool, gifts)
      modifies this`chain, this`nodes, this`timers, nodes
      ensures Valid() && k == FirstDue(old(timers), Total(wall)) && fired == NodeAt(old(nodes), k)
      ensures timers == if k < |old(timers)| then Take(old(timers), k, Total(wall)) else old(timers)
      ensures Hold(pool, gifts)
    {
      fired, k := chain, 0;
      while fired != null
        invariant Valid() && nodes == old(nodes) && timers == old(timers)
        invariant Hold(pool, gifts)
        invariant k <= |nodes| && fired == NodeAt(nodes, k) && NoneDue(old(timers), Total(wall), k)
        decreases |nodes| - k
      {
        var due := Check(fired, k, pool, gifts);
        if due {
          FirstDueIs(old(timers), Total(wall), k);
          return;
        }
        NoneDueMore(old(timers), Total(wall), k);
        fired, k := fired.next, k + 1;
      }
      FirstDueIs(old(timers), Total(wall), k);
    }

    /** ISR(TIMER1_COMPA_vect): the callback that it calls, if any, and with what.  The callbacks of
        the pool, which has those of the chain, keep what they were given. */
    method Interrupt(ghost pool: set<Callback>, ghost gifts: map<Callback, Gift>) returns (call: Option<Invoked>)
      requires Valid() && Within(timers, pool) && Hold(pool, gifts)
      modifies this, nodes
      ensures Valid() && View() == Tick(old(View())) && Within(timers, pool) && Hold(pool, gifts)
      ensures Calls(call, Fires(old(View()))) && Faithful(call, gifts)
    {
      StepWithin(View(), Ticked, pool);
      PoolOf(nodes, timers, pool);
      AdvanceWall();
      ghost var k;
      var next;
      next, k := TakeUpOne(pool, gifts);
      call := if next != null then Some(Invoked(next, Gift(next.action, next.userData))) else None;
    }

    /** A registration, on a list whose callbacks are in the pool. */
    method RegisterWithin(cb: Callback, sec: nat, msec: nat, recurring: bool, action: int, data: int,
                          ghost pool: set<Callback>, ghost gifts: map<Callback, Gift>)
      requires Valid() && sec <= 0xFFFF && msec <= 999 && Within(timers, pool) && cb in pool && Hold(pool, gifts)
      modifies this, pool
      ensures Valid() && View() == Step(old(View()), Register(cb, sec, msec, recurring)) && Within(timers, pool)
      ensures Hold(pool, gifts[cb := Gift(action, data)])
    {
      StepWithin(View(), Register(cb, sec, msec, recurring), pool);
      PoolOf(nodes, timers, pool);
      RegisterCallback(cb, sec, msec, recurring, action, data);
    }

    /** A removal, likewise. */
    method UnregisterWithin(cb: Callback, ghost pool: set<Callback>, ghost gifts: map<Callback, Gift>)
      requires Valid() && Within(timers, pool) && Hold(pool, gifts)
      modifies this, pool
      ensures Valid() && View() == Step(old(View()), Unregister(cb)) && Within(timers, pool) && Hold(pool, gifts)
    {
      StepWithin(View(), Unregister(cb), pool);
      PoolOf(nodes, timers, pool);
      UnregisterCallback(cb);
    }

    /** One call or interrupt. */
    method Perform(c: Call, ghost pool: set<Callback>, ghost gifts: map<Callback, Gift>) returns (calls: seq<Invoked>)
      requires Valid() && InRange(c) && Within(timers, pool) && (c.Registers? ==> c.cb in pool) && Hold(pool, gifts)
      modifies this, pool
      ensures Valid() && View() == Step(old(View()), EventOf(c)) && Within(timers, pool)
      ensures Hold(pool, Given(gifts, c)) && calls == Invocation(old(View()), gifts, c)
      ensures Callbacks(calls) == Firings(Logged(old(View()), EventOf(c)))
    {
      calls := [];
      match c {
        case Interrupts =>
          PoolOf(nodes, timers, pool);
          var call := Interrupt(pool, gifts);
          if call.Some? { calls := [call.value]; }
        case Registers(cb, sec, msec, recurring, action, data) =>
          RegisterWithin(cb, sec, msec, recurring, action, data, pool, gifts);
        case Unregisters(cb) =>
          UnregisterWithin(cb, pool, gifts);
      }
    }

    /** Any run of calls and interrupts: the list goes through the states of the scheduler model,
        and the callbacks called are those of its log, each with the action and data of its last
        registration.  From an empty list, with delays that keep their carry and clear of the wrap
        of the day counter, no callback is called unless it is armed and its delay has passed. */
    method Run(cs: seq<Call>, ghost pool: set<Callback>, ghost gifts: map<Callback, Gift>)
      returns (calls: seq<Invoked>)
      requires Valid() && Within(timers, pool) && Hold(pool, gifts)
      requires forall i :: 0 <= i < |cs| ==> InRange(cs[i]) && (cs[i].Registers? ==> cs[i].cb in pool)
      modifies this, pool
      ensures Valid() && View() == After(old(View()), EventsOf(cs)) && Hold(pool, GivenAll(gifts, cs))
      ensures calls == Invocations(old(View()), gifts, cs)
      ensures Callbacks(calls) == Firings(LogOf(old(View()), EventsOf(cs)))
      ensures old(timers) == [] && Early(old(Total(wall)) + |cs|)
              && (forall i :: 0 <= i < |cs| ==> ValidEvent(EventOf(cs[i]))) ==>
        Good(timers, LogOf(old(View()), EventsOf(cs)))
    {
      ghost var s := View();
      calls := [];
      for i := 0 to |cs|
        invariant Valid() && Within(timers, pool) && View() == After(s, EventsOf(cs[..i]))
        invariant Hold(pool, GivenAll(gifts, cs[..i])) && calls == Invocations(s, gifts, cs[..i])
        invariant Callbacks(calls) == Firings(LogOf(s, EventsOf(cs[..i])))
      {
        RunGrows(s, gifts, cs, i);
        var more := Perform(cs[i], pool, GivenAll(gifts, cs[..i]));
        FiringsAppend(LogOf(s, EventsOf(cs[..i])), Logged(After(s, EventsOf(cs[..i])), EventOf(cs[i])));
        CallbacksAppend(calls, more);
        calls := calls + more;
      }
      assert cs[..|cs|] == cs;
      if s.chain == [] && Early(s.now + |cs|) && (forall i :: 0 <= i < |cs| ==> ValidEvent(EventOf(cs[i]))) {
        RunLawful(s, EventsOf(cs));
      }
    }

    /** n interrupts with no call in between. */
    method InterruptTimes(n: nat, ghost pool: set<Callback>, ghost gifts: map<Callback, Gift>)
      returns (calls: seq<Option<Invoked>>, ghost run: seq<Sched<Callback>>)
      requires Valid() && Within(timers, pool) && Hold(pool, gifts)
      modifies this, pool
      ensures Valid() && |calls| == n && Ran(run, calls) && run[0] == old(View()) && run[n] == View()
      ensures Hold(pool, gifts) && AllFaithful(calls, gifts)
    {
      calls, run := [], [View()];
      for i := 0 to n
        invariant Valid() && Within(timers, pool) && Hold(pool, gifts) && |calls| == i && Ran(run, calls)
        invariant run[0] == old(View()) && run[i] == View() && AllFaithful(calls, gifts)
      {
        PoolOf(nodes, timers, pool);
        var call := Interrupt(pool, gifts);
        RanMore(run, calls, View(), call);
        calls, run := calls + [call], run + [View()];
      }
    }

    /** In n interrupts with no call in between callback number p of the list, if those before it
        that recur have periods of at least p + 1 ms, is called at the first interrupt at or after
        its deadline or at most p later, and not before; it is called, as every callback is, with
        the action and data it had been given. */
    method InterruptsReach(n: nat, ghost p: nat, ghost due: nat) returns (calls: seq<Option<Invoked>>, ghost at: nat)
      requires Valid() && p < |nodes| && Guarded(timers, p, timers[p], p + 1)
      requires due == Max(timers[p].due, Total(wall) + 1) && Early(due + p) && due + p <= Total(wall) + n
      modifies this, nodes
      ensures Valid() && |calls| == n && at < n && due <= old(Total(wall)) + at + 1 <= due + p
      ensures calls[at] == Some(Invoked(old(nodes[p]), old(nodes[p].Own())))
      ensures forall j :: 0 <= j < at && calls[j].Some? ==> calls[j].value.cb != old(nodes[p])
      ensures forall j :: 0 <= j < n && calls[j].Some? ==>
        calls[j].value.cb in old(nodes) && calls[j].value.gift == old(calls[j].value.cb.Own())
    {
      ghost var pool: set<Callback> := set cb | cb in nodes;
      ghost var gifts := map cb | cb in pool :: cb.Own();
      calls, at := ReachWithin(n, p, due, nodes[p], pool, gifts);
    }

    /** The same, on a list whose callbacks are in the pool. */
    method ReachWithin(n: nat, ghost p: nat, ghost due: nat, ghost c: Callback, ghost pool: set<Callback>,
                       ghost gifts: map<Callback, Gift>)
      returns (calls: seq<Option<Invoked>>, ghost at: nat)
      requires Valid() && p < |timers| && Guarded(timers, p, timers[p], p + 1) && timers[p].id == c
      requires due == Max(timers[p].due, Total(wall) + 1) && Early(due + p) && due + p <= Total(wall) + n
      requires Within(timers, pool) && Hold(pool, gifts)
      modifies this, pool
      ensures Valid() && |calls| == n && at < n && due <= old(Total(wall)) + at + 1 <= due + p
      ensures calls[at].Some? && calls[at].value.cb == c && AllFaithful(calls, gifts)
      ensures forall j :: 0 <= j < at && calls[j].Some? ==> calls[j].value.cb != c
    {
      ghost var t := timers[p];
      ghost var run;
      calls, run := InterruptTimes(n, pool, gifts);
      at := Reached(run, calls, p, t, c, due);
    }
  }

  // ------------------------------------------------------------------- the calls

  /** A callback that is called, and with what. */
  datatype Invoked = Invoked(cb: Callback, gift: Gift)

  datatype Call =
    | Interrupts
    | Registers(cb: Callback, sec: nat, msec: nat, recurring: bool, action: int, data: int)
    | Unregisters(cb: Callback)

  /** The call as the scheduler model sees it. */
  function EventOf(c: Call): Event<Callback> {
    match c
    case Interrupts => Ticked
    case Registers(cb, sec, msec, recurring, _, _) => Register(cb, sec, msec, recurring)
    case Unregisters(cb) => Unregister(cb)
  }

  function EventsOf(cs: seq<Call>): (es: seq<Event<Callback>>)
    ensures |es| == |cs|
    ensures forall i :: 0 <= i < |cs| ==> es[i] == EventOf(cs[i])
  {
    seq(|cs|, i requires 0 <= i < |cs| => EventOf(cs[i]))
  }

  predicate InRange(c: Call) {
    c.Registers? ==> c.sec <= 0xFFFF && c.msec <= 999
  }

  /** gifts says what the callbacks of the pool have been given. */
  ghost predicate Hold(pool: set<Callback>, gifts: map<Callback, Gift>)
    reads pool
  {
    forall cb :: cb in pool ==> cb in gifts && gifts[cb] == cb.Own()
  }

  /** Only a registration gives a callback anything. */
  function Given(gifts: map<Callback, Gift>, c: Call): map<Callback, Gift> {
    if c.Registers? then gifts[c.cb := Gift(c.action, c.data)] else gifts
  }

  function GivenAll(gifts: map<Callback, Gift>, cs: seq<Call>): map<Callback, Gift> {
    if cs == [] then gifts else Given(GivenAll(gifts, cs[..|cs| - 1]), cs[|cs| - 1])
  }

  /** What a callback has been given is what its last registration, call number i, gave it. */
  lemma {:induction false} LastRegistration(gifts: map<Callback, Gift>, cs: seq<Call>, i: nat)
    requires i < |cs| && cs[i].Registers?
    requires forall j :: i < j < |cs| && cs[j].Registers? ==> cs[j].cb != cs[i].cb
    ensures cs[i].cb in GivenAll(gifts, cs) && GivenAll(gifts, cs)[cs[i].cb] == Gift(cs[i].action, cs[i].data)
  {
    var n := |cs| - 1;
    if i < n {
      assert cs[..n][i] == cs[i];
      LastRegistration(gifts, cs[..n], i);
    }
  }

  /** What one call makes the interrupt call. */
  ghost function Invocation(s: Sched<Callback>, gifts: map<Callback, Gift>, c: Call): seq<Invoked> {
    match (c, Fires(s))
    case (Interrupts, Some(cb)) => if cb in gifts then [Invoked(cb, gifts[cb])] else []
    case _ => []
  }

  ghost function Invocations(s: Sched<Callback>, gifts: map<Callback, Gift>, cs: seq<Call>): seq<Invoked> {
    if cs == [] then []
    else
      var before := cs[..|cs| - 1];
      Invocations(s, gifts, before) + Invocation(After(s, EventsOf(before)), GivenAll(gifts, before), cs[|cs| - 1])
  }

  /** The callbacks that are registered by some of the calls. */
  ghost function Registered(cs: seq<Call>): set<Callback> {
    set i | 0 <= i < |cs| && cs[i].Registers? :: cs[i].cb
  }

  lemma {:induction false} ChainRegistered(s: Sched<Callback>, cs: seq<Call>)
    requires s.chain == []
    ensures Within(After(s, EventsOf(cs)).chain, Registered(cs))
  {
    if cs != [] {
      var n := |cs| - 1;
      var before := cs[..n];
      ChainRegistered(s, before);
      assert EventsOf(cs)[..n] == EventsOf(before);
      assert forall i :: 0 <= i < n ==> before[i] == cs[i];
      assert Registered(before) <= Registered(cs);
      StepWithin(After(s, EventsOf(before)), EventOf(cs[n]), Registered(cs));
    }
  }

  lemma {:induction false} LastOf(cs: seq<Call>, cb: Callback) returns (i: nat)
    requires cb in Registered(cs)
    ensures i < |cs| && cs[i].Registers? && cs[i].cb == cb
    ensures forall j :: i < j < |cs| && cs[j].Registers? ==> cs[j].cb != cb
  {
    var n := |cs| - 1;
    if cs[n].Registers? && cs[n].cb == cb {
      i := n;
    } else {
      assert forall j :: 0 <= j < n ==> cs[..n][j] == cs[j];
      i := LastOf(cs[..n], cb);
    }
  }

  /** The callback is called by the interrupt that is call number k, with the action and data of its
      last registration before that, call number i. */
  ghost predicate CalledFor(s: Sched<Callback>, cs: seq<Call>, i: nat, k: nat, v: Invoked) {
    && i < k < |cs| && cs[k].Interrupts? && cs[i].Registers?
    && v == Invoked(cs[i].cb, Gift(cs[i].action, cs[i].data))
    && (forall x :: i < x < k && cs[x].Registers? ==> cs[x].cb != cs[i].cb)
    && Fires(After(s, EventsOf(cs[..k]))) == Some(cs[i].cb)
  }

  lemma CalledForLonger(s: Sched<Callback>, cs: seq<Call>, n: nat, i: nat, k: nat, v: Invoked)
    requires n <= |cs| && CalledFor(s, cs[..n], i, k, v)
    ensures CalledFor(s, cs, i, k, v)
  {
    assert cs[..n][..k] == cs[..k];
    assert forall x :: 0 <= x < n ==> cs[..n][x] == cs[x];
  }

  lemma CalledNow(s: Sched<Callback>, gifts: map<Callback, Gift>, cs: seq<Call>, n: nat, at: Sched<Callback>,
                  v: Invoked) returns (i: nat)
    requires s.chain == [] && n == |cs| - 1 && at == After(s, EventsOf(cs[..n]))
    requires Invocation(at, GivenAll(gifts, cs[..n]), cs[n]) == [v]
    ensures CalledFor(s, cs, i, n, v)
  {
    var before := cs[..n];
    ChainRegistered(s, before);
    InvocationIs(at, GivenAll(gifts, before), cs[n], v, Registered(before));
    i := LastOf(before, v.cb);
    LastRegistration(gifts, before, i);
    assert forall x :: 0 <= x < n ==> before[x] == cs[x];
  }

  lemma InvocationIs(at: Sched<Callback>, gifts: map<Callback, Gift>, c: Call, v: Invoked, pool: set<Callback>)
    requires Invocation(at, gifts, c) == [v] && Within(at.chain, pool)
    ensures c.Interrupts? && Fires(at) == Some(v.cb) && v.cb in pool && v.cb in gifts && v.gift == gifts[v.cb]
  {}

  /** In a run from an empty list every callback is called for a registration. */
  lemma {:induction false} CalledAsRegistered(s: Sched<Callback>, gifts: map<Callback, Gift>, cs: seq<Call>, j: nat)
    returns (i: nat, k: nat)
    requires s.chain == [] && j < |Invocations(s, gifts, cs)|
    ensures CalledFor(s, cs, i, k, Invocations(s, gifts, cs)[j])
  {
    k := |cs| - 1;
    var sooner, at := Invocations(s, gifts, cs[..k]), After(s, EventsOf(cs[..k]));
    if j < |sooner| {
      var n, v := k, sooner[j];
      i, k := CalledAsRegistered(s, gifts, cs[..n], j);
      CalledForLonger(s, cs, n, i, k, v);
    } else {
      i := CalledNow(s, gifts, cs, k, at, Invocations(s, gifts, cs)[j]);
    }
  }

  lemma RunGrows(s: Sched<Callback>, gifts: map<Callback, Gift>, cs: seq<Call>, i: nat)
    requires i < |cs|
    ensures After(s, EventsOf(cs[..i + 1])) == Step(After(s, EventsOf(cs[..i])), EventOf(cs[i]))
    ensures LogOf(s, EventsOf(cs[..i + 1]))
         == LogOf(s, EventsOf(cs[..i])) + Logged(After(s, EventsOf(cs[..i])), EventOf(cs[i]))
    ensures GivenAll(gifts, cs[..i + 1]) == Given(GivenAll(gifts, cs[..i]), cs[i])
    ensures Invocations(s, gifts, cs[..i + 1])
         == Invocations(s, gifts, cs[..i]) + Invocation(After(s, EventsOf(cs[..i])), GivenAll(gifts, cs[..i]), cs[i])
  {
    assert cs[..i + 1][..i] == cs[..i];
    assert EventsOf(cs[..i + 1])[..i] == EventsOf(cs[..i]);
  }

  /** The callbacks that a log says were fired, in order. */
  ghost function Firings(log: seq<Entry<Callback>>): seq<Callback> {
    if log == [] then []
    else Firings(log[..|log| - 1]) + if log[|log| - 1].Fired? then [log[|log| - 1].id] else []
  }

  lemma {:induction false} FiringsAppend(a: seq<Entry<Callback>>, b: seq<Entry<Callback>>)
    ensures Firings(a + b) == Firings(a) + Firings(b)
  {
    if b == [] {
      assert a + b == a;
    } else {
      var n := |b| - 1;
      FiringsAppend(a, b[..n]);
      assert (a + b)[..|a| + n] == a + b[..n];
    }
  }

  ghost function Callbacks(calls: seq<Invoked>): seq<Callback> {
    seq(|calls|, i requires 0 <= i < |calls| => calls[i].cb)
  }

  lemma CallbacksAppend(a: seq<Invoked>, b: seq<Invoked>)
    ensures Callbacks(a + b) == Callbacks(a) + Callbacks(b)
  {}

  /** The call is that of the callback that fires. */
  predicate Calls(call: Option<Invoked>, fires: Option<Callback>) {
    match fires case Some(cb) => call.Some? && call.value.cb == cb case None => call.None?
  }

  ghost predicate InPool(nodes: seq<Callback>, pool: set<Callback>) {
    forall i :: 0 <= i < |nodes| ==> nodes[i] in pool
  }

  lemma PoolOf(nodes: seq<Callback>, ts: seq<Timer<Callback>>, pool: set<Callback>)
    requires Mirrors(nodes, ts) && Within(ts, pool)
    ensures InPool(nodes, pool)
  {
    assert forall i :: 0 <= i < |nodes| ==> nodes[i] == ts[i].id;
  }

  /** The callback is called with what gifts says. */
  ghost predicate Faithful(call: Option<Invoked>, gifts: map<Callback, Gift>) {
    call.Some? ==> call.value.cb in gifts && call.value.gift == gifts[call.value.cb]
  }

  ghost predicate AllFaithful(calls: seq<Option<Invoked>>, gifts: map<Callback, Gift>) {
    forall j :: 0 <= j < |calls| ==> Faithful(calls[j], gifts)
  }

  // -------------------------------------------------------------------- the runs

  /** All callbacks of the chain are in the pool. */
  ghost predicate Within(chain: seq<Timer<Callback>>, pool: set<Callback>) {
    forall i :: 0 <= i < |chain| ==> chain[i].id in pool
  }

  lemma StepWithin(s: Sched<Callback>, e: Event<Callback>, pool: set<Callback>)
    requires Within(s.chain, pool) && (e.Register? ==> e.id in pool)
    ensures Within(Step(s, e).chain, pool)
  {}

  /** A run of interrupts, and what each of them called. */
  ghost predicate Ran(run: seq<Sched<Callback>>, calls: seq<Option<Invoked>>) {
    |run| == |calls| + 1 && TickRun(run) && forall j :: 0 <= j < |calls| ==> Calls(calls[j], Fires(run[j]))
  }

  lemma RanMore(run: seq<Sched<Callback>>, calls: seq<Option<Invoked>>, s: Sched<Callback>, call: Option<Invoked>)
    requires Ran(run, calls) && s == Tick(run[|calls|]) && Calls(call, Fires(run[|calls|]))
    ensures Ran(run + [s], calls + [call])
  {
    var more, n := run + [s], |calls|;
    forall i | 0 <= i < |more| - 1 ensures Ticks(more, i) {
      if i < n {
        assert Ticks(run, i) && more[i] == run[i] && more[i + 1] == run[i + 1];
      } else {
        assert more[i] == run[n] && more[i + 1] == s;
      }
    }
  }

  lemma Reached(run: seq<Sched<Callback>>, calls: seq<Option<Invoked>>, p: nat, t: Timer<Callback>, c: Callback,
                due: nat) returns (at: nat)
    requires Ran(run, calls) && Guarded(run[0].chain, p, t, p + 1) && t.id == c
    requires due == Max(t.due, run[0].now + 1) && Early(due + p) && due + p <= run[0].now + |calls|
    ensures at < |calls| && due <= run[0].now + at + 1 <= due + p
    ensures calls[at].Some? && calls[at].value.cb == c
    ensures forall j :: 0 <= j < at && calls[j].Some? ==> calls[j].value.cb != c
  {
    at := BoundedLateness(run, p, t, due);
  }
}
