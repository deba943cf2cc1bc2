/** The callback chain as a value: what a tick, a registration and a removal do to it,
    and what holds of every run of them. */
module TimerSched {
  import opened TimerTime

  datatype Option<T> = None | Some(value: T)

  /** A registered callback: its deadline in ms, and the delay it was registered with. */
  datatype Timer<Id> = Timer(id: Id, due: nat, sec: nat, msec: nat, recurring: bool)

  datatype Sched<Id> = Sched(now: nat, chain: seq<Timer<Id>>)

  function Period<Id>(t: Timer<Id>): nat {
    1000 * t.sec + t.msec
  }

  // ---------------------------------------------------------------- the steps

  /** Index of the first callback in the chain that is due, or the chain's length. */
  function FirstDue<Id>(chain: seq<Timer<Id>>, now: nat): (k: nat)
    ensures k <= |chain|
    ensures forall i :: 0 <= i < k ==> now < chain[i].due
    ensures k < |chain| ==> chain[k].due <= now
  {
    if chain == [] || chain[0].due <= now then 0 else 1 + FirstDue(chain[1..], now)
  }

  /** None of the first k callbacks is due. */
  predicate NoneDue<Id>(chain: seq<Timer<Id>>, now: nat, k: nat) {
    k <= |chain| && forall i :: 0 <= i < k ==> now < chain[i].due
  }

  lemma NoneDueMore<Id>(chain: seq<Timer<Id>>, now: nat, k: nat)
    requires k < |chain| && NoneDue(chain, now, k) && now < chain[k].due
    ensures NoneDue(chain, now, k + 1)
  {}

  lemma FirstDueIs<Id>(chain: seq<Timer<Id>>, now: nat, k: nat)
    requires NoneDue(chain, now, k)
    requires k < |chain| ==> chain[k].due <= now
    ensures FirstDue(chain, now) == k
  {}

  function Rearmed<Id>(t: Timer<Id>, now: nat): Timer<Id> {
    t.(due := Deadline(now, t.sec, t.msec))
  }

  /** The chain after the callback at k has been taken up: a recurring one stays where
      it is with a new deadline, another one leaves. */
  function Take<Id>(chain: seq<Timer<Id>>, k: nat, now: nat): seq<Timer<Id>>
    requires k < |chain|
  {
    if chain[k].recurring then chain[k := Rearmed(chain[k], now)] else chain[..k] + chain[k + 1..]
  }

  /** One ms later, up to the wrap of the day counter. */
  function NextMs(now: nat): nat {
    if now + 1 == LIMIT then 0 else now + 1
  }

  /** The timer interrupt: time goes on, and at most one callback, the first that is
      due, is taken up. */
  function Tick<Id>(s: Sched<Id>): Sched<Id> {
    var now := NextMs(s.now);
    var k := FirstDue(s.chain, now);
    Sched(now, if k < |s.chain| then Take(s.chain, k, now) else s.chain)
  }

  function Fires<Id>(s: Sched<Id>): Option<Id> {
    var k := FirstDue(s.chain, NextMs(s.now));
    if k < |s.chain| then Some(s.chain[k].id) else None
  }

  function IndexOf<Id(==)>(chain: seq<Timer<Id>>, id: Id): (k: nat)
    ensures k <= |chain|
    ensures forall i :: 0 <= i < k ==> chain[i].id != id
    ensures k < |chain| ==> chain[k].id == id
  {
    if chain == [] || chain[0].id == id then 0 else 1 + IndexOf(chain[1..], id)
  }

  /** Registering a callback that is in the chain changes it in place; another one is
      appended. */
  function Put<Id(==)>(chain: seq<Timer<Id>>, t: Timer<Id>): seq<Timer<Id>> {
    var k := IndexOf(chain, t.id);
    if k < |chain| then chain[k := t] else chain + [t]
  }

  function Drop<Id(==)>(chain: seq<Timer<Id>>, id: Id): seq<Timer<Id>> {
    var k := IndexOf(chain, id);
    if k < |chain| then chain[..k] + chain[k + 1..] else chain
  }

  predicate Distinct<Id(==)>(chain: seq<Timer<Id>>) {
    forall i, j :: 0 <= i < j < |chain| ==> chain[i].id != chain[j].id
  }

  // ----------------------------------------------------------------- the runs

  datatype Event<Id> = Ticked | Register(id: Id, sec: nat, msec: nat, recurring: bool) | Unregister(id: Id)

  datatype Entry<Id> = Armed(id: Id, at: nat, delay: nat, recurring: bool) | Fired(id: Id, at: nat) | Disarmed(id: Id)

  function Step<Id(==)>(s: Sched<Id>, e: Event<Id>): Sched<Id> {
    match e
    case Ticked => Tick(s)
    case Register(id, sec, msec, recurring) =>
      s.(chain := Put(s.chain, Timer(id, Deadline(s.now, sec, msec), sec, msec, recurring)))
    case Unregister(id) => s.(chain := Drop(s.chain, id))
  }

  /** What a step writes into the log. */
  function Logged<Id>(s: Sched<Id>, e: Event<Id>): seq<Entry<Id>> {
    match e
    case Ticked => (match Fires(s) case Some(id) => [Fired(id, NextMs(s.now))] case None => [])
    case Register(id, sec, msec, recurring) => [Armed(id, s.now, 1000 * sec + msec, recurring)]
    case Unregister(id) => [Disarmed(id)]
  }

  /** State and log after a run of events. */
  function After<Id(==)>(s: Sched<Id>, events: seq<Event<Id>>): Sched<Id>
    decreases |events|
  {
    if events == [] then s else Step(After(s, events[..|events| - 1]), events[|events| - 1])
  }

  function LogOf<Id(==)>(s: Sched<Id>, events: seq<Event<Id>>): seq<Entry<Id>>
    decreases |events|
  {
    if events == [] then []
    else
      var before := events[..|events| - 1];
      LogOf(s, before) + Logged(After(s, before), events[|events| - 1])
  }

  // ------------------------------------- what callers may expect, from the log alone

  /** A callback that is armed: since when, for how long, and whether it recurs. */
  datatype Arm = Arm(start: nat, delay: nat, recurring: bool)

  function Observe<Id(==)>(m: map<Id, Arm>, e: Entry<Id>): map<Id, Arm> {
    match e
    case Armed(id, at, delay, recurring) => m[id := Arm(at, delay, recurring)]
    case Fired(id, at) =>
      if id in m && m[id].recurring then m[id := m[id].(start := at)] else m - {id}
    case Disarmed(id) => m - {id}
  }

  function Monitor<Id(==)>(log: seq<Entry<Id>>): map<Id, Arm>
    decreases |log|
  {
    if log == [] then map[] else Observe(Monitor(log[..|log| - 1]), log[|log| - 1])
  }

  /** A firing is allowed when the callback is armed and its delay has passed. */
  predicate Allowed<Id(==)>(m: map<Id, Arm>, e: Entry<Id>) {
    e.Fired? ==> e.id in m && m[e.id].start + m[e.id].delay <= e.at
  }

  /** Every firing in the log was allowed when it happened. */
  ghost predicate Lawful<Id>(log: seq<Entry<Id>>) {
    forall i :: 0 <= i < |log| ==> Allowed(Monitor(log[..i]), log[i])
  }

  // --------------------------------------------------------- why runs are lawful

  /** The chain holds exactly the armed callbacks, each with the deadline it was armed for. */
  ghost predicate Agrees<Id>(chain: seq<Timer<Id>>, m: map<Id, Arm>) {
    && Distinct(chain)
    && (forall i :: 0 <= i < |chain| ==> chain[i].id in m && Matches(chain[i], m[chain[i].id]))
    && Covers(chain, m)
  }

  predicate Matches<Id>(t: Timer<Id>, a: Arm) {
    && t.due == a.start + a.delay && a.delay == Period(t) && a.recurring == t.recurring
    && t.sec <= 0xFFFF && t.msec <= 999 && ExactDelay(t.sec, t.msec)
  }

  /** Far enough from the wrap of the day counter for every delay. */
  predicate Early(now: nat) {
    now + MAX_DELAY + 1 < LIMIT
  }

  lemma DeadlineEarly(now: nat, sec: nat, msec: nat)
    requires Early(now) && sec <= 0xFFFF && msec <= 999 && ExactDelay(sec, msec)
    ensures Deadline(now, sec, msec) == now + 1000 * sec + msec
  {
    DeadlineExact(sec, msec);
  }

  lemma IndexOfIs<Id>(chain: seq<Timer<Id>>, k: nat)
    requires Distinct(chain) && k < |chain|
    ensures IndexOf(chain, chain[k].id) == k
  {}

  /** Every armed callback is in the chain. */
  ghost predicate Covers<Id>(chain: seq<Timer<Id>>, m: map<Id, Arm>) {
    forall id :: id in m ==> IndexOf(chain, id) < |chain|
  }

  lemma PutCovers<Id>(chain: seq<Timer<Id>>, m: map<Id, Arm>, t: Timer<Id>, a: Arm, c: seq<Timer<Id>>)
    requires Distinct(c) && Covers(chain, m) && c == Put(chain, t)
    ensures Covers(c, m[t.id := a])
  {
    forall id | id in m[t.id := a] ensures IndexOf(c, id) < |c| {
      var k := IndexOf(chain, id);
      assert c[k].id == id;
      IndexOfIs(c, k);
    }
  }

  lemma DropCovers<Id>(chain: seq<Timer<Id>>, m: map<Id, Arm>, id: Id, c: seq<Timer<Id>>)
    requires Distinct(c) && Covers(chain, m) && c == Drop(chain, id)
    ensures Covers(c, m - {id})
  {
    var k := IndexOf(chain, id);
    forall x | x in m - {id} ensures IndexOf(c, x) < |c| {
      var j := IndexOf(chain, x);
      var j' := if j < k then j else j - 1;
      assert c[j'].id == x;
      IndexOfIs(c, j');
    }
  }

  lemma PutAgrees<Id>(chain: seq<Timer<Id>>, m: map<Id, Arm>, t: Timer<Id>, a: Arm)
    requires Agrees(chain, m) && Matches(t, a)
    ensures Agrees(Put(chain, t), m[t.id := a])
  {
    PutCovers(chain, m, t, a, Put(chain, t));
  }

  lemma DropAgrees<Id>(chain: seq<Timer<Id>>, m: map<Id, Arm>, id: Id)
    requires Agrees(chain, m)
    ensures Agrees(Drop(chain, id), m - {id})
  {
    DropCovers(chain, m, id, Drop(chain, id));
  }

  lemma TakeAgrees<Id>(chain: seq<Timer<Id>>, m: map<Id, Arm>, k: nat, now: nat)
    requires Agrees(chain, m) && k < |chain| && chain[k].due <= now && Early(now)
    ensures Allowed(m, Fired(chain[k].id, now))
    ensures Agrees(Take(chain, k, now), Observe(m, Fired(chain[k].id, now)))
  {
    var t := chain[k];
    IndexOfIs(chain, k);
    if t.recurring {
      DeadlineEarly(now, t.sec, t.msec);
      PutAgrees(chain, m, Rearmed(t, now), m[t.id].(start := now));
    } else {
      DropAgrees(chain, m, t.id);
    }
  }

  predicate ValidEvent<Id>(e: Event<Id>) {
    e.Register? ==> e.sec <= 0xFFFF && e.msec <= 999 && ExactDelay(e.sec, e.msec)
  }

  lemma LogGrows<Id>(log: seq<Entry<Id>>, e: Entry<Id>)
    requires Lawful(log) && Allowed(Monitor(log), e)
    ensures Lawful(log + [e]) && Monitor(log + [e]) == Observe(Monitor(log), e)
  {
    var l := log + [e];
    assert l[..|log|] == log;
    forall i | 0 <= i < |l| ensures Allowed(Monitor(l[..i]), l[i]) {
      if i < |log| {
        assert l[..i] == log[..i];
      }
    }
  }

  /** A chain and a log that belong together. */
  ghost predicate Good<Id>(chain: seq<Timer<Id>>, log: seq<Entry<Id>>) {
    Lawful(log) && Agrees(chain, Monitor(log))
  }

  lemma GoodEntry<Id>(log: seq<Entry<Id>>, e: Entry<Id>, chain': seq<Timer<Id>>)
    requires Lawful(log) && Allowed(Monitor(log), e) && Agrees(chain', Observe(Monitor(log), e))
    ensures Good(chain', log + [e])
  {
    LogGrows(log, e);
  }

  lemma TickGood<Id>(chain: seq<Timer<Id>>, log: seq<Entry<Id>>, k: nat, now: nat)
    requires Good(chain, log) && k < |chain| && chain[k].due <= now && Early(now)
    ensures Good(Take(chain, k, now), log + [Fired(chain[k].id, now)])
  {
    TakeAgrees(chain, Monitor(log), k, now);
    GoodEntry(log, Fired(chain[k].id, now), Take(chain, k, now));
  }

  lemma RegisterGood<Id>(chain: seq<Timer<Id>>, log: seq<Entry<Id>>, now: nat, t: Timer<Id>,
                         chain': seq<Timer<Id>>, log': seq<Entry<Id>>)
    requires Good(chain, log) && Early(now)
    requires t.sec <= 0xFFFF && t.msec <= 999 && ExactDelay(t.sec, t.msec)
    requires t.due == Deadline(now, t.sec, t.msec)
    requires chain' == Put(chain, t) && log' == log + [Armed(t.id, now, Period(t), t.recurring)]
    ensures Good(chain', log')
  {
    DeadlineEarly(now, t.sec, t.msec);
    PutAgrees(chain, Monitor(log), t, Arm(now, Period(t), t.recurring));
    GoodEntry(log, Armed(t.id, now, Period(t), t.recurring), chain');
  }

  lemma UnregisterGood<Id>(chain: seq<Timer<Id>>, log: seq<Entry<Id>>, id: Id)
    requires Good(chain, log)
    ensures Good(Drop(chain, id), log + [Disarmed(id)])
  {
    DropAgrees(chain, Monitor(log), id);
    GoodEntry(log, Disarmed(id), Drop(chain, id));
  }

  /** Away from the wrap of the day counter time just goes on. */
  lemma TickEarly<Id>(s: Sched<Id>, now: nat, k: nat)
    requires now == s.now + 1 && Early(now) && k == FirstDue(s.chain, now)
    ensures Tick(s) == Sched(now, if k < |s.chain| then Take(s.chain, k, now) else s.chain)
    ensures Fires(s) == if k < |s.chain| then Some(s.chain[k].id) else None
    ensures Logged(s, Ticked) == if k < |s.chain| then [Fired(s.chain[k].id, now)] else []
  {
    assert NextMs(s.now) == now;
  }

  lemma TickStepGood<Id>(s: Sched<Id>, log: seq<Entry<Id>>, s': Sched<Id>, log': seq<Entry<Id>>, now: nat)
    requires Good(s.chain, log) && now == s.now + 1 && Early(now)
    requires s' == Tick(s) && log' == log + Logged(s, Ticked)
    ensures Good(s'.chain, log') && s'.now == now
  {
    var k := FirstDue(s.chain, now);
    TickEarly(s, now, k);
    if k < |s.chain| {
      TickGood(s.chain, log, k, now);
    } else {
      assert log' == log;
    }
  }

  lemma RegisterStepGood<Id>(s: Sched<Id>, e: Event<Id>, log: seq<Entry<Id>>, s': Sched<Id>, log': seq<Entry<Id>>)
    requires Good(s.chain, log) && e.Register? && ValidEvent(e) && Early(s.now)
    requires s' == Step(s, e) && log' == log + Logged(s, e)
    ensures Good(s'.chain, log') && s'.now == s.now
  {
    var t := Timer(e.id, Deadline(s.now, e.sec, e.msec), e.sec, e.msec, e.recurring);
    RegisterGood(s.chain, log, s.now, t, s'.chain, log');
  }

  lemma UnregisterStepGood<Id>(s: Sched<Id>, e: Event<Id>, log: seq<Entry<Id>>, s': Sched<Id>, log': seq<Entry<Id>>)
    requires Good(s.chain, log) && e.Unregister?
    requires s' == Step(s, e) && log' == log + Logged(s, e)
    ensures Good(s'.chain, log') && s'.now == s.now
  {
    UnregisterGood(s.chain, log, e.id);
  }

  lemma StepGood<Id>(s: Sched<Id>, e: Event<Id>, log: seq<Entry<Id>>, s': Sched<Id>, log': seq<Entry<Id>>)
    requires Good(s.chain, log) && ValidEvent(e) && Early(s.now + 1)
    requires s' == Step(s, e) && log' == log + Logged(s, e)
    ensures Good(s'.chain, log') && s.now <= s'.now <= s.now + 1
  {
    if e.Register? {
      RegisterStepGood(s, e, log, s', log');
    } else if e.Unregister? {
      UnregisterStepGood(s, e, log, s', log');
    } else {
      TickStepGood(s, log, s', log', s.now + 1);
    }
  }

  /** In every run that starts with an empty chain and stays clear of the wrap of the day
      counter, no callback fires unless it is armed and its delay has passed since it was
      registered or last fired, and the chain holds exactly the armed callbacks. */
  lemma {:induction false} RunLawful<Id>(s: Sched<Id>, events: seq<Event<Id>>)
    requires s.chain == [] && Early(s.now + |events|)
    requires forall i :: 0 <= i < |events| ==> ValidEvent(events[i])
    ensures Good(After(s, events).chain, LogOf(s, events))
    ensures s.now <= After(s, events).now <= s.now + |events|
    decreases |events|
  {
    if events != [] {
      var before, e := events[..|events| - 1], events[|events| - 1];
      RunLawful(s, before);
      StepGood(After(s, before), e, LogOf(s, before), After(s, events), LogOf(s, events));
    }
  }

  // ------------------------------------------------ what a lawful log means

  /** Entries about other callbacks do not touch this one. */
  lemma {:induction false} Undisturbed<Id>(log: seq<Entry<Id>>, i: nat, j: nat, id: Id)
    requires i <= j <= |log|
    requires forall k :: i <= k < j ==> log[k].id != id
    ensures id in Monitor(log[..i]) <==> id in Monitor(log[..j])
    ensures id in Monitor(log[..i]) ==> Monitor(log[..j])[id] == Monitor(log[..i])[id]
  {
    if i < j {
      Undisturbed(log, i, j - 1, id);
      MonitorNext(log, j - 1);
    }
  }

  lemma MonitorNext<Id>(log: seq<Entry<Id>>, i: nat)
    requires i < |log|
    ensures Monitor(log[..i + 1]) == Observe(Monitor(log[..i]), log[i])
  {
    assert log[..i + 1][..i] == log[..i];
  }

  /** Two firings of a callback with nothing else about it in between: it recurs, and
      they are at least its period apart. */
  lemma FiringsApart<Id>(log: seq<Entry<Id>>, i: nat, j: nat)
    requires Lawful(log) && i < j < |log|
    requires log[i].Fired? && log[j].Fired? && log[i].id == log[j].id
    requires forall k :: i < k < j ==> log[k].id != log[i].id
    ensures log[i].id in Monitor(log[..i])
    ensures var a := Monitor(log[..i])[log[i].id];
            a.recurring && log[i].at + a.delay <= log[j].at
  {
    var id := log[i].id;
    assert Allowed(Monitor(log[..i]), log[i]) && Allowed(Monitor(log[..j]), log[j]);
    MonitorNext(log, i);
    Undisturbed(log, i + 1, j, id);
  }

  /** The first entry about id from i on, before j. */
  lemma FirstAbout<Id>(log: seq<Entry<Id>>, i: nat, j: nat, id: Id) returns (k: nat)
    requires i <= j < |log| && log[j].id == id
    ensures i <= k <= j && log[k].id == id
    ensures forall x :: i <= x < k ==> log[x].id != id
  {
    k := i;
    while log[k].id != id
      invariant i <= k <= j
      invariant forall x :: i <= x < k ==> log[x].id != id
      decreases j - k
    {
      k := k + 1;
    }
  }

  /** A callback that is not armed does not fire again before it is registered. */
  lemma {:induction false} NotArmedNotFired<Id>(log: seq<Entry<Id>>, i: nat, j: nat, id: Id)
    requires Lawful(log) && i <= j < |log| && id !in Monitor(log[..i])
    requires log[j].Fired? && log[j].id == id
    ensures exists k :: i <= k < j && log[k].Armed? && log[k].id == id
    decreases j - i
  {
    var k := FirstAbout(log, i, j, id);
    Undisturbed(log, i, k, id);
    assert Allowed(Monitor(log[..k]), log[k]);
    if !log[k].Armed? {
      MonitorNext(log, k);
      NotArmedNotFired(log, k + 1, j, id);
    }
  }

  /** A one-shot callback fires at most once per registration. */
  lemma OneShotOnce<Id>(log: seq<Entry<Id>>, i: nat, j: nat)
    requires Lawful(log) && i < j < |log|
    requires log[i].Fired? && log[j].Fired? && log[i].id == log[j].id
    ensures log[i].id in Monitor(log[..i])
    ensures !Monitor(log[..i])[log[i].id].recurring ==>
      exists k :: i < k < j && log[k].Armed? && log[k].id == log[i].id
  {
    assert Allowed(Monitor(log[..i]), log[i]);
    if !Monitor(log[..i])[log[i].id].recurring {
      MonitorNext(log, i);
      NotArmedNotFired(log, i + 1, j, log[i].id);
    }
  }
}
