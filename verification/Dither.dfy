/** Software dithering: an error accumulator that turns a power level into a stream of on/off outputs. */
module Dither {
  import opened Bits

  const WRAP := 0x1_0000

  datatype Op = Set(power: nat) | Animate

  /** Counter and power level, with the outputs so far and the sum of the powers they used. */
  datatype Run = Run(counter: nat, power: nat, outputs: seq<bool>, used: nat)

  /** Sum of two 16-bit values in 16 bits. */
  function Add16(a: nat, b: nat): nat {
    if a + b >= WRAP then a + b - WRAP else a + b
  }

  /** Counter after one animation step, and the output. */
  function Accumulate(counter: nat, power: nat, max: nat): (r: (nat, bool)) {
    var sum := Add16(counter, power);
    if sum >= max then (sum - max, true) else (sum, false)
  }

  function Apply(r: Run, max: nat, op: Op): Run {
    match op
    case Set(p) => r.(power := p)
    case Animate =>
      var (c, high) := Accumulate(r.counter, r.power, max);
      Run(c, r.power, r.outputs + [high], r.used + r.power)
  }

  /** A whole run from the initial state. */
  function After(max: nat, ops: seq<Op>): Run {
    if ops == [] then Run(0, 0, [], 0) else Apply(After(max, ops[..|ops| - 1]), max, ops[|ops| - 1])
  }

  function Ones(outputs: seq<bool>): nat {
    if outputs == [] then 0
    else Ones(outputs[..|outputs| - 1]) + if outputs[|outputs| - 1] then 1 else 0
  }

  /** No power level exceeds max. */
  predicate Legal(max: nat, ops: seq<Op>) {
    forall i :: 0 <= i < |ops| && ops[i].Set? ==> ops[i].power <= max
  }

  /** What was put in is either in the counter or has come out. */
  predicate Conserves(r: Run, max: nat) {
    r.counter + max * Ones(r.outputs) == r.used
  }

  lemma {:induction false} Conservation(max: nat, ops: seq<Op>)
    requires 0 < max <= 0x8000 && Legal(max, ops)
    ensures var r := After(max, ops);
            r.counter < max && r.power <= max && Conserves(r, max)
  {
    if ops != [] {
      var n := |ops| - 1;
      Conservation(max, ops[..n]);
      var r := After(max, ops[..n]);
      assert ops[n] == ops[n];
      if ops[n].Animate? {
        OneStep(r, max);
      }
    }
  }

  lemma OneStep(r: Run, max: nat)
    requires 0 < max <= WRAP / 2 && r.counter < max && r.power <= max && Conserves(r, max)
    ensures var s := Apply(r, max, Animate);
            s.counter < max && s.power <= max && Conserves(s, max)
  {
    OnesMore(r.outputs, Accumulate(r.counter, r.power, max).1, max);
  }

  /** The documented limit is the largest that conserves: beyond it some legal run loses power. */
  lemma LimitIsTight(max: nat) returns (ops: seq<Op>)
    requires 0x8000 < max < 0x1_0000
    ensures Legal(max, ops) && !Conserves(After(max, ops), max)
  {
    ops := [Set(max - 1), Animate, Set(max), Animate];
    var one, two, three := ops[..1], ops[..2], ops[..3];
    assert one[..0] == [] && two[..1] == one && three[..2] == two && ops[..3] == three;
    var r0, r1 := After(max, []), After(max, one);
    assert r1 == Run(0, max - 1, [], 0);
    var r2 := After(max, two);
    assert r2 == Run(max - 1, max - 1, [false], max - 1);
    var r3 := After(max, three);
    assert r3 == Run(max - 1, max, [false], max - 1);
    var r4 := After(max, ops);
    assert r4 == Run(2 * max - 1 - WRAP, max, [false, false], 2 * max - 1);
    assert [false, false][..1] == [false] && [false][..0] == [];
  }

  /** Every power level is a 16-bit value. */
  predicate Fits16(ops: seq<Op>) {
    forall i :: 0 <= i < |ops| && ops[i].Set? ==> ops[i].power < 0x1_0000
  }

  /** Whatever the limit and the power levels are, nothing is lost but multiples of 65536. */
  lemma {:induction false} ConservesModulo(max: nat, ops: seq<Op>) returns (lost: nat)
    requires max < 0x1_0000 && Fits16(ops)
    ensures var r := After(max, ops);
            && r.counter < 0x1_0000 && r.power < 0x1_0000
            && r.counter + max * Ones(r.outputs) + 0x1_0000 * lost == r.used
  {
    if ops == [] {
      lost := 0;
    } else {
      var n := |ops| - 1;
      lost := ConservesModulo(max, ops[..n]);
      var r := After(max, ops[..n]);
      assert ops[n] == ops[n];
      if ops[n].Animate? {
        lost := AnyStep(r, max, lost);
      }
    }
  }

  lemma AnyStep(r: Run, max: nat, lost: nat) returns (lost': nat)
    requires max < WRAP && r.counter < WRAP && r.power < WRAP
    requires r.counter + max * Ones(r.outputs) + WRAP * lost == r.used
    ensures var s := Apply(r, max, Animate);
            s.counter < WRAP && s.power < WRAP && s.counter + max * Ones(s.outputs) + WRAP * lost' == s.used
  {
    lost' := lost + if r.counter + r.power >= WRAP then 1 else 0;
    OnesMore(r.outputs, Accumulate(r.counter, r.power, max).1, max);
  }

  lemma OnesMore(outputs: seq<bool>, high: bool, max: nat)
    ensures max * Ones(outputs + [high]) == max * Ones(outputs) + if high then max else 0
  {
    assert (outputs + [high])[..|outputs|] == outputs;
    MulSucc(Ones(outputs), max);
  }

  function Repeat(n: nat): (ops: seq<Op>)
    ensures |ops| == n
  {
    seq(n, _ => Animate)
  }

  /** At constant power exactly the floor of n * power / max of n outputs are high. */
  lemma ConstantPower(max: nat, power: nat, n: nat)
    requires 0 < max <= WRAP / 2 && power <= max
    ensures var r := After(max, [Set(power)] + Repeat(n));
            |r.outputs| == n && Ones(r.outputs) == n * power / max
  {
    var r := After(max, [Set(power)] + Repeat(n));
    Conservation(max, [Set(power)] + Repeat(n));
    ConstantUse(max, power, n);
    DivModUnique(n * power, max, Ones(r.outputs), r.counter);
  }

  lemma {:induction false} ConstantUse(max: nat, power: nat, n: nat)
    ensures var r := After(max, [Set(power)] + Repeat(n));
            r.power == power && |r.outputs| == n && r.used == n * power
  {
    var ops := [Set(power)] + Repeat(n);
    if n == 0 {
      assert ops[..0] == [];
    } else {
      ConstantUse(max, power, n - 1);
      assert ops[..n] == [Set(power)] + Repeat(n - 1);
      assert n * power == (n - 1) * power + power;
    }
  }

  lemma AfterMore(max: nat, ops: seq<Op>, op: Op)
    ensures After(max, ops + [op]) == Apply(After(max, ops), max, op)
  {
    assert (ops + [op])[..|ops|] == ops;
  }

  /** The structure the code updates, with the operations so far and the run they make. */
  class SwDither {
    var counter: nat
    var max: nat
    var power: nat
    ghost var ops: seq<Op>
    ghost var run: Run

    ghost predicate Valid()
      reads this
    {
      && max < WRAP && Fits16(ops) && run == After(max, ops)
      && counter == run.counter < WRAP && power == run.power < WRAP
    }

    /** The limit and the power levels so far are as documented. */
    ghost predicate AsDocumented()
      reads this
    {
      0 < max <= WRAP / 2 && Legal(max, ops)
    }

    constructor (max: nat)
      requires max < WRAP
      ensures Valid() && this.max == max && counter == 0 && power == 0 && ops == []
    {
      this.max, counter, power, ops, run := max, 0, 0, [], Run(0, 0, [], 0);
    }

    method SetPower(p: nat)
      requires Valid() && p < WRAP
      modifies `power, `ops, `run
      ensures Valid() && power == p && ops == old(ops) + [Set(p)]
      ensures AsDocumented() <==> old(AsDocumented()) && p <= max
    {
      AfterMore(max, ops, Set(p));
      power := p;
      ghost var was := ops;
      ops, run := ops + [Set(p)], run.(power := p);
      assert forall i :: 0 <= i < |was| ==> was[i] == ops[i];
      assert ops[|was|] == Set(p);
    }

    /** As long as the documentation is followed, the sum of counter and power stays within 16
        bits and the counter below max. */
    method Step() returns (high: bool)
      requires Valid()
      modifies `counter, `ops, `run
      ensures Valid() && ops == old(ops) + [Animate] && run.outputs == old(run.outputs) + [high]
      ensures run.used == old(run.used) + power
      ensures AsDocumented() <==> old(AsDocumented())
      ensures AsDocumented() ==> old(counter) + power < WRAP && counter < max
      ensures AsDocumented() ==> counter + (if high then max else 0) == old(counter) + power
    {
      AfterMore(max, ops, Animate);
      if AsDocumented() {
        Conservation(max, ops);
      }
      ghost var was := ops;
      ops, run := ops + [Animate], Apply(run, max, Animate);
      assert forall i :: 0 <= i < |was| ==> was[i] == ops[i];
      counter := Add16(counter, power);
      high := counter >= max;
      if high {
        counter := counter - max;
      }
    }
  }
}
