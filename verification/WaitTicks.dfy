/**
 The sleep of mach_wait_quiet in clock ticks: a budget in nanoseconds is rounded up to
 whole ticks in unsigned 64-bit arithmetic and clamped to a positive int.
 */
module WaitTicks {
  import opened Machine

  const NANOSECONDS: nat := 1_000_000_000
  const INT_MAX: nat := 0x7fff_ffff

  predicate Rate(hz: nat) {
    1 <= hz <= NANOSECONDS
  }

  function PerTick(hz: nat): (q: nat)
    requires Rate(hz)
    ensures 1 <= q <= NANOSECONDS && q * hz <= NANOSECONDS < (q + 1) * hz
  {
    NANOSECONDS / hz
  }

  function Clamp(t: nat): nat {
    if t == 0 then 1 else if t > INT_MAX then INT_MAX else t
  }

  /** The argument of tsleep(); no budget means the longest sleep there is. */
  function Ticks(ns: nat, hz: nat): nat
    requires ns < WORD && Rate(hz)
  {
    if ns == 0 then INT_MAX else Clamp((ns + PerTick(hz) - 1) % 0x1_0000_0000_0000_0000 / PerTick(hz))
  }

  /** `t` ticks are enough for `ns`, and no fewer are. */
  ghost predicate LeastEnough(t: nat, ns: nat, hz: nat)
    requires Rate(hz)
  {
    t * PerTick(hz) >= ns && forall u: nat :: u < t ==> u * PerTick(hz) < ns
  }

  function RoundedUp(ns: nat, hz: nat): nat
    requires Rate(hz)
  {
    (ns + PerTick(hz) - 1) / PerTick(hz)
  }

  lemma Scale(a: nat, b: nat, c: nat)
    requires a <= b
    ensures a * c <= b * c
  {
  }

  lemma Divide(x: nat, q: nat)
    requires q > 0
    ensures x / q * q <= x < x / q * q + q
  {
  }

  lemma RoundedUpLeast(ns: nat, hz: nat)
    requires Rate(hz) && ns > 0
    ensures LeastEnough(RoundedUp(ns, hz), ns, hz)
  {
    var q, t := PerTick(hz), RoundedUp(ns, hz);
    Divide(ns + q - 1, q);
    forall u: nat | u < t ensures u * q < ns {
      Scale(u + 1, t, q);
    }
  }

  lemma LeastUnique(t: nat, t': nat, ns: nat, hz: nat)
    requires Rate(hz) && LeastEnough(t, ns, hz) && LeastEnough(t', ns, hz)
    ensures t == t'
  {
  }

  /** Short of a wrap-around of the sum, and only then, the sleep is the least number of
      ticks that covers the budget, as far as an int can hold it. */
  lemma TicksExact(ns: nat, hz: nat, t: nat)
    requires 0 < ns < WORD && Rate(hz) && LeastEnough(t, ns, hz)
    ensures Ticks(ns, hz) == (if t > INT_MAX then INT_MAX else t) <==> ns + PerTick(hz) - 1 < WORD
  {
    var q := PerTick(hz);
    RoundedUpLeast(ns, hz);
    LeastUnique(t, RoundedUp(ns, hz), ns, hz);
    if ns + q - 1 < WORD {
      assert t > 0;
    } else {
      WrapsToOne(ns, hz);
      if t <= INT_MAX {
        Scale(t, INT_MAX, q);
        Scale(q, NANOSECONDS, INT_MAX);
        assert false;
      }
    }
  }

  lemma WrapsToOne(ns: nat, hz: nat)
    requires ns < WORD && Rate(hz) && ns + PerTick(hz) - 1 >= WORD
    ensures Ticks(ns, hz) == 1
  {
    var q := PerTick(hz);
    var r := (ns + q - 1) % 0x1_0000_0000_0000_0000;
    assert r == ns + q - 1 - WORD && r < q;
    Divide(r, q);
    if r / q >= 1 {
      Scale(1, r / q, q);
      assert false;
    }
  }

  /** No budget is no backstop: the sleep is the longest there is. */
  lemma NoBudget(ns: nat, hz: nat)
    requires ns < WORD && Rate(hz)
    ensures Ticks(0, hz) == INT_MAX >= Ticks(ns, hz) >= 1
  {
  }

  lemma LeastMonotone(ta: nat, tb: nat, a: nat, b: nat, hz: nat)
    requires Rate(hz) && a <= b && LeastEnough(ta, a, hz) && LeastEnough(tb, b, hz)
    ensures ta <= tb
  {
  }

  lemma NoWrap(ns: nat, hz: nat)
    requires 0 < ns < WORD && Rate(hz) && ns + PerTick(hz) - 1 < WORD
    ensures Ticks(ns, hz) == Clamp(RoundedUp(ns, hz))
  {
  }

  /** A longer budget never sleeps less, as long as the sum does not wrap around. */
  lemma TicksMonotone(a: nat, b: nat, hz: nat)
    requires 0 < a <= b < WORD && Rate(hz) && b + PerTick(hz) - 1 < WORD
    ensures Ticks(a, hz) <= Ticks(b, hz)
  {
    RoundedUpLeast(a, hz);
    RoundedUpLeast(b, hz);
    LeastMonotone(RoundedUp(a, hz), RoundedUp(b, hz), a, b, hz);
    NoWrap(a, hz);
    NoWrap(b, hz);
  }

  /** Below the clamp the ticks last at least as long as the budget, at the real rate. */
  lemma TicksLongEnough(ns: nat, hz: nat)
    requires 0 < ns < WORD && Rate(hz) && ns + PerTick(hz) - 1 < WORD && Ticks(ns, hz) < INT_MAX
    ensures Ticks(ns, hz) * NANOSECONDS >= ns * hz
  {
    var q, t := PerTick(hz), RoundedUp(ns, hz);
    RoundedUpLeast(ns, hz);
    assert t > 0;
    assert Ticks(ns, hz) == t;
    Scale(ns, t * q, hz);
    Scale(q * hz, NANOSECONDS, t);
    assert t * q * hz == q * hz * t;
  }
}
