/** Turning nanoseconds into clock counts: delays are rounded so that they are never too short, the refresh interval
    so that it is never too long. */
module DdrRounding {
  import opened Arith
  import opened Bits

  const GIGA: nat := 1_000_000_000

  // ---------------------------------------------------------------- command delays

  /** Nanoseconds whose thousandfold fits a machine word, as the program takes it. */
  type Ns = t: nat | t * 1000 < 0x1_0000_0000

  /** Length of a clock cycle in picoseconds, as the program rounds it. */
  function Ps(memClk: u32): (ps: nat)
    requires memClk >= 1000
    ensures ps * (memClk / 1000) <= 1_000_000_000 < (ps + 1) * (memClk / 1000)
  {
    LargestQuotient(GIGA, memClk / 1000);
    GIGA / (memClk / 1000)
  }

  lemma LargestQuotient(v: nat, k: nat)
    requires k > 0
    ensures v / k >= 0
    ensures v / k * k <= v < (v / k + 1) * k
  {
    var q := v / k;
    assert (q + 1) * k == q * k + k;
  }

  /** Cycles of `ps` picoseconds that cover t nanoseconds. */
  function GetValue(t: Ns, ps: nat): nat
    requires ps > 0
  {
    ShrinkingQuotient(t * 1000, ps);
    if t * 1000 % ps == 0 then t * 1000 / ps else t * 1000 / ps + 1
  }

  lemma CountCovers(t: Ns, ps: nat)
    requires ps > 0
    ensures 1000 * t <= GetValue(t, ps) * ps < 1000 * t + ps
  {
    var v := t * 1000;
    var q, r := v / ps, v % ps;
    assert v == q * ps + r;
    assert (q + 1) * ps == q * ps + ps;
  }

  lemma PsPositive(memClk: u32)
    requires memClk >= 1000
    ensures Ps(memClk) > 0
    ensures Ps(memClk) * (memClk / 1000) <= GIGA
  {
    var k := memClk / 1000;
    QuotientIsLargest(GIGA, k, 1);
    QuotientIsLargest(GIGA, k, Ps(memClk));
  }

  /** c cycles last at least t nanoseconds. */
  predicate LongEnough(c: nat, t: nat, memClk: u32) {
    MulMonotone(0, t, memClk);
    t * memClk <= c * GIGA
  }

  lemma CountIsLongEnough(t: Ns, ps: nat, memClk: u32)
    requires ps > 0 && ps * memClk <= 1000 * GIGA
    ensures LongEnough(GetValue(t, ps), t, memClk)
  {
    var c := GetValue(t, ps);
    CountCovers(t, ps);
    MulMonotone(1000 * t, c * ps, memClk);
    MulMonotone(ps * memClk, 1000 * GIGA, c);
    assert (c * ps) * memClk == (ps * memClk) * c;
    assert (1000 * t) * memClk == 1000 * (t * memClk);
    assert (1000 * GIGA) * c == 1000 * (c * GIGA);
  }

  /** Every delay is long enough exactly when the cycle, in whole picoseconds, was not rounded up. */
  lemma DelaysSafeExactly(memClk: u32)
    requires memClk >= 1000
    ensures Ps(memClk) > 0
    ensures Ps(memClk) * memClk <= 1000 * GIGA <==> forall t: Ns :: LongEnough(GetValue(t, Ps(memClk)), t, memClk)
  {
    PsPositive(memClk);
    var ps := Ps(memClk);
    if ps * memClk <= 1000 * GIGA {
      forall t: Ns
        ensures LongEnough(GetValue(t, ps), t, memClk)
      {
        CountIsLongEnough(t, ps, memClk);
      }
    } else if memClk >= 233_000 {
      QuotientIsLargest(GIGA, memClk / 1000, 4_291_846);
      assert (memClk / 1000) >= 233;
      assert 4_291_846 * (memClk / 1000) > GIGA;
      DivModUnique(ps * 1000, ps, 1000, 0);
      assert GetValue(ps, ps) == 1000;
      assert !LongEnough(GetValue(ps, ps), ps, memClk);
    } else {
      var t := ShortDelay(memClk);
      assert !LongEnough(GetValue(t, ps), t, memClk);
    }
  }

  /** Below 233 kHz a cycle lasts too long for a thousand of them to be asked for: of a clock of k kHz and a
      fraction, 4 k cycles show the loss. */
  lemma ShortDelay(memClk: u32) returns (t: Ns)
    requires 1000 <= memClk < 233_000 && Ps(memClk) > 0 && Ps(memClk) * memClk > 1000 * GIGA
    ensures !LongEnough(GetValue(t, Ps(memClk)), t, memClk)
  {
    var k, ps := memClk / 1000, Ps(memClk);
    assert memClk % 1000 > 0 by {
      if memClk % 1000 == 0 { WholeKilohertz(memClk); }
    }
    var cycles := AlmostGiga(k, ps);
    t := 4 * cycles / 1000;
    var c := GetValue(t, ps);
    CountAtMost(t, ps, k, cycles);
    LossShows(memClk, k, t);
    MulMonotone(c, 4 * k, GIGA);
  }

  lemma AlmostGiga(k: nat, ps: nat) returns (cycles: nat)
    requires k > 0 && ps == GIGA / k
    ensures cycles == k * ps && GIGA - k + 1 <= cycles <= GIGA
  {
    cycles := k * ps;
    QuotientIsLargest(GIGA, k, ps);
    QuotientIsLargest(GIGA, k, ps + 1);
    assert (ps + 1) * k == cycles + k;
  }

  lemma CountAtMost(t: Ns, ps: nat, k: nat, cycles: nat)
    requires ps > 0 && cycles == k * ps && 1000 * t <= 4 * cycles
    ensures GetValue(t, ps) <= 4 * k
  {
    var c := GetValue(t, ps);
    CountCovers(t, ps);
    assert (4 * k + 1) * ps == 4 * cycles + ps;
    if c > 4 * k {
      MulMonotone(4 * k + 1, c, ps);
    }
  }

  lemma LossShows(memClk: u32, k: nat, t: nat)
    requires 1 <= k < 233 && memClk >= 1000 * k + 1 && 1000 * t + 999 >= 4 * (GIGA - k + 1)
    ensures t * memClk > 4 * k * GIGA
  {
    MulMonotone(3_999_998, t, memClk);
    assert t >= 3_999_998;
    assert 3_999_998 * (1000 * k + 1) > 4 * k * GIGA;
  }

  /** A clock of whole kHz is never rounded up. */
  lemma WholeKilohertz(memClk: u32)
    requires memClk >= 1000 && memClk % 1000 == 0
    ensures Ps(memClk) * memClk <= 1000 * GIGA
  {
    PsPositive(memClk);
    assert memClk == 1000 * (memClk / 1000);
    assert Ps(memClk) * (1000 * (memClk / 1000)) == 1000 * (Ps(memClk) * (memClk / 1000));
  }

  /** Another clock can be: at 200.000999 MHz a delay of 5000 ns gets 1000 cycles, which are over too early. */
  lemma FractionalKilohertz()
    ensures GetValue(5000, Ps(200_000_999)) == 1000 && !LongEnough(1000, 5000, 200_000_999)
  {
    assert Ps(200_000_999) == 5000;
  }

  // ---------------------------------------------------------------- refresh interval

  function NsInt(memClk: u32): nat
    requires memClk > 0
  {
    ShrinkingQuotient(GIGA, memClk);
    if GIGA % memClk == 0 then GIGA / memClk else GIGA / memClk + 1
  }

  lemma NsIntCovers(memClk: u32)
    requires memClk > 0
    ensures GIGA <= NsInt(memClk) * memClk < GIGA + memClk && NsInt(memClk) > 0
  {
    var q, r := GIGA / memClk, GIGA % memClk;
    assert GIGA == q * memClk + r;
    assert (q + 1) * memClk == q * memClk + memClk;
    assert 0 * memClk == 0;
  }

  /** Clock cycles in one tick of the refresh counter. */
  function Tick(clkDiv: nat): (tick: nat)
    ensures tick == 16 * Pow2(clkDiv)
  {
    ShlIsProduct(1, clkDiv, Pow2(clkDiv));
    16 * Shl(1, clkDiv)
  }

  /** The constant stored for the refresh counter, which counts from 0 up to it. */
  function RefreshCount(tRefi: u32, tick: nat, memClk: u32): nat
    requires memClk > 0 && tick > 0
  {
    NsIntCovers(memClk);
    ShrinkingQuotient(tRefi, NsInt(memClk));
    ShrinkingQuotient(tRefi / NsInt(memClk), tick);
    var tmp := Wrap(tRefi / NsInt(memClk) / tick - 1);
    var capped := if tmp > 0xfff then 0xfff else tmp;
    if capped < 1 then 1 else capped
  }

  /** c + 1 ticks end within the refresh interval. */
  predicate OnTime(c: nat, tRefi: u32, tick: nat, memClk: u32) {
    (c + 1) * tick * GIGA <= tRefi * memClk
  }

  lemma TickPositive(clkDiv: nat)
    ensures Tick(clkDiv) >= 16
  {
    ShlPositive(clkDiv);
  }

  lemma {:induction false} ShlPositive(n: nat)
    ensures Shl(1, n) >= 1
  {
    if n > 0 {
      ShlPositive(n - 1);
    }
  }

  /** With room for two ticks the count is the largest that fits, by the rounded cycle, unless it meets the cap. */
  lemma RefreshCountIsLargest(tRefi: u32, tick: nat, memClk: u32)
    requires memClk > 0 && tick > 0 && tRefi / NsInt(memClk) >= 2 * tick
    ensures var c := RefreshCount(tRefi, tick, memClk);
            && (c + 1) * tick * NsInt(memClk) <= tRefi
            && (c < 0xfff ==> tRefi < (c + 2) * tick * NsInt(memClk))
  {
    var c, ns := RefreshCount(tRefi, tick, memClk), NsInt(memClk);
    NsIntCovers(memClk);
    var a, b := (c + 1) * tick, (c + 2) * tick;
    CountInTicks(tRefi, tick, memClk, c);
    assert a * ns <= tRefi by { QuotientIsLargest(tRefi, ns, a); }
    assert c < 0xfff ==> tRefi < b * ns by { QuotientIsLargest(tRefi, ns, b); }
  }

  lemma CountInTicks(tRefi: u32, tick: nat, memClk: u32, c: nat)
    requires memClk > 0 && tick > 0 && tRefi / NsInt(memClk) >= 2 * tick && c == RefreshCount(tRefi, tick, memClk)
    ensures (c + 1) * tick <= tRefi / NsInt(memClk)
    ensures c < 0xfff ==> tRefi / NsInt(memClk) < (c + 2) * tick
  {
    NsIntCovers(memClk);
    ShrinkingQuotient(tRefi, NsInt(memClk));
    var v := tRefi / NsInt(memClk);
    ShrinkingQuotient(v, tick);
    var q := v / tick;
    assert q >= 2 by { QuotientIsLargest(v, tick, 2); }
    assert c == if q - 1 > 0xfff then 0xfff else q - 1;
    assert (c + 1) * tick <= v by { QuotientIsLargest(v, tick, c + 1); }
    assert c < 0xfff ==> v < (c + 2) * tick by { QuotientIsLargest(v, tick, c + 2); }
  }

  lemma RoomEnough(tRefi: u32, tick: nat, memClk: u32)
    requires memClk > 0 && tick > 0 && tRefi / NsInt(memClk) >= 2 * tick
    ensures OnTime(RefreshCount(tRefi, tick, memClk), tRefi, tick, memClk)
    ensures 2 * tick * GIGA <= tRefi * memClk
  {
    var c, ns := RefreshCount(tRefi, tick, memClk), NsInt(memClk);
    RefreshCountIsLargest(tRefi, tick, memClk);
    NsIntCovers(memClk);
    var a := (c + 1) * tick;
    QuotientIsLargest(tRefi, ns, 2 * tick);
    TicksInTime(a, ns, tRefi, memClk);
    TicksInTime(2 * tick, ns, tRefi, memClk);
  }

  lemma TicksInTime(a: nat, ns: nat, tRefi: nat, memClk: nat)
    requires a * ns <= tRefi && GIGA <= ns * memClk
    ensures a * GIGA <= tRefi * memClk
  {
    MulMonotone(GIGA, ns * memClk, a);
    MulMonotone(a * ns, tRefi, memClk);
    assert (ns * memClk) * a == (a * ns) * memClk;
  }

  /** Without room for a single tick the count underflows to the cap, and the interval is overshot by far. */
  lemma RoomMissing(tRefi: u32, tick: nat, memClk: u32)
    requires memClk > 0 && tick > 0 && tRefi / NsInt(memClk) < tick
    ensures RefreshCount(tRefi, tick, memClk) == 0xfff
    ensures tRefi * memClk < 6 * tick * GIGA
    ensures memClk <= GIGA ==> tRefi * memClk < 2 * tick * GIGA
  {
    var ns := NsInt(memClk);
    NsIntCovers(memClk);
    QuotientIsLargest(tRefi / ns, tick, 1);
    ShrinkingQuotient(tRefi, ns);
    ShrinkingQuotient(tRefi / ns, tick);
    QuotientIsLargest(tRefi, ns, tick);
    OvershotBy(tRefi, tick, ns, memClk, if memClk <= GIGA then 2 else 6);
  }

  lemma OvershotBy(tRefi: nat, tick: nat, ns: nat, memClk: nat, factor: nat)
    requires tick > 0 && tRefi < tick * ns && ns * memClk < factor * GIGA
    ensures tRefi * memClk < factor * tick * GIGA
  {
    MulMonotone(tRefi, tick * ns, memClk);
    assert (tick * ns) * memClk == (ns * memClk) * tick;
    MulMonotone(ns * memClk, factor * GIGA - 1, tick);
    assert (factor * GIGA - 1) * tick == (factor * GIGA) * tick - tick;
    assert (factor * GIGA) * tick == factor * tick * GIGA;
  }

  /** c as the eight bits of its register field keep it. */
  function StoredCount(c: nat): nat {
    c % 0x100
  }

  /** Two counter ticks fit into the interval, and one of them does by the rounded cycle. */
  predicate RoomForTwo(tRefi: u32, tick: nat, memClk: u32)
    requires memClk > 0
  {
    NsIntCovers(memClk);
    tick <= tRefi / NsInt(memClk) && 2 * tick * GIGA <= tRefi * memClk
  }

  /** The refresh comes in time exactly when there is that room; both for the count and for what its register field
      keeps of it. */
  lemma RefreshOnTimeExactly(tRefi: u32, tick: nat, memClk: u32)
    requires memClk > 0 && tick > 0
    ensures var c := RefreshCount(tRefi, tick, memClk);
            && (OnTime(c, tRefi, tick, memClk) <==> RoomForTwo(tRefi, tick, memClk))
            && (OnTime(StoredCount(c), tRefi, tick, memClk) <==> RoomForTwo(tRefi, tick, memClk))
  {
    NsIntCovers(memClk);
    var v, c := tRefi / NsInt(memClk), RefreshCount(tRefi, tick, memClk);
    if v >= 2 * tick {
      RoomEnough(tRefi, tick, memClk);
      SmallerIsOnTime(StoredCount(c), c, tRefi, tick, memClk);
    } else if v < tick {
      RoomMissing(tRefi, tick, memClk);
      TooLate(c, tRefi, tick, memClk);
      TooLate(StoredCount(c), tRefi, tick, memClk);
    } else {
      QuotientIsLargest(v, tick, 1);
      QuotientIsLargest(v, tick, 2);
      assert c == 1;
    }
  }

  lemma SmallerIsOnTime(b: nat, c: nat, tRefi: u32, tick: nat, memClk: u32)
    requires b <= c && OnTime(c, tRefi, tick, memClk)
    ensures OnTime(b, tRefi, tick, memClk)
  {
    MulMonotone(b + 1, c + 1, tick * GIGA);
    assert (b + 1) * tick * GIGA == (b + 1) * (tick * GIGA) && (c + 1) * tick * GIGA == (c + 1) * (tick * GIGA);
  }

  lemma TooLate(c: nat, tRefi: u32, tick: nat, memClk: u32)
    requires c >= 5 && tRefi * memClk < 6 * tick * GIGA
    ensures !OnTime(c, tRefi, tick, memClk)
  {
    MulMonotone(6, c + 1, tick * GIGA);
    assert (c + 1) * tick * GIGA == (c + 1) * (tick * GIGA) && 6 * tick * GIGA == 6 * (tick * GIGA);
  }

  /** Up to 1 GHz the two ticks alone decide. */
  lemma TwoTicksDecide(tRefi: u32, tick: nat, memClk: u32)
    requires 0 < memClk <= GIGA && tick > 0
    ensures RoomForTwo(tRefi, tick, memClk) <==> 2 * tick * GIGA <= tRefi * memClk
  {
    if tRefi / NsInt(memClk) < tick {
      RoomMissing(tRefi, tick, memClk);
    }
  }

  /** The count's register field has eight bits although the cap has twelve: the count fits exactly when between one
      and 256 ticks of rounded cycles fit into the interval. */
  lemma RefreshCountFits(tRefi: u32, tick: nat, memClk: u32)
    requires memClk > 0 && tick > 0
    ensures RefreshCount(tRefi, tick, memClk) <= 0xff <==> tick <= tRefi / NsInt(memClk) < 257 * tick
  {
    NsIntCovers(memClk);
    ShrinkingQuotient(tRefi, NsInt(memClk));
    var v := tRefi / NsInt(memClk);
    ShrinkingQuotient(v, tick);
    var q := v / tick;
    assert q >= 1 <==> v >= tick by { QuotientIsLargest(v, tick, 1); }
    assert q < 257 <==> v < 257 * tick by { QuotientIsLargest(v, tick, 257); }
  }
}
