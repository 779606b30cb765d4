/** The JZ4760 search against true frequencies: when overflow leads it astray, and when it does not. */
module Pll4760Exact {
  import opened Arith
  import opened Bits
  import opened Pll
  import opened Pll4760

  // ---------------------------------------------------------------- true frequencies

  /** The frequency of a setting, in whole Hertz, free of wrap-around. */
  function TrueOutput(xtal: u32, s: Setting): nat
    requires s.od < 4 && s.n >= 2
  {
    DividerPositive(s);
    MulMonotone(0, 2 * s.m, xtal);
    ShrinkingQuotient(xtal * (2 * s.m), s.n * OutputDivider(s.od));
    xtal * (2 * s.m) / (s.n * OutputDivider(s.od))
  }

  lemma DividerPositive(s: Setting)
    requires s.od < 4 && s.n >= 2
    ensures s.n * OutputDivider(s.od) > 0
  {
    MulMonotone(2, s.n, OutputDivider(s.od));
  }

  predicate TrueOdLegal(speed: u32, od: nat) {
    od < 4 && 500 * MHZ <= speed * OutputDivider(od) <= 1500 * MHZ
  }

  predicate TrueLegal(speed: u32, xtal: u32, s: Setting) {
    TrueOdLegal(speed, s.od) && NLegal(xtal, s.n) && M_MIN <= s.m <= M_MAX
  }

  /** The limits in plain numbers, free of wrap-around. */
  lemma TrueLegalExactly(speed: u32, xtal: u32, s: Setting)
    ensures TrueLegal(speed, xtal, s) <==>
            && s.od < 4 && 500_000_000 <= speed * Pow2(s.od) <= 1_500_000_000
            && 2 <= s.n <= 15 && 1_000_000 * s.n <= xtal < 15_000_001 * s.n
            && 4 <= s.m <= 127
  {
    if 2 <= s.n <= 15 {
      QuotientIsLargest(xtal, s.n, 1_000_000);
      QuotientIsLargest(xtal, s.n, 15_000_001);
    }
  }

  function TrueDistance(speed: u32, xtal: u32, s: Setting): nat
    requires s.od < 4 && s.n >= 2
  {
    var f := TrueOutput(xtal, s);
    if f > speed then f - speed else speed - f
  }

  ghost predicate TrulyClosest(speed: u32, xtal: u32, s: Setting) {
    && TrueLegal(speed, xtal, s)
    && forall t: Setting | TrueLegal(speed, xtal, t) :: TrueDistance(speed, xtal, s) <= TrueDistance(speed, xtal, t)
  }

  /** Whatever the search comes to is right: a truly closest setting, or none where none is legal. */
  ghost predicate GetsClosest(speed: u32, xtal: u32) {
    forall c: SettingChoice | SearchResult(speed, xtal, c) ::
      match c
      case NoChoice => forall t: Setting :: !TrueLegal(speed, xtal, t)
      case Chosen(s) => TrulyClosest(speed, xtal, s)
  }

  // ---------------------------------------------------------------- where the machine's arithmetic is exact

  lemma ExactOd(speed: u32, od: nat)
    requires od < 4 && speed * OutputDivider(od) < 0x1_0000_0000
    ensures OdLegal(speed, od) <==> TrueOdLegal(speed, od)
  {
    MulMonotone(0, speed, OutputDivider(od));
    DivModUnique(speed * OutputDivider(od), 0x1_0000_0000, 0, speed * OutputDivider(od));
  }

  /** The frequency that the search expects of a setting is the true one exactly when its product fits 32 bits. */
  lemma OutputTrueExactly(xtal: u32, s: Setting)
    requires s.od < 4 && N_MIN <= s.n <= N_MAX && M_MIN <= s.m <= M_MAX
    ensures Output(xtal, s) == TrueOutput(xtal, s) <==> xtal * (2 * s.m) < 0x1_0000_0000
  {
    var no := OutputDivider(s.od);
    DividerPositive(s);
    MulMonotone(s.n, N_MAX, no);
    TwoDivisions(xtal, s);
    MulMonotone(0, 2 * s.m, xtal);
    assert xtal * (2 * s.m) == xtal * (s.m * 2);
    OverflowShows(xtal * (2 * s.m), s.n * no);
  }

  lemma OverflowShows(product: nat, divider: nat)
    requires 0 < divider <= 120
    ensures product % 0x1_0000_0000 / divider == product / divider <==> product < 0x1_0000_0000
  {
    var b := product % 0x1_0000_0000;
    if product >= 0x1_0000_0000 {
      QuotientIsLargest(b, divider, b / divider);
      QuotientIsLargest(product, divider, b / divider + 1);
      assert (b / divider + 1) * divider == b / divider * divider + divider;
    }
  }

  /** The crystal is slow enough for every product of the search. */
  predicate SlowCrystal(xtal: u32) {
    xtal * 254 < 0x1_0000_0000
  }

  lemma ExactOutput(xtal: u32, s: Setting)
    requires SlowCrystal(xtal) && s.od < 4 && N_MIN <= s.n <= N_MAX && M_MIN <= s.m <= M_MAX
    ensures Output(xtal, s) == TrueOutput(xtal, s)
  {
    OutputTrueExactly(xtal, s);
    MulMonotone(2 * s.m, 254, xtal);
  }

  // ---------------------------------------------------------------- enough: no product overflows

  /** An output divider that is legal only because speed * divider wrapped: the search visits it in vain, for a
      setting with divider 1, visited earlier, is at least as close. */
  lemma StrayLoses(speed: u32, xtal: u32, s: Setting) returns (t: Setting)
    requires SlowCrystal(xtal) && speed <= 1500 * MHZ
    requires Legal(speed, xtal, s) && !TrueOdLegal(speed, s.od)
    ensures Legal(speed, xtal, t) && Before(t, s) && Distance(speed, xtal, t) <= Distance(speed, xtal, s)
  {
    var f, no := Output(xtal, s), OutputDivider(s.od);
    StrayDivider(speed, s.od);
    StrayIsLow(xtal, s);
    DividerTwo(xtal, s.n);
    var m := FloorMultiple(speed, xtal, f, no);
    t := Setting(0, 2, m);
    assert OdLegal(speed, 0) by { ExactOd(speed, 0); }
    assert Output(xtal, t) == m * xtal by { ShortRow(xtal, m); }
  }

  /** The largest multiple of the crystal frequency, up to 127, that does not exceed the speed. */
  lemma FloorMultiple(speed: u32, xtal: u32, f: nat, no: nat) returns (m: nat)
    requires no in {4, 8} && speed * no >= 0x1_0000_0000 && f * no <= 127 * xtal
    requires 2 * MHZ <= xtal && SlowCrystal(xtal)
    ensures M_MIN <= m <= M_MAX && f <= m * xtal <= speed
    ensures speed >= 500 * MHZ && f <= speed
  {
    var q := speed / xtal;
    QuotientIsLargest(speed, xtal, 31);
    QuotientIsLargest(speed, xtal, q);
    QuotientIsLargest(speed, xtal, q + 1);
    assert (q + 1) * xtal == q * xtal + xtal;
    if q < 127 {
      m := q;
    } else {
      m := 127;
      MulMonotone(127, q, xtal);
    }
    if no == 4 {
      assert f * 4 <= 127 * xtal;
    } else {
      assert f * 8 <= 127 * xtal;
    }
  }

  lemma DividerTwo(xtal: u32, n: nat)
    requires NLegal(xtal, n) && SlowCrystal(xtal)
    ensures NLegal(xtal, 2) && 2 * MHZ <= xtal
  {
    LargerDivisor(xtal, 2, n);
  }

  lemma ShortRow(xtal: u32, m: nat)
    requires SlowCrystal(xtal) && m <= M_MAX
    ensures Output(xtal, Setting(0, 2, m)) == m * xtal
  {
    var x := m * xtal;
    MulMonotone(m, 127, xtal);
    MulMonotone(0, m, xtal);
    assert xtal * (m * 2) == 2 * x;
    assert 2 * x % 0x1_0000_0000 == 2 * x;
    assert 2 * x / 2 / 1 == x;
  }

  lemma StrayDivider(speed: u32, od: nat)
    requires speed <= 1500 * MHZ && OdLegal(speed, od) && !TrueOdLegal(speed, od)
    ensures od >= 2 && speed * OutputDivider(od) >= 0x1_0000_0000
  {
    if speed * OutputDivider(od) < 0x1_0000_0000 {
      ExactOd(speed, od);
    }
  }

  lemma StrayIsLow(xtal: u32, s: Setting)
    requires SlowCrystal(xtal) && s.od < 4 && N_MIN <= s.n <= N_MAX && M_MIN <= s.m <= M_MAX
    ensures Output(xtal, s) * OutputDivider(s.od) <= 127 * xtal
  {
    ExactOutput(xtal, s);
    DividerPositive(s);
    MulMonotone(2 * s.m, 254, xtal);
    QuotientTimesFactor(xtal * (2 * s.m), s.n, OutputDivider(s.od), 127 * xtal);
  }

  lemma QuotientTimesFactor(product: nat, n: nat, no: nat, bound: nat)
    requires n >= 2 && no > 0 && n * no > 0 && product <= 2 * bound
    ensures product / (n * no) * no <= bound
  {
    var f := product / (n * no);
    QuotientIsLargest(product, n * no, f);
    MulMonotone(0, f, no);
    MulMonotone(2, n, f * no);
    assert f * (n * no) == n * (f * no);
  }

  lemma TrueIsLegal(speed: u32, xtal: u32, t: Setting)
    requires TrueLegal(speed, xtal, t)
    ensures Legal(speed, xtal, t)
  {
    ExactOd(speed, t.od);
  }

  /** With a slow enough crystal the search is right for every speed up to 1500 MHz, although the products with the
      output divider may wrap. */
  lemma GuardSuffices(speed: u32, xtal: u32)
    requires SlowCrystal(xtal) && speed <= 1500 * MHZ
    ensures GetsClosest(speed, xtal)
  {
    forall t: Setting | TrueLegal(speed, xtal, t)
      ensures Legal(speed, xtal, t) && Before(t, END) && Distance(speed, xtal, t) == TrueDistance(speed, xtal, t)
    {
      TrueIsLegal(speed, xtal, t);
      ExactOutput(xtal, t);
    }
    forall s: Setting | BestBefore(speed, xtal, END, s)
      ensures TrulyClosest(speed, xtal, s)
    {
      ExactOutput(xtal, s);
      if !TrueOdLegal(speed, s.od) {
        var t := StrayLoses(speed, xtal, s);
        assert false;
      }
    }
  }

  // ---------------------------------------------------------------- necessary: any faster crystal is misled

  /** Two fractions of x with the same whole part are equal, for denominators that are small beside x. */
  lemma SameRatio(x: nat, m: nat, d: nat, p: nat, e: nat)
    requires x > 900 && 0 < d <= 30 && 0 < e <= 30 && x * m / d == x * p / e
    ensures m * e == p * d
  {
    var u, v, gap := x * m, x * p, m * e - p * d;
    CrossBound(u, d, v, e);
    CrossBound(v, e, u, d);
    assert u * e - v * d == x * gap;
    MulMonotone(d, 30, e);
    if gap > 0 { MulMonotone(1, gap, x); }
    if gap < 0 { MulMonotone(1, -gap, x); }
  }

  lemma CrossBound(u: nat, d: nat, v: nat, e: nat)
    requires d > 0 && e > 0 && u / d == v / e
    ensures u * e - v * d < d * e
  {
    var q := u / d;
    assert u < q * d + d by {
      QuotientIsLargest(u, d, q + 1);
      assert (q + 1) * d == q * d + d;
    }
    assert q * e <= v by { QuotientIsLargest(v, e, q); }
    MulMonotone(u + 1, q * d + d, e);
    MulMonotone(q * e, v, d);
    assert (u + 1) * e == u * e + e;
    assert (q * d + d) * e == (q * e) * d + d * e;
  }

  /** Dividers 2n and feedback p in lowest terms, as far as legal settings can tell. */
  predicate ProbeDividers(n: nat, p: nat) {
    (n in {4, 6, 9, 13, 15} && p == 127) || (n == 15 && p in {47, 61, 89})
  }

  lemma ProbeIsReduced(n: nat, p: nat, m: nat, d: nat)
    requires ProbeDividers(n, p) && m * (2 * n) == p * d && 0 < d <= 30 && M_MIN <= m <= M_MAX
    ensures m == p && d == 2 * n
  {
    if p == 127 {
      LargeProbe(2 * n, m, d);
    } else {
      SmallProbe(p, m, d);
    }
  }

  lemma LargeProbe(e: nat, m: nat, d: nat)
    requires e in {8, 12, 18, 26, 30} && m * e == 127 * d && d > 0 && m <= M_MAX
    ensures m == 127 && d == e
  {
    if e == 8 {} else if e == 12 {} else if e == 18 {} else if e == 26 {} else {}
  }

  lemma SmallProbe(p: nat, m: nat, d: nat)
    requires p in {47, 61, 89} && m * 30 == p * d && 0 < d <= 30
    ensures m == p && d == 30
  {
    if p == 47 {} else if p == 61 {} else {}
  }

  /** The frequency that the probe asks for: the true output of Setting(1, n, p). */
  predicate ProbeSpeed(xtal: u32, n: nat, p: nat, speed: u32) {
    && ProbeDividers(n, p) && NLegal(xtal, n) && xtal * (2 * p) >= 0x1_0000_0000
    && speed == xtal * (2 * p) / (2 * n)
    && 500 * MHZ <= speed <= 750 * MHZ
  }

  /** Only the probed setting meets that frequency. */
  lemma OnlyHit(xtal: u32, n: nat, p: nat, speed: u32, s: Setting)
    requires ProbeSpeed(xtal, n, p, speed) && TrueLegal(speed, xtal, s) && TrueOutput(xtal, s) == speed
    ensures s.m == p && s.n * OutputDivider(s.od) == 2 * n
  {
    var d := s.n * OutputDivider(s.od);
    assert 0 < d <= 30 by { LowDivider(speed, xtal, s); }
    assert s.m * (2 * n) == p * d by { HitRatio(xtal, s.m, d, p, 2 * n, speed); }
    ProbeIsReduced(n, p, s.m, d);
  }

  lemma HitRatio(xtal: u32, m: nat, d: nat, p: nat, e: nat, speed: u32)
    requires xtal > 450 && 0 < d <= 30 && 0 < e <= 30
    requires xtal * (2 * m) / d == speed == xtal * (2 * p) / e
    ensures m * e == p * d
  {
    var x := 2 * xtal;
    assert xtal * (2 * m) == x * m && xtal * (2 * p) == x * p;
    SameRatio(x, m, d, p, e);
  }

  lemma LowDivider(speed: u32, xtal: u32, s: Setting)
    requires TrueLegal(speed, xtal, s) && speed >= 500 * MHZ
    ensures 0 < s.n * OutputDivider(s.od) <= 30
  {
    assert s.od < 2;
    if s.od == 0 {
      assert s.n * OutputDivider(s.od) == s.n;
    } else {
      assert s.n * OutputDivider(s.od) == 2 * s.n;
    }
  }

  /** A product from the upper half of the 32-bit range. */
  lemma MiddleProduct(xtal: u32) returns (m: nat)
    requires 16_909_320 <= xtal <= 226 * MHZ
    ensures M_MIN <= m <= M_MAX && 0x8000_0100 <= xtal * (2 * m) <= 0xffff_ff00
  {
    var x: nat := 2 * xtal;
    var q := 0x8000_0000 / x;
    QuotientIsLargest(0x8000_0000, x, 4);
    QuotientIsLargest(0x8000_0000, x, 64);
    QuotientIsLargest(0x8000_0000, x, q);
    QuotientIsLargest(0x8000_0000, x, q + 1);
    m := q + 2;
    assert (q + 1) * x == q * x + x;
    assert xtal * (2 * m) == q * x + 2 * x;
  }

  /** The probed setting, seen through its wrapped product, is further off than that product over n. */
  lemma WrappedIsFurther(product: nat, raw: nat, n: nat)
    requires n in {4, 6, 9, 13, 15} && product >= 0x1_0000_0000 && 0x8000_0100 <= raw <= 0xffff_ff00
    ensures var f, seen, t := product / (2 * n), product % 0x1_0000_0000 / (2 * n), raw / n;
            seen <= f && (if t > f then t - f else f - t) < f - seen
  {
    var k, r, d := product / 0x1_0000_0000, product % 0x1_0000_0000, 2 * n;
    QuotientBounds(product, d);
    QuotientBounds(r, d);
    QuotientBounds(raw, n);
    FurtherByBounds(k, r, raw, n, product / d, r / d, raw / n);
  }

  lemma QuotientBounds(v: nat, d: nat)
    requires d > 0
    ensures 0 <= v / d && d * (v / d) <= v < d * (v / d) + d
  {
  }

  lemma FurtherByBounds(k: nat, r: nat, raw: nat, n: nat, f: nat, seen: nat, t: nat)
    requires n in {4, 6, 9, 13, 15} && k >= 1 && r < 0x1_0000_0000 && 0x8000_0100 <= raw <= 0xffff_ff00
    requires 2 * n * f <= 0x1_0000_0000 * k + r < 2 * n * f + 2 * n
    requires 2 * n * seen <= r < 2 * n * seen + 2 * n && n * t <= raw < n * t + n
    ensures seen <= f && (if t > f then t - f else f - t) < f - seen
  {
    if n == 4 {} else if n == 6 {} else if n == 9 {} else if n == 13 {} else {}
  }

  lemma HitIsLegal(xtal: u32, n: nat, p: nat, speed: u32)
    requires ProbeSpeed(xtal, n, p, speed)
    ensures TrueLegal(speed, xtal, Setting(1, n, p)) && TrueOutput(xtal, Setting(1, n, p)) == speed
  {
    assert n * OutputDivider(1) == 2 * n;
  }

  lemma MiddleSetting(xtal: u32, n: nat, speed: u32) returns (t: Setting, raw: nat)
    requires 16_909_320 <= xtal <= 226 * MHZ && NLegal(xtal, n) && 500 * MHZ <= speed <= 750 * MHZ
    ensures Legal(speed, xtal, t) && Output(xtal, t) == raw / n && 0x8000_0100 <= raw <= 0xffff_ff00
  {
    var m := MiddleProduct(xtal);
    raw := xtal * (2 * m);
    t := Setting(0, n, m);
    ExactOd(speed, 0);
    TwoDivisions(xtal, t);
    assert xtal * (m * 2) == raw;
    assert n * OutputDivider(0) == n;
  }

  lemma HitSeen(xtal: u32, p: nat, s: Setting, d: nat, product: nat)
    requires s.od < 4 && s.n >= 2 && s.m == p && d > 0 && s.n * OutputDivider(s.od) == d && product == xtal * (2 * p)
    ensures Output(xtal, s) == product % 0x1_0000_0000 / d
  {
    TwoDivisions(xtal, s);
    assert xtal * (s.m * 2) == product;
  }

  lemma ProbeFails(xtal: u32, n: nat, p: nat, speed: u32)
    requires ProbeSpeed(xtal, n, p, speed) && 16_909_320 <= xtal <= 226 * MHZ
    ensures !GetsClosest(speed, xtal)
  {
    var hit := Setting(1, n, p);
    HitIsLegal(xtal, n, p, speed);
    TrueIsLegal(speed, xtal, hit);
    var best := BestExists(speed, xtal, hit);
    assert SearchResult(speed, xtal, Chosen(best));
    if TrulyClosest(speed, xtal, best) {
      assert TrueDistance(speed, xtal, best) <= TrueDistance(speed, xtal, hit) == 0;
      FartherThanMiddle(xtal, n, p, speed, best);
    }
  }

  lemma FartherThanMiddle(xtal: u32, n: nat, p: nat, speed: u32, s: Setting)
    requires ProbeSpeed(xtal, n, p, speed) && 16_909_320 <= xtal <= 226 * MHZ
    requires TrueLegal(speed, xtal, s) && TrueOutput(xtal, s) == speed
    ensures !BestBefore(speed, xtal, END, s)
  {
    var product := xtal * (2 * p);
    OnlyHit(xtal, n, p, speed, s);
    HitSeen(xtal, p, s, 2 * n, product);
    var t, raw := MiddleSetting(xtal, n, speed);
    WrappedIsFurther(product, raw, n);
    assert Distance(speed, xtal, t) < Distance(speed, xtal, s);
  }

  lemma ProbeFits(xtal: u32, n: nat, p: nat)
    requires ProbeDividers(n, p) && NLegal(xtal, n) && xtal * (2 * p) >= 0x1_0000_0000
    requires 1000 * n * MHZ <= xtal * (2 * p) < 1500 * n * MHZ + 2 * n
    ensures exists speed: u32 :: speed <= 750 * MHZ && ProbeSpeed(xtal, n, p, speed)
  {
    var product, d := xtal * (2 * p), 2 * n;
    QuotientIsLargest(product, d, 500 * MHZ);
    QuotientIsLargest(product, d, 750 * MHZ + 1);
    ShrinkingQuotient(product, d);
    assert 750 * MHZ * d == 1500 * n * MHZ;
    var speed: u32 := product / d;
    assert ProbeSpeed(xtal, n, p, speed);
  }

  lemma SomeProbeFits(xtal: u32) returns (n: nat, p: nat)
    requires !SlowCrystal(xtal) && xtal / 15 <= 15 * MHZ
    ensures 16_909_320 <= xtal <= 226 * MHZ
    ensures ProbeDividers(n, p) && NLegal(xtal, n) && xtal * (2 * p) >= 0x1_0000_0000
    ensures 1000 * n * MHZ <= xtal * (2 * p) < 1500 * n * MHZ + 2 * n
  {
    if 254 * xtal < 6000 * MHZ {
      n, p := 4, 127;
    } else if 254 * xtal < 9000 * MHZ {
      n, p := 6, 127;
    } else if 254 * xtal < 13500 * MHZ {
      n, p := 9, 127;
    } else if 254 * xtal < 19500 * MHZ {
      n, p := 13, 127;
    } else if 254 * xtal < 22500 * MHZ {
      n, p := 15, 127;
    } else if xtal <= 126 * MHZ {
      n, p := 15, 89;
    } else if xtal <= 184 * MHZ {
      n, p := 15, 61;
    } else {
      n, p := 15, 47;
    }
  }

  lemma GuardNeeded(xtal: u32, n: nat) returns (speed: u32)
    requires NLegal(xtal, n) && !SlowCrystal(xtal)
    ensures speed <= 750 * MHZ && !GetsClosest(speed, xtal)
  {
    LargerDivisor(xtal, n, 15);
    var k, p := SomeProbeFits(xtal);
    ProbeFits(xtal, k, p);
    speed :| speed <= 750 * MHZ && ProbeSpeed(xtal, k, p, speed);
    ProbeFails(xtal, k, p, speed);
  }

  /** The main result: the search is right for every speed up to 1500 MHz exactly when 254 times the crystal frequency
      stays below 2^32, or the crystal allows no divider n at all. */
  lemma ClosestExactly(xtal: u32)
    ensures (forall speed: u32 | speed <= 1500 * MHZ :: GetsClosest(speed, xtal)) <==>
            (SlowCrystal(xtal) || !exists n: nat :: NLegal(xtal, n))
  {
    if n: nat :| NLegal(xtal, n) && !SlowCrystal(xtal) {
      var speed := GuardNeeded(xtal, n);
    } else {
      forall speed: u32 | speed <= 1500 * MHZ
        ensures GetsClosest(speed, xtal)
      {
        if SlowCrystal(xtal) {
          GuardSuffices(speed, xtal);
        }
      }
    }
  }

  /** And then the register decodes to the true frequency of the setting. */
  lemma TrueDecoded(speed: u32, xtal: u32, s: Setting)
    requires SlowCrystal(xtal) && speed <= 1500 * MHZ && BestBefore(speed, xtal, END, s)
    ensures TrulyClosest(speed, xtal, s)
    ensures Output(xtal, s) == TrueOutput(xtal, s) && DecodesTo(Pack(s), xtal, Output(xtal, s))
  {
    assert TrulyClosest(speed, xtal, s) by {
      GuardSuffices(speed, xtal);
      assert SearchResult(speed, xtal, Chosen(s));
    }
    ExactOutput(xtal, s);
    DecodedOutput(xtal, s);
  }

  // ---------------------------------------------------------------- one crystal that is misled

  /** From a 24 MHz crystal the search ends on a setting whose true output is 3048 MHz, taking it for a perfect match
      of 900.516352 MHz, although there is a legal setting of 900 MHz. */
  lemma OverflowFakesMatch()
    ensures BestBefore(900_516_352, 24_000_000, END, Setting(0, 2, 127))
    ensures TrueOutput(24_000_000, Setting(0, 2, 127)) == 3_048_000_000
    ensures TrueLegal(900_516_352, 24_000_000, Setting(0, 4, 75))
    ensures TrueOutput(24_000_000, Setting(0, 4, 75)) == 900_000_000
  {
    FirstMatch(900_516_352, 24_000_000, Setting(0, 2, 127));
  }

  /** A perfect match in the first row, with none before it, is what the search ends on. */
  lemma FirstMatch(speed: u32, xtal: u32, s: Setting)
    requires speed == 900_516_352 && xtal == 24_000_000 && s == Setting(0, 2, 127)
    ensures BestBefore(speed, xtal, END, s)
  {
    FakeOutput(xtal, s);
    forall t: Setting | Legal(speed, xtal, t)
      ensures Before(t, END) && (Before(t, s) ==> Distance(speed, xtal, t) > 0)
    {
      if Before(t, s) {
        FakeOutput(xtal, t);
      }
    }
  }

  lemma FakeOutput(xtal: u32, t: Setting)
    requires xtal == 24_000_000 && t.od == 0 && t.n == 2 && M_MIN <= t.m <= 127
    ensures Output(xtal, t) == 900_516_352 <==> t.m == 127
  {
    var product := 24_000_000 * (t.m * 2);
    if t.m <= 89 {
      assert product % 0x1_0000_0000 == product;
    } else {
      assert product % 0x1_0000_0000 == product - 0x1_0000_0000;
    }
  }
}
