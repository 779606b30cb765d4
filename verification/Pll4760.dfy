/** Choosing the PLL dividers of the JZ4760: the closest output frequency among all legal settings. */
module Pll4760 {
  import opened Arith
  import opened Bits
  import opened Pll

  const M_MIN := 4
  const M_MAX := 0x7f
  const N_MIN := 2
  const N_MAX := 0x0f

  /** A choice of dividers: the output divider is 2^od, the feedback divider 2*m. */
  datatype Setting = Setting(od: nat, n: nat, m: nat)

  predicate OdLegal(speed: u32, od: nat) {
    od < 4 && 500 * MHZ <= Mul(speed, OutputDivider(od)) <= 1500 * MHZ
  }

  predicate NLegal(xtal: u32, n: nat) {
    N_MIN <= n <= N_MAX && MHZ <= xtal / n <= 15 * MHZ
  }

  predicate Legal(speed: u32, xtal: u32, s: Setting) {
    OdLegal(speed, s.od) && NLegal(xtal, s.n) && M_MIN <= s.m <= M_MAX
  }

  /** The limits in plain numbers: what the search takes for legal. */
  lemma LegalExactly(speed: u32, xtal: u32, s: Setting)
    ensures Legal(speed, xtal, s) <==>
            && s.od < 4 && 500_000_000 <= speed * Pow2(s.od) % 0x1_0000_0000 <= 1_500_000_000
            && 2 <= s.n <= 15 && 1_000_000 * s.n <= xtal < 15_000_001 * s.n
            && 4 <= s.m <= 127
  {
    if 2 <= s.n <= 15 {
      QuotientIsLargest(xtal, s.n, 1_000_000);
      QuotientIsLargest(xtal, s.n, 15_000_001);
    }
  }

  /** The frequency that the search expects of a setting. */
  function Output(xtal: u32, s: Setting): (f: u32)
    requires s.od < 4 && s.n >= 2
  {
    ShrinkingQuotient(Mul(xtal, s.m * 2), s.n);
    ShrinkingQuotient(Mul(xtal, s.m * 2) / s.n, OutputDivider(s.od));
    Mul(xtal, s.m * 2) / s.n / OutputDivider(s.od)
  }

  function Distance(speed: u32, xtal: u32, s: Setting): u32
    requires s.od < 4 && s.n >= 2
  {
    var f := Output(xtal, s);
    if f > speed then f - speed else speed - f
  }

  /** The order in which the three loops visit the settings. */
  predicate Before(s: Setting, t: Setting) {
    s.od < t.od || (s.od == t.od && (s.n < t.n || (s.n == t.n && s.m < t.m)))
  }

  /** That is the order of the three dividers read as the digits of one number. */
  lemma BeforeExactly(s: Setting, t: Setting)
    requires s.n < 16 && t.n < 16 && s.m < 128 && t.m < 128
    ensures Before(s, t) <==> 2048 * s.od + 128 * s.n + s.m < 2048 * t.od + 128 * t.n + t.m
  {
  }

  /** Among the legal settings before `upTo`, `best` is the first of those with the least distance. */
  ghost predicate BestBefore(speed: u32, xtal: u32, upTo: Setting, best: Setting) {
    && Legal(speed, xtal, best) && Before(best, upTo)
    && forall t: Setting | Legal(speed, xtal, t) && Before(t, upTo) ::
         && Distance(speed, xtal, best) <= Distance(speed, xtal, t)
         && (Before(t, best) ==> Distance(speed, xtal, best) < Distance(speed, xtal, t))
  }

  ghost predicate NoneBefore(speed: u32, xtal: u32, upTo: Setting) {
    forall t: Setting | Legal(speed, xtal, t) :: !Before(t, upTo)
  }

  const END := Setting(4, N_MIN, M_MIN)

  // ---------------------------------------------------------------- the search

  datatype SettingChoice = NoChoice | Chosen(s: Setting)

  /** The search variables once every setting before `upTo` was visited. */
  ghost predicate Scanned(speed: u32, xtal: u32, upTo: Setting, distance: nat, word: nat, c: SettingChoice) {
    match c
    case NoChoice => NoneBefore(speed, xtal, upTo) && distance == 0xffff_ffff && word == 0
    case Chosen(s) => BestBefore(speed, xtal, upTo, s) && distance == Distance(speed, xtal, s) && word == Pack(s)
  }

  /** No legal setting lies from `upTo` up to `next`. */
  ghost predicate Barren(speed: u32, xtal: u32, upTo: Setting, next: Setting) {
    && Before(upTo, next)
    && forall t: Setting | Legal(speed, xtal, t) && Before(t, next) :: Before(t, upTo)
  }

  lemma SkipBarren(speed: u32, xtal: u32, upTo: Setting, next: Setting, distance: nat, word: nat, c: SettingChoice)
    requires Scanned(speed, xtal, upTo, distance, word, c) && Barren(speed, xtal, upTo, next)
    ensures Scanned(speed, xtal, next, distance, word, c)
  {
  }

  lemma IllegalOd(speed: u32, xtal: u32, od: nat)
    requires od < 4 && !OdLegal(speed, od)
    ensures Barren(speed, xtal, Setting(od, N_MIN, M_MIN), Setting(od + 1, N_MIN, M_MIN))
  {
  }

  lemma IllegalN(speed: u32, xtal: u32, od: nat, n: nat)
    requires !NLegal(xtal, n)
    ensures Barren(speed, xtal, Setting(od, n, M_MIN), Setting(od, n + 1, M_MIN))
  {
  }

  /** Once xtal / n drops below the limit, no larger n is legal: leaving the loop skips nothing. */
  lemma PrunedN(speed: u32, xtal: u32, od: nat, n: nat)
    requires N_MIN <= n && xtal / n < MHZ
    ensures Barren(speed, xtal, Setting(od, n, M_MIN), Setting(od + 1, N_MIN, M_MIN))
  {
    forall t: Setting | Legal(speed, xtal, t) && Before(t, Setting(od + 1, N_MIN, M_MIN))
      ensures Before(t, Setting(od, n, M_MIN))
    {
      if t.od == od && t.n >= n {
        LargerDivisor(xtal, n, t.n);
        assert false;
      }
    }
  }

  lemma LargerDivisor(v: nat, a: nat, b: nat)
    requires 0 < a <= b
    ensures v / b <= v / a
  {
    QuotientIsLargest(v, b, v / b);
    assert v / b >= 0 by { ShrinkingQuotient(v, b); }
    MulMonotone(a, b, v / b);
    assert (v / b) * a <= (v / b) * b;
    QuotientIsLargest(v, a, v / b);
  }

  lemma RowEnds(speed: u32, xtal: u32, od: nat, n: nat)
    ensures Barren(speed, xtal, Setting(od, n, M_MAX + 1), Setting(od, n + 1, M_MIN))
  {
  }

  lemma BlockEnds(speed: u32, xtal: u32, od: nat)
    ensures Barren(speed, xtal, Setting(od, N_MAX + 1, M_MIN), Setting(od + 1, N_MIN, M_MIN))
  {
  }

  /** A legal setting is never as far off as the initial distance. */
  lemma LegalIsNear(speed: u32, xtal: u32, s: Setting)
    requires Legal(speed, xtal, s)
    ensures Distance(speed, xtal, s) < 0xffff_ffff
  {
    var d := OutputDivider(s.od);
    if speed == 0xffff_ffff {
      DivModUnique(speed * d, 0x1_0000_0000, d - 1, 0x1_0000_0000 - d);
    }
  }

  /** A perfect match cannot be improved on. */
  lemma PerfectMatch(speed: u32, xtal: u32, upTo: Setting, word: nat, s: Setting)
    requires Scanned(speed, xtal, upTo, 0, word, Chosen(s))
    ensures Scanned(speed, xtal, END, 0, word, Chosen(s))
  {
  }

  /** One round of the innermost loop. */
  lemma VisitOne(speed: u32, xtal: u32, s: Setting, distance: nat, word: nat, c: SettingChoice)
    requires Legal(speed, xtal, s) && Scanned(speed, xtal, s, distance, word, c)
    ensures var next, d := Setting(s.od, s.n, s.m + 1), Distance(speed, xtal, s);
            if d < distance then Scanned(speed, xtal, if d == 0 then END else next, d, Pack(s), Chosen(s))
            else Scanned(speed, xtal, next, distance, word, c)
  {
    LegalIsNear(speed, xtal, s);
    var next := Setting(s.od, s.n, s.m + 1);
    forall t: Setting | Before(t, next)
      ensures Before(t, s) || t == s
    {
    }
    if Distance(speed, xtal, s) == 0 < distance {
      PerfectMatch(speed, xtal, next, Pack(s), s);
    }
  }

  /** The innermost loop; a zero distance ends the whole search. */
  method SearchMultipliers(speed: u32, xtal: u32, i: nat, n: nat, distance0: nat, word0: nat, ghost best0: SettingChoice)
    returns (distance: nat, word: nat, ghost best: SettingChoice)
    requires OdLegal(speed, i) && NLegal(xtal, n) && distance0 > 0
    requires Scanned(speed, xtal, Setting(i, n, M_MIN), distance0, word0, best0)
    ensures Scanned(speed, xtal, if distance == 0 then END else Setting(i, n, M_MAX + 1), distance, word, best)
  {
    distance, word, best := distance0, word0, best0;
    var j := M_MIN;
    while j <= M_MAX
      invariant M_MIN <= j <= M_MAX + 1 && distance > 0
      invariant Scanned(speed, xtal, Setting(i, n, j), distance, word, best)
    {
      var m := j * 2;
      var raw := Mul(xtal, m) / n;
      var tmp := raw / OutputDivider(i);
      tmp := if tmp > speed then tmp - speed else speed - tmp;
      assert tmp == Distance(speed, xtal, Setting(i, n, j));
      VisitOne(speed, xtal, Setting(i, n, j), distance, word, best);
      if tmp < distance {
        distance := tmp;
        word := Pack(Setting(i, n, j));
        best := Chosen(Setting(i, n, j));
        if distance == 0 {
          return;
        }
      }
      j := j + 1;
    }
  }

  /** The middle loop. */
  method SearchBlock(speed: u32, xtal: u32, i: nat, distance0: nat, word0: nat, ghost best0: SettingChoice)
    returns (distance: nat, word: nat, ghost best: SettingChoice)
    requires OdLegal(speed, i) && distance0 > 0
    requires Scanned(speed, xtal, Setting(i, N_MIN, M_MIN), distance0, word0, best0)
    ensures Scanned(speed, xtal, if distance == 0 then END else Setting(i + 1, N_MIN, M_MIN), distance, word, best)
  {
    distance, word, best := distance0, word0, best0;
    var k := N_MIN;
    while k <= N_MAX
      invariant N_MIN <= k <= N_MAX + 1 && distance > 0
      invariant Scanned(speed, xtal, Setting(i, k, M_MIN), distance, word, best)
      decreases N_MAX + 1 - k
    {
      var n := k;
      if xtal / n < MHZ {
        break;
      }
      if xtal / n > 15 * MHZ {
        IllegalN(speed, xtal, i, k);
        SkipBarren(speed, xtal, Setting(i, k, M_MIN), Setting(i, k + 1, M_MIN), distance, word, best);
        k := k + 1;
        continue;
      }
      distance, word, best := SearchMultipliers(speed, xtal, i, n, distance, word, best);
      if distance == 0 {
        return;
      }
      RowEnds(speed, xtal, i, k);
      SkipBarren(speed, xtal, Setting(i, k, M_MAX + 1), Setting(i, k + 1, M_MIN), distance, word, best);
      k := k + 1;
    }
    if k <= N_MAX {
      PrunedN(speed, xtal, i, k);
    } else {
      BlockEnds(speed, xtal, i);
    }
    SkipBarren(speed, xtal, Setting(i, k, M_MIN), Setting(i + 1, N_MIN, M_MIN), distance, word, best);
  }

  method SearchAll(speed: u32, xtal: u32) returns (word: nat, ghost best: SettingChoice)
    ensures exists distance: nat :: Scanned(speed, xtal, END, distance, word, best)
  {
    word := 0;
    best := NoChoice;
    var distance: nat := 0xffff_ffff;
    var i := 0;
    while i < 4
      invariant 0 <= i <= 4 && distance > 0
      invariant Scanned(speed, xtal, Setting(i, N_MIN, M_MIN), distance, word, best)
    {
      if Mul(speed, OutputDivider(i)) < 500 * MHZ || Mul(speed, OutputDivider(i)) > 1500 * MHZ {
        IllegalOd(speed, xtal, i);
        SkipBarren(speed, xtal, Setting(i, N_MIN, M_MIN), Setting(i + 1, N_MIN, M_MIN), distance, word, best);
        i := i + 1;
        continue;
      }
      distance, word, best := SearchBlock(speed, xtal, i, distance, word, best);
      if distance == 0 {
        return;
      }
      i := i + 1;
    }
  }

  /** What the search comes to: the first of the closest legal settings, if any is legal. */
  ghost predicate SearchResult(speed: u32, xtal: u32, c: SettingChoice) {
    match c
    case NoChoice => forall t: Setting :: !Legal(speed, xtal, t)
    case Chosen(s) => BestBefore(speed, xtal, END, s)
  }

  predicate Improves(speed: u32, xtal: u32, t: Setting, s: Setting)
    requires s.od < 4 && s.n >= 2 && t.od < 4 && t.n >= 2
  {
    || Distance(speed, xtal, t) < Distance(speed, xtal, s)
    || (Distance(speed, xtal, t) == Distance(speed, xtal, s) && Before(t, s))
  }

  /** There always is one: a setting that is not the best leads to a better one. */
  lemma BestExists(speed: u32, xtal: u32, s: Setting) returns (best: Setting)
    requires Legal(speed, xtal, s)
    ensures BestBefore(speed, xtal, END, best)
    decreases Distance(speed, xtal, s), s.od, s.n, s.m
  {
    if t: Setting :| Legal(speed, xtal, t) && Improves(speed, xtal, t, s) {
      best := BestExists(speed, xtal, t);
    } else {
      best := s;
      forall t: Setting | Legal(speed, xtal, t)
        ensures Before(t, END) && !Improves(speed, xtal, t, s)
      {
      }
    }
  }

  // ---------------------------------------------------------------- the register word

  /** Bits 24-30, 18-21 and 16-17 of the PLL control register hold M, N and OD. */
  function Pack(s: Setting): nat {
    Or(Or(Shl(s.m, 24), Shl(s.n, 18)), Shl(s.od, 16))
  }

  /** The output frequency that the chip header computes from the register. */
  function PllOut(reg: nat, extal: u32): u32
    requires Field(reg, 0x0f, 18) > 0 && Field(reg, 0x3, 16) < 4
  {
    if Running(reg) then
      var m := Field(reg, 0x7f, 24) * 2;
      var n := Field(reg, 0x0f, 18);
      var no := OutputDivider(Field(reg, 0x3, 16));
      assert n * no > 0 by { MulMonotone(1, n, no); }
      ShrinkingQuotient(Mul(extal, m), n * no);
      Mul(extal, m) / (n * no)
    else extal
  }

  function Register(m: nat, n: nat, od: nat): nat {
    0x100_0000 * m + 0x4_0000 * n + 0x1_0000 * od + 0x120
  }

  lemma PackIsSum(s: Setting)
    requires s.m <= 0x7f && s.n <= 0x0f && s.od < 4
    ensures Pack(s) == Register(s.m, s.n, s.od) - 0x120
  {
    var m, n, od := s.m, s.n, s.od;
    var word := 0x100_0000 * m;
    assert Pow2(16) == 0x1_0000 && Pow2(18) == 0x4_0000 && Pow2(24) == 0x100_0000 by { Pow2UpTo32(); }
    assert Shl(m, 24) == word by { ShlIsProduct(m, 24, 0x100_0000); }
    assert Or(word, Shl(n, 18)) == word + 0x4_0000 * n by { OrField(word, m, 24, 0x100_0000, n, 18, 0x4_0000); }
    OrField(word + 0x4_0000 * n, 64 * m + n, 18, 0x4_0000, od, 16, 0x1_0000);
  }

  lemma EnabledIsSum(s: Setting)
    requires s.m <= 0x7f && s.n <= 0x0f && s.od < 4
    ensures Enabled(Pack(s)) == Register(s.m, s.n, s.od) && Running(Register(s.m, s.n, s.od))
  {
    var high := 256 * s.m + 4 * s.n + s.od;
    assert Pack(s) == 0x1_0000 * high by { PackIsSum(s); }
    EnabledRuns(high);
  }

  lemma RegisterFields(m: nat, n: nat, od: nat)
    requires m <= 0x7f && n <= 0x0f && od < 4
    ensures Field(Register(m, n, od), 0x7f, 24) == m
    ensures Field(Register(m, n, od), 0x0f, 18) == n
    ensures Field(Register(m, n, od), 0x3, 16) == od
  {
    var w := Register(m, n, od);
    assert Pow2(2) == 4 && Pow2(4) == 0x10 && Pow2(7) == 0x80 by { Pow2UpTo12(); }
    assert Pow2(16) == 0x1_0000 && Pow2(18) == 0x4_0000 && Pow2(24) == 0x100_0000 by { Pow2UpTo32(); }
    FieldAt(w, 0, m, 0x4_0000 * n + 0x1_0000 * od + 0x120, 7, 0x80, 24, 0x100_0000);
    FieldAt(w, 4 * m, n, 0x1_0000 * od + 0x120, 4, 0x10, 18, 0x4_0000);
    FieldAt(w, 64 * m + n, od, 0x120, 2, 4, 16, 0x1_0000);
  }

  /** Truncating after each of two divisions is truncating once. */
  lemma TwoDivisions(xtal: u32, s: Setting)
    requires 0 < s.n && s.od < 4 && s.n >= 2
    ensures s.n * OutputDivider(s.od) > 0
    ensures Mul(xtal, s.m * 2) / (s.n * OutputDivider(s.od)) == Output(xtal, s)
  {
    DivDiv(Mul(xtal, s.m * 2), s.n, OutputDivider(s.od));
  }

  predicate DecodesTo(word: nat, xtal: u32, f: u32) {
    && Field(Enabled(word), 0x0f, 18) > 0 && Field(Enabled(word), 0x3, 16) < 4
    && PllOut(Enabled(word), xtal) == f
  }

  /** Whatever the search packs, the chip header decodes to the frequency that the search expected. */
  lemma DecodedOutput(xtal: u32, s: Setting)
    requires N_MIN <= s.n <= N_MAX && M_MIN <= s.m <= M_MAX && s.od < 4
    ensures DecodesTo(Pack(s), xtal, Output(xtal, s))
  {
    var reg := Enabled(Pack(s));
    EnabledIsSum(s);
    assert reg == Register(s.m, s.n, s.od);
    RegisterFields(s.m, s.n, s.od);
    TwoDivisions(xtal, s);
  }

  function Off(speed: u32, f: u32): u32 {
    if f > speed then f - speed else speed - f
  }

  /** The main result: if any setting is legal, the decoded output of the returned word is as close to the wanted
      speed as that of any legal setting; otherwise the word is 0. */
  method PllCalcMNOd(speed: u32, xtal: u32) returns (word: nat)
    ensures (exists s: Setting :: Legal(speed, xtal, s)) ==>
              exists s: Setting ::
                && Legal(speed, xtal, s) && word == Pack(s)
                && DecodesTo(word, xtal, Output(xtal, s))
                && forall t: Setting | Legal(speed, xtal, t) ::
                     Off(speed, Output(xtal, s)) <= Off(speed, Output(xtal, t)) &&
                     (Before(t, s) ==> Off(speed, Output(xtal, s)) < Off(speed, Output(xtal, t)))
    ensures (forall s: Setting :: !Legal(speed, xtal, s)) ==> word == 0
    ensures exists c: SettingChoice :: SearchResult(speed, xtal, c) && word == if c.Chosen? then Pack(c.s) else 0
  {
    ghost var best: SettingChoice;
    word, best := SearchAll(speed, xtal);
    ghost var distance: nat :| Scanned(speed, xtal, END, distance, word, best);
    forall t: Setting | Legal(speed, xtal, t)
      ensures Before(t, END) && Distance(speed, xtal, t) == Off(speed, Output(xtal, t))
    {
    }
    assert SearchResult(speed, xtal, best);
    if best.Chosen? {
      DecodedOutput(xtal, best.s);
      assert Legal(speed, xtal, best.s);
    }
  }
}
