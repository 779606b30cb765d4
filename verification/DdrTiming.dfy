/** The timing words of the DDR controller: rounded delays, clamped and packed into fields. */
module DdrTiming {
  import opened Arith
  import opened Bits
  import opened DdrRounding

  /** The data sheet of a chip; times in nanoseconds, except tXP, tMRD and tMINSR in clock cycles. */
  datatype Chip = Chip(tRas: Ns, tRtp: Ns, tRp: Ns, tRcd: Ns, tRc: Ns, tRrd: Ns, tWr: Ns, tWtr: Ns, tRfc: Ns,
                       tMinsr: nat, tXp: nat, tMrd: nat, tRefi: u32, clkDiv: nat)

  /** The ranges that the configuration headers state. */
  predicate Listed(chip: Chip) {
    1 <= chip.tXp <= 8 && 1 <= chip.tMrd <= 4 && chip.clkDiv < 8
  }

  /** The number from lo to hi that is nearest to v. */
  function Clamp(v: nat, lo: nat, hi: nat): (c: nat)
    requires lo <= hi
    ensures lo <= c <= hi
    ensures c < v ==> c == hi
    ensures c > v ==> c == lo
  {
    if v < lo then lo else if v > hi then hi else v
  }

  // ---------------------------------------------------------------- fields of four bits, one per hexadecimal digit

  /** word |= d << bit, for a digit below everything that the word holds. */
  lemma OrDigit(word: nat, h: nat, d: nat, bit: nat, weight: nat)
    requires weight == Pow2(bit) && d < 16 && word == (16 * weight) * h
    ensures Or(word, Shl(d, bit)) == word + weight * d
  {
    FourDoublings(bit);
    ShlIsProduct(d, bit, weight);
    DigitBelow(d, weight);
    OrAt(h, weight * d, bit + 4, 16 * weight);
  }

  lemma DigitBelow(d: nat, weight: nat)
    requires d < 16 && weight > 0
    ensures 0 <= weight * d < 16 * weight
  {
    MulMonotone(d + 1, 16, weight);
    assert (d + 1) * weight == d * weight + weight;
  }

  /** A field of up to four bits at the bottom of its digit. */
  lemma DigitField(word: nat, h: nat, d: nat, lo: nat, width: nat, size: nat, bit: nat, weight: nat)
    requires weight == Pow2(bit) && lo < weight && word == weight * (16 * h + d) + lo
    requires (width, size) in {(2, 4), (3, 8), (4, 16)} && d < size
    ensures Field(word, size - 1, bit) == d
  {
    Pow2Table();
    FieldAt(word, if size == 4 then 4 * h else if size == 8 then 2 * h else h, d, lo, width, size, bit, weight);
  }

  // ---------------------------------------------------------------- what the words mean to the controller

  /** The least number of cycles that covers t nanoseconds. */
  function Count(t: Ns, memClk: u32): (c: nat)
    requires memClk >= 1000
    ensures 1000 * t <= c * Ps(memClk) < 1000 * t + Ps(memClk)
  {
    PsPositive(memClk);
    CountCovers(t, Ps(memClk));
    GetValue(t, Ps(memClk))
  }

  /** A halved field f stands for 2 f + 1 cycles. */
  predicate Halved(f: nat, c: nat) {
    c <= 2 * f + 1 <= c + 1
  }

  /** The upper and the lower half of the first timing word, read as clock cycles. */
  predicate UpperCycles(word: nat, tRas: nat, tRtp: nat, tRp: nat, tRcd: nat) {
    && Halved(Field(word, 0xf, 28), tRas)
    && Field(word, 0x3, 24) + 1 == tRtp
    && Field(word, 0x7, 20) + 1 == tRp
    && Field(word, 0x7, 16) + 1 == tRcd
  }

  predicate LowerCycles(word: nat, tRc: nat, tRrd: nat, tWr: nat, tWtr: nat) {
    && Halved(Field(word, 0xf, 12), tRc)
    && Field(word, 0x3, 8) + 1 == tRrd
    && Field(word, 0x7, 4) + 1 == tWr
    && Field(word, 0x3, 0) + 1 == tWtr
  }

  /** The first timing word holds the clamped counts of its chip. */
  predicate Timing1For(word: nat, chip: Chip, memClk: u32)
    requires memClk >= 1000
  {
    && UpperCycles(word, Clamp(Count(chip.tRas, memClk), 1, 31), Clamp(Count(chip.tRtp, memClk), 1, 4),
                   Clamp(Count(chip.tRp, memClk), 1, 8), Clamp(Count(chip.tRcd, memClk), 1, 8))
    && LowerCycles(word, Clamp(Count(chip.tRc, memClk), 3, 31), Clamp(Count(chip.tRrd, memClk), 2, 4),
                   Clamp(Count(chip.tWr, memClk), 2, 6),
                   Clamp(if chip.tWtr > 5 then Count(chip.tWtr, memClk) else chip.tWtr, 1, 4))
  }

  /** The eight digits of the first timing word. */
  function Timing1Word(d7: nat, d6: nat, d5: nat, d4: nat, d3: nat, d2: nat, d1: nat, d0: nat): nat {
    0x1000_0000 * d7 + 0x100_0000 * d6 + 0x10_0000 * d5 + 0x1_0000 * d4 + 0x1000 * d3 + 0x100 * d2 + 0x10 * d1 + d0
  }

  lemma UpperFields(w: nat, d7: nat, d6: nat, d5: nat, d4: nat, lo: nat)
    requires d7 < 16 && d6 < 4 && d5 < 8 && d4 < 8 && lo < 0x1_0000
    requires w == 0x1000_0000 * d7 + 0x100_0000 * d6 + 0x10_0000 * d5 + 0x1_0000 * d4 + lo
    ensures Field(w, 0xf, 28) == d7 && Field(w, 0x3, 24) == d6 && Field(w, 0x7, 20) == d5 && Field(w, 0x7, 16) == d4
  {
    Pow2Table();
    DigitField(w, 0, d7, 0x100_0000 * d6 + 0x10_0000 * d5 + 0x1_0000 * d4 + lo, 4, 16, 28, 0x1000_0000);
    DigitField(w, d7, d6, 0x10_0000 * d5 + 0x1_0000 * d4 + lo, 2, 4, 24, 0x100_0000);
    DigitField(w, 16 * d7 + d6, d5, 0x1_0000 * d4 + lo, 3, 8, 20, 0x10_0000);
    DigitField(w, 256 * d7 + 16 * d6 + d5, d4, lo, 3, 8, 16, 0x1_0000);
  }

  lemma LowerFields(w: nat, hi: nat, d3: nat, d2: nat, d1: nat, d0: nat)
    requires d3 < 16 && d2 < 4 && d1 < 8 && d0 < 4
    requires w == 0x1_0000 * hi + 0x1000 * d3 + 0x100 * d2 + 0x10 * d1 + d0
    ensures Field(w, 0xf, 12) == d3 && Field(w, 0x3, 8) == d2 && Field(w, 0x7, 4) == d1 && Field(w, 0x3, 0) == d0
  {
    Pow2Table();
    DigitField(w, hi, d3, 0x100 * d2 + 0x10 * d1 + d0, 4, 16, 12, 0x1000);
    DigitField(w, 16 * hi + d3, d2, 0x10 * d1 + d0, 2, 4, 8, 0x100);
    DigitField(w, 256 * hi + 16 * d3 + d2, d1, d0, 3, 8, 4, 0x10);
    DigitField(w, 4096 * hi + 256 * d3 + 16 * d2 + d1, d0, 0, 2, 4, 0, 1);
  }

  lemma UpperRead(w: nat, tRas: nat, tRtp: nat, tRp: nat, tRcd: nat, lo: nat)
    requires tRas < 32 && 1 <= tRtp <= 4 && 1 <= tRp <= 8 && 1 <= tRcd <= 8 && lo < 0x1_0000
    requires w == 0x1000_0000 * (tRas / 2) + 0x100_0000 * (tRtp - 1) + 0x10_0000 * (tRp - 1) + 0x1_0000 * (tRcd - 1) + lo
    ensures UpperCycles(w, tRas, tRtp, tRp, tRcd)
  {
    UpperFields(w, tRas / 2, tRtp - 1, tRp - 1, tRcd - 1, lo);
  }

  lemma LowerRead(w: nat, hi: nat, tRc: nat, tRrd: nat, tWr: nat, tWtr: nat)
    requires tRc < 32 && 1 <= tRrd <= 4 && 1 <= tWr <= 8 && 1 <= tWtr <= 4
    requires w == 0x1_0000 * hi + 0x1000 * (tRc / 2) + 0x100 * (tRrd - 1) + 0x10 * (tWr - 1) + (tWtr - 1)
    ensures LowerCycles(w, tRc, tRrd, tWr, tWtr)
  {
    LowerFields(w, hi, tRc / 2, tRrd - 1, tWr - 1, tWtr - 1);
  }

  lemma CountPositive(t: Ns, memClk: u32)
    requires memClk >= 1000 && t > 0
    ensures Count(t, memClk) >= 1
  {
    PsPositive(memClk);
    CountCovers(t, Ps(memClk));
    assert 0 * Ps(memClk) == 0;
  }

  lemma WaitsLongEnough(c: nat, t: Ns, memClk: u32)
    requires memClk >= 1000 && Ps(memClk) * memClk <= 1000 * GIGA && Count(t, memClk) <= c
    ensures LongEnough(c, t, memClk)
  {
    PsPositive(memClk);
    CountIsLongEnough(t, Ps(memClk), memClk);
  }

  /** Read back from the packed word, every delay that its field has room for is waited in full. */
  lemma UpperWaitsLongEnough(word: nat, chip: Chip, memClk: u32)
    requires memClk >= 1000 && Ps(memClk) * memClk <= 1000 * GIGA && Timing1For(word, chip, memClk)
    ensures Count(chip.tRas, memClk) <= 31 ==> LongEnough(2 * Field(word, 0xf, 28) + 1, chip.tRas, memClk)
    ensures Count(chip.tRtp, memClk) <= 4 ==> LongEnough(Field(word, 0x3, 24) + 1, chip.tRtp, memClk)
    ensures Count(chip.tRp, memClk) <= 8 ==> LongEnough(Field(word, 0x7, 20) + 1, chip.tRp, memClk)
    ensures Count(chip.tRcd, memClk) <= 8 ==> LongEnough(Field(word, 0x7, 16) + 1, chip.tRcd, memClk)
  {
    if Count(chip.tRas, memClk) <= 31 { WaitsLongEnough(2 * Field(word, 0xf, 28) + 1, chip.tRas, memClk); }
    if Count(chip.tRtp, memClk) <= 4 { WaitsLongEnough(Field(word, 0x3, 24) + 1, chip.tRtp, memClk); }
    if Count(chip.tRp, memClk) <= 8 { WaitsLongEnough(Field(word, 0x7, 20) + 1, chip.tRp, memClk); }
    if Count(chip.tRcd, memClk) <= 8 { WaitsLongEnough(Field(word, 0x7, 16) + 1, chip.tRcd, memClk); }
  }

  lemma LowerWaitsLongEnough(word: nat, chip: Chip, memClk: u32)
    requires memClk >= 1000 && Ps(memClk) * memClk <= 1000 * GIGA && Timing1For(word, chip, memClk)
    ensures Count(chip.tRc, memClk) <= 31 ==> LongEnough(2 * Field(word, 0xf, 12) + 1, chip.tRc, memClk)
    ensures Count(chip.tRrd, memClk) <= 4 ==> LongEnough(Field(word, 0x3, 8) + 1, chip.tRrd, memClk)
    ensures Count(chip.tWr, memClk) <= 6 ==> LongEnough(Field(word, 0x7, 4) + 1, chip.tWr, memClk)
    ensures chip.tWtr > 5 && Count(chip.tWtr, memClk) <= 4 ==> LongEnough(Field(word, 0x3, 0) + 1, chip.tWtr, memClk)
  {
    if Count(chip.tRc, memClk) <= 31 { WaitsLongEnough(2 * Field(word, 0xf, 12) + 1, chip.tRc, memClk); }
    if Count(chip.tRrd, memClk) <= 4 { WaitsLongEnough(Field(word, 0x3, 8) + 1, chip.tRrd, memClk); }
    if Count(chip.tWr, memClk) <= 6 { WaitsLongEnough(Field(word, 0x7, 4) + 1, chip.tWr, memClk); }
    if chip.tWtr > 5 && Count(chip.tWtr, memClk) <= 4 { WaitsLongEnough(Field(word, 0x3, 0) + 1, chip.tWtr, memClk); }
  }

  // ---------------------------------------------------------------- the second word

  /** A self-refresh field f stands for 8 (f + 1) + 1 cycles; f is the least that covers t. */
  predicate MinsrFor(f: nat, t: nat) {
    t <= 8 * (f + 1) + 1 && (f > 0 ==> 8 * f + 1 < t)
  }

  lemma MinsrRounds(t: nat)
    requires 9 <= t <= 129
    ensures var f := if (t - 1) % 8 == 0 then (t - 1) / 8 - 1 else (t - 1) / 8;
            0 <= f < 16 && MinsrFor(f, t)
  {
  }

  predicate Timing2For(word: nat, chip: Chip, memClk: u32, rwcov: nat)
    requires memClk >= 1000
  {
    && Halved(Field(word, 0x3f, 24), Clamp(Count(chip.tRfc, memClk), 0, 31))
    && Field(word, 0x3, 19) == rwcov
    && Field(word, 0xf, 8) < 16 && MinsrFor(Field(word, 0xf, 8), Clamp(chip.tMinsr, 9, 129))
    && Field(word, 0x7, 4) + 1 == chip.tXp
    && Field(word, 0x3, 0) + 1 == chip.tMrd
  }

  /** Read back from the packed word, an auto-refresh time that its field has room for is waited in full, and a
      self-refresh time is covered exactly up to 129 cycles. */
  lemma Timing2WaitsLongEnough(word: nat, chip: Chip, memClk: u32, rwcov: nat)
    requires memClk >= 1000 && Timing2For(word, chip, memClk, rwcov)
    ensures Ps(memClk) * memClk <= 1000 * GIGA && Count(chip.tRfc, memClk) <= 31 ==>
              LongEnough(2 * Field(word, 0x3f, 24) + 1, chip.tRfc, memClk)
    ensures chip.tMinsr <= 8 * (Field(word, 0xf, 8) + 1) + 1 <==> chip.tMinsr <= 129
  {
    if Ps(memClk) * memClk <= 1000 * GIGA && Count(chip.tRfc, memClk) <= 31 {
      WaitsLongEnough(2 * Field(word, 0x3f, 24) + 1, chip.tRfc, memClk);
    }
  }

  function Timing2Word(tRfc: nat, rwcov: nat, tMinsr: nat, tXp: nat, tMrd: nat): nat {
    0x100_0000 * tRfc + 0x8_0000 * rwcov + 0x100 * tMinsr + 0x10 * tXp + tMrd
  }

  lemma OrTiming2(tRfc: nat, tMinsr: nat, tXp: nat, tMrd: nat)
    requires tRfc < 16 && tMinsr < 16 && tXp < 8 && tMrd < 4
    ensures Or(Or(Shl(tRfc, 24), Shl(tMinsr, 8)), Or(Shl(tXp, 4), tMrd)) == Timing2Word(tRfc, 0, tMinsr, tXp, tMrd)
  {
    assert Pow2(8) == 0x100 && Pow2(4) == 0x10 by { Pow2UpTo12(); }
    assert Pow2(24) == 0x100_0000 by { Pow2UpTo32(); }
    var high, low := 0x100_0000 * tRfc + 0x100 * tMinsr, 0x10 * tXp + tMrd;
    assert Or(Shl(tRfc, 24), Shl(tMinsr, 8)) == high by {
      ShlIsProduct(tRfc, 24, 0x100_0000);
      OrField(0x100_0000 * tRfc, tRfc, 24, 0x100_0000, tMinsr, 8, 0x100);
    }
    assert Or(Shl(tXp, 4), tMrd) == low by {
      ShlIsProduct(tXp, 4, 0x10);
      OrAt(tXp, tMrd, 4, 0x10);
    }
    OrAt(0x1_0000 * tRfc + tMinsr, low, 8, 0x100);
  }

  lemma Timing2Fields(w: nat, tRfc: nat, rwcov: nat, tMinsr: nat, tXp: nat, tMrd: nat)
    requires tRfc < 16 && rwcov < 4 && tMinsr < 16 && tXp < 8 && tMrd < 4
    requires w == Timing2Word(tRfc, rwcov, tMinsr, tXp, tMrd)
    ensures Field(w, 0x3f, 24) == tRfc && Field(w, 0x3, 19) == rwcov && Field(w, 0xf, 8) == tMinsr
    ensures Field(w, 0x7, 4) == tXp && Field(w, 0x3, 0) == tMrd
  {
    Pow2Table();
    var low := 0x100 * tMinsr + 0x10 * tXp + tMrd;
    FieldAt(w, 0, tRfc, 0x8_0000 * rwcov + low, 6, 0x40, 24, 0x100_0000);
    FieldAt(w, 8 * tRfc, rwcov, low, 2, 4, 19, 0x8_0000);
    DigitField(w, 0x1000 * tRfc + 0x80 * rwcov, tMinsr, 0x10 * tXp + tMrd, 4, 16, 8, 0x100);
    DigitField(w, 0x1_0000 * tRfc + 0x800 * rwcov + tMinsr, tXp, tMrd, 3, 8, 4, 0x10);
    DigitField(w, 0x10_0000 * tRfc + 0x8000 * rwcov + 0x10 * tMinsr + tXp, tMrd, 0, 2, 4, 0, 1);
  }

  // ---------------------------------------------------------------- the field that follows tsel

  type Tsel = t: nat | t < 4

  function RwcovOf(tsel: Tsel): nat {
    if tsel == 0 then 0 else tsel - 1
  }

  /** The word with bits 19 and 20 replaced. */
  function SetRwcov(word: nat, tsel: Tsel): nat {
    Or(And(word, 0xffff_ffff - 0x18_0000), Shl(RwcovOf(tsel), 19))
  }

  /** A mask that lets the low 19 bits through. */
  lemma KeepLow(w: nat, top: nat, lo: nat, m: nat, t: nat, ones: nat, n: nat)
    requires 0x8_0000 == Pow2(n) && lo < 0x8_0000 && ones == 0x7_ffff
    requires w == 0x8_0000 * top + lo && m == 0x8_0000 * t + ones
    ensures And(w, m) == 0x8_0000 * And(top, t) + lo
  {
    assert w == Shl(top, n) + lo by { ShlIsProduct(top, n, 0x8_0000); }
    assert m == Shl(t, n) + ones by { ShlIsProduct(t, n, 0x8_0000); }
    assert And(lo, ones) == lo by { AndAllOnes(lo, ones, n, 0x8_0000); }
    var both := And(top, t);
    assert And(w, m) == Shl(both, n) + lo by { AndOnHalves(w, top, lo, m, t, ones, n); }
    assert Shl(both, n) == 0x8_0000 * both by { ShlIsProduct(both, n, 0x8_0000); }
  }

  /** A mask that clears the low two of 13 bits. */
  lemma KeepHigh(w: nat, hi: nat, mid: nat, m: nat, ones: nat, n: nat, k: nat)
    requires 4 == Pow2(n) && mid < 4 && w == 4 * hi + mid
    requires 0x800 == Pow2(k) && hi < 0x800 && ones == 0x7ff && m == 4 * ones
    ensures And(w, m) == 4 * hi
  {
    assert w == Shl(hi, n) + mid by { ShlIsProduct(hi, n, 4); }
    assert m == Shl(ones, n) by { ShlIsProduct(ones, n, 4); }
    assert And(hi, ones) == hi by { AndAllOnes(hi, ones, k, 0x800); }
    assert And(w, m) == Shl(hi, n) by {
      AndOnHalves(w, hi, mid, m, ones, 0, n);
      AndZero(mid);
    }
  }

  lemma ClearRwcov(w: nat, hi: nat, mid: nat, lo: nat, mask: nat)
    requires hi < 0x800 && mid < 4 && lo < 0x8_0000 && w == 0x20_0000 * hi + 0x8_0000 * mid + lo
    requires mask == 0xffff_ffff - 0x18_0000
    ensures And(w, mask) == 0x20_0000 * hi + lo
  {
    var top := 4 * hi + mid;
    assert And(top, 0x1ffc) == 4 * hi by {
      assert Pow2(2) == 4 && Pow2(11) == 0x800 by {
        Pow2UpTo12();
        FourDoublings(8);
      }
      KeepHigh(top, hi, mid, 0x1ffc, 0x7ff, 2, 11);
    }
    assert Pow2(19) == 0x8_0000 by { Pow2UpTo32(); }
    KeepLow(w, top, lo, mask, 0x1ffc, 0x7_ffff, 19);
  }

  /** word |= r << n, for a word whose low n digits stay as they are. */
  lemma OrHigh(word: nat, top: nat, lo: nat, r: nat, n: nat)
    requires 0x8_0000 == Pow2(n) && lo < 0x8_0000 && word == 0x8_0000 * top + lo
    ensures Or(word, Shl(r, n)) == 0x8_0000 * Or(top, r) + lo
  {
    assert word == Shl(top, n) + lo by { ShlIsProduct(top, n, 0x8_0000); }
    var both := Or(top, r);
    assert Or(word, Shl(r, n)) == Shl(both, n) + lo by {
      OrOnHalves(word, top, lo, Shl(r, n), r, 0, n);
      OrZero(lo);
    }
    ShlIsProduct(both, n, 0x8_0000);
  }

  lemma InsertRwcov(hi: nat, r: nat, lo: nat)
    requires r < 4 && lo < 0x8_0000
    ensures Or(0x20_0000 * hi + lo, Shl(r, 19)) == 0x20_0000 * hi + 0x8_0000 * r + lo
  {
    assert Pow2(19) == 0x8_0000 by { Pow2UpTo32(); }
    assert Pow2(2) == 4 by { Pow2UpTo12(); }
    OrHigh(0x20_0000 * hi + lo, 4 * hi, lo, r, 19);
    OrAt(hi, r, 2, 4);
  }

  /** Nothing but the two bits changes. */
  lemma SetRwcovReplaces(w: nat, hi: nat, mid: nat, lo: nat, tsel: Tsel)
    requires hi < 0x800 && mid < 4 && lo < 0x8_0000 && w == 0x20_0000 * hi + 0x8_0000 * mid + lo
    ensures SetRwcov(w, tsel) == 0x20_0000 * hi + 0x8_0000 * RwcovOf(tsel) + lo
  {
    ClearRwcov(w, hi, mid, lo, 0xffff_ffff - 0x18_0000);
    InsertRwcov(hi, RwcovOf(tsel), lo);
  }

  lemma RwcovField(w: nat, tsel: Tsel)
    requires w < 0x1_0000_0000
    ensures Field(SetRwcov(w, tsel), 0x3, 19) == RwcovOf(tsel)
  {
    var hi, mid, lo := w / 0x20_0000, w / 0x8_0000 % 4, w % 0x8_0000;
    ThreeParts(w);
    SetRwcovReplaces(w, hi, mid, lo, tsel);
    assert Pow2(2) == 4 by { Pow2UpTo12(); }
    assert Pow2(19) == 0x8_0000 by { Pow2UpTo32(); }
    FieldAt(SetRwcov(w, tsel), hi, RwcovOf(tsel), lo, 2, 4, 19, 0x8_0000);
  }

  lemma ThreeParts(w: nat)
    requires w < 0x1_0000_0000
    ensures w / 0x20_0000 < 0x800 && w == 0x20_0000 * (w / 0x20_0000) + 0x8_0000 * (w / 0x8_0000 % 4) + w % 0x8_0000
  {
    DivDiv(w, 0x8_0000, 4);
  }

  /** The word after initialising with each tsel of a sequence in turn. */
  function AfterInits(word: nat, tsels: seq<Tsel>): nat {
    if tsels == [] then word else SetRwcov(AfterInits(word, tsels[..|tsels| - 1]), tsels[|tsels| - 1])
  }

  function LastRwcov(start: nat, tsels: seq<Tsel>): nat {
    if tsels == [] then start else RwcovOf(tsels[|tsels| - 1])
  }

  /** However often the controller is initialised, only the last tsel shows, and only in its own field. */
  lemma {:induction false} OnlyLastTselShows(w: nat, hi: nat, mid: nat, lo: nat, tsels: seq<Tsel>)
    requires hi < 0x800 && mid < 4 && lo < 0x8_0000 && w == 0x20_0000 * hi + 0x8_0000 * mid + lo
    ensures AfterInits(w, tsels) == 0x20_0000 * hi + 0x8_0000 * LastRwcov(mid, tsels) + lo
  {
    if tsels != [] {
      var before := tsels[..|tsels| - 1];
      OnlyLastTselShows(w, hi, mid, lo, before);
      SetRwcovReplaces(AfterInits(w, before), hi, LastRwcov(mid, before), lo, tsels[|tsels| - 1]);
    }
  }

  /** So the second timing word stays right for its chip through any run of initialisations. */
  lemma Timing2Survives(chip: Chip, memClk: u32, tRfc: nat, tMinsr: nat, tsels: seq<Tsel>)
    requires memClk >= 1000 && Listed(chip)
    requires tRfc < 16 && Halved(tRfc, Clamp(Count(chip.tRfc, memClk), 0, 31))
    requires tMinsr < 16 && MinsrFor(tMinsr, Clamp(chip.tMinsr, 9, 129))
    ensures Timing2For(AfterInits(Timing2Word(tRfc, 0, tMinsr, chip.tXp - 1, chip.tMrd - 1), tsels), chip, memClk,
                       LastRwcov(0, tsels))
  {
    var r, start := LastRwcov(0, tsels), Timing2Word(tRfc, 0, tMinsr, chip.tXp - 1, chip.tMrd - 1);
    var lo := 0x100 * tMinsr + 0x10 * (chip.tXp - 1) + (chip.tMrd - 1);
    OnlyLastTselShows(start, 8 * tRfc, 0, lo, tsels);
    Timing2Fields(AfterInits(start, tsels), tRfc, r, tMinsr, chip.tXp - 1, chip.tMrd - 1);
  }

  // ---------------------------------------------------------------- the refresh word

  function TickOf(chip: Chip): (tick: nat)
    ensures tick > 0
  {
    TickPositive(chip.clkDiv);
    Tick(chip.clkDiv)
  }

  lemma OrRefcnt(clkDiv: nat, c: nat)
    requires clkDiv < 8
    ensures Or(Or(Shl(clkDiv, 1), 1), Shl(c, 16)) == 0x1_0000 * c + 2 * clkDiv + 1
  {
    Pow2Table();
    ShlIsProduct(clkDiv, 1, 2);
    OrAt(clkDiv, 1, 1, 2);
    ShlIsProduct(c, 16, 0x1_0000);
    OrCommutes(2 * clkDiv + 1, 0x1_0000 * c);
    OrAt(c, 2 * clkDiv + 1, 16, 0x1_0000);
  }

  lemma RefcntFields(w: nat, clkDiv: nat, c: nat)
    requires clkDiv < 8 && w == 0x1_0000 * c + 2 * clkDiv + 1
    ensures Field(w, 0x7, 1) == clkDiv && And(w, 1) == 1
    ensures Field(w, 0xff, 16) == StoredCount(c)
  {
    assert Field(w, 0x7, 1) == clkDiv by {
      assert Pow2(3) == 8 && Pow2(1) == 2 by { Pow2UpTo12(); }
      FieldAt(w, 0x1000 * c, clkDiv, 1, 3, 8, 1, 2);
    }
    assert And(w, 1) == 1 by {
      LowBit(w, 0x8000 * c + clkDiv);
    }
    RefcntConstant(w, c, 2 * clkDiv + 1, c / 0x100, StoredCount(c));
  }

  lemma LowBit(w: nat, half: nat)
    requires w == 2 * half + 1
    ensures And(w, 1) == 1
  {
    BitAt(w, w, 0, 0, 1);
  }

  lemma RefcntConstant(w: nat, c: nat, low: nat, high: nat, kept: nat)
    requires low < 0x1_0000 && w == 0x1_0000 * c + low && c == 0x100 * high + kept && kept < 0x100
    ensures Field(w, 0xff, 16) == kept
  {
    assert Pow2(8) == 0x100 by { Pow2UpTo12(); }
    assert Pow2(16) == 0x1_0000 by { Pow2UpTo32(); }
    FieldAt(w, high, kept, low, 8, 0x100, 16, 0x1_0000);
  }

  // ---------------------------------------------------------------- packing the words

  /** The register values that are computed once and written at every initialisation. */
  class CommonRegs {
    var timing1: nat
    var timing2: nat
    var refcnt: nat

    constructor ()
    {
      timing1, timing2, refcnt := 0, 0, 0;
    }

    /** timing1 |= d << bit */
    method OrIntoTiming1(d: nat, bit: nat, ghost h: nat, ghost weight: nat)
      requires weight == Pow2(bit) && d < 16 && timing1 == (16 * weight) * h
      modifies `timing1
      ensures timing1 == old(timing1) + weight * d
    {
      OrDigit(timing1, h, d, bit, weight);
      timing1 := Or(timing1, Shl(d, bit));
    }

    /** All digits of the first word but the last. */
    method PackTiming1(d7: nat, d6: nat, d5: nat, d4: nat, d3: nat, d2: nat, d1: nat)
      requires d7 < 16 && d6 < 16 && d5 < 16 && d4 < 16 && d3 < 16 && d2 < 16 && d1 < 16
      modifies `timing1
      ensures timing1 == Timing1Word(d7, d6, d5, d4, d3, d2, d1, 0)
    {
      Pow2Table();
      ShlIsProduct(d7, 28, 0x1000_0000);
      timing1 := Shl(d7, 28);
      ghost var h := d7;
      OrIntoTiming1(d6, 24, h, 0x100_0000);
      h := 16 * h + d6;
      OrIntoTiming1(d5, 20, h, 0x10_0000);
      h := 16 * h + d5;
      OrIntoTiming1(d4, 16, h, 0x1_0000);
      h := 16 * h + d4;
      OrIntoTiming1(d3, 12, h, 0x1000);
      h := 16 * h + d3;
      OrIntoTiming1(d2, 8, h, 0x100);
      h := 16 * h + d2;
      OrIntoTiming1(d1, 4, h, 0x10);
    }

    /** The last digit is one less than its count: for a count of 0 it wraps, and fills the whole word. */
    method OrTwtr(tWtr: nat, ghost h: nat)
      requires tWtr <= 4 && timing1 == 16 * h < 0x1_0000_0000
      modifies `timing1
      ensures timing1 == if tWtr == 0 then 0xffff_ffff else old(timing1) + (tWtr - 1)
    {
      ghost var was := timing1;
      timing1 := Or(timing1, Wrap(tWtr - 1));
      if tWtr == 0 {
        Pow2Table();
        OrAllOnes(was, 0xffff_ffff, 32);
      } else {
        OrDigit(was, h, tWtr - 1, 0, 1);
      }
    }

    method StoreTiming1(tRas: nat, tRtp: nat, tRp: nat, tRcd: nat, tRc: nat, tRrd: nat, tWr: nat, tWtr: nat)
      requires tRas < 32 && 1 <= tRtp <= 4 && 1 <= tRp <= 8 && 1 <= tRcd <= 8
      requires tRc < 32 && 1 <= tRrd <= 4 && 1 <= tWr <= 8 && tWtr <= 4
      modifies `timing1
      ensures tWtr > 0 ==> UpperCycles(timing1, tRas, tRtp, tRp, tRcd) && LowerCycles(timing1, tRc, tRrd, tWr, tWtr)
      ensures tWtr == 0 ==> timing1 == 0xffff_ffff
    {
      PackTiming1(tRas / 2, tRtp - 1, tRp - 1, tRcd - 1, tRc / 2, tRrd - 1, tWr - 1);
      ghost var hi := 0x1000 * (tRas / 2) + 0x100 * (tRtp - 1) + 0x10 * (tRp - 1) + (tRcd - 1);
      ghost var mid := 0x100 * (tRc / 2) + 0x10 * (tRrd - 1) + (tWr - 1);
      OrTwtr(tWtr, 0x1000 * hi + mid);
      if tWtr > 0 {
        UpperRead(timing1, tRas, tRtp, tRp, tRcd, 0x10 * mid + (tWtr - 1));
        LowerRead(timing1, hi, tRc, tRrd, tWr, tWtr);
      }
    }

    /** The word is right exactly when the write-to-read delay is not zero. */
    method ComputeTiming1(chip: Chip, memClk: u32)
      requires memClk >= 1000 && Listed(chip)
      modifies `timing1
      ensures chip.tWtr > 0 ==>
                && Timing1For(timing1, chip, memClk)
                && Field(timing1, 0xf, 28) == Clamp(Count(chip.tRas, memClk), 1, 31) / 2
                && Field(timing1, 0x3, 24) + 1 == Clamp(Count(chip.tRtp, memClk), 1, 4)
                && Field(timing1, 0x7, 20) + 1 == Clamp(Count(chip.tRp, memClk), 1, 8)
                && Field(timing1, 0x7, 16) + 1 == Clamp(Count(chip.tRcd, memClk), 1, 8)
                && Field(timing1, 0xf, 12) == Clamp(Count(chip.tRc, memClk), 3, 31) / 2
                && Field(timing1, 0x3, 8) + 1 == Clamp(Count(chip.tRrd, memClk), 2, 4)
                && Field(timing1, 0x7, 4) + 1 == Clamp(Count(chip.tWr, memClk), 2, 6)
                && Field(timing1, 0x3, 0) + 1 ==
                   Clamp(if chip.tWtr > 5 then Count(chip.tWtr, memClk) else chip.tWtr, 1, 4)
      ensures chip.tWtr == 0 ==> timing1 == 0xffff_ffff
    {
      var tRas := Clamp(Count(chip.tRas, memClk), 1, 31);
      var tRtp := Clamp(Count(chip.tRtp, memClk), 1, 4);
      var tRp := Clamp(Count(chip.tRp, memClk), 1, 8);
      var tRcd := Clamp(Count(chip.tRcd, memClk), 1, 8);
      var tRc := Clamp(Count(chip.tRc, memClk), 3, 31);
      var tRrd := Clamp(Count(chip.tRrd, memClk), 2, 4);
      var tWr := Clamp(Count(chip.tWr, memClk), 2, 6);
      if chip.tWtr > 5 { CountPositive(chip.tWtr, memClk); }
      var tWtr := Clamp(if chip.tWtr > 5 then Count(chip.tWtr, memClk) else chip.tWtr, 0, 4);
      StoreTiming1(tRas, tRtp, tRp, tRcd, tRc, tRrd, tWr, tWtr);
    }

    method ComputeTiming2(chip: Chip, memClk: u32) returns (ghost tRfc: nat, ghost tMinsr: nat)
      requires memClk >= 1000 && Listed(chip)
      modifies `timing2
      ensures timing2 == Timing2Word(tRfc, 0, tMinsr, chip.tXp - 1, chip.tMrd - 1)
      ensures tRfc < 16 && Halved(tRfc, Clamp(Count(chip.tRfc, memClk), 0, 31))
      ensures tMinsr < 16 && MinsrFor(tMinsr, Clamp(chip.tMinsr, 9, 129))
    {
      var tmp := Clamp(Count(chip.tRfc, memClk), 0, 31);
      tRfc := tmp / 2;
      timing2 := Shl(tmp / 2, 24);
      tmp := Clamp(chip.tMinsr, 9, 129);
      MinsrRounds(tmp);
      tmp := if (tmp - 1) % 8 == 0 then (tmp - 1) / 8 - 1 else (tmp - 1) / 8;
      tMinsr := tmp;
      timing2 := Or(timing2, Shl(tmp, 8));
      timing2 := Or(timing2, Or(Shl(chip.tXp - 1, 4), chip.tMrd - 1));
      OrTiming2(tRfc, tMinsr, chip.tXp - 1, chip.tMrd - 1);
    }

    /** The count is stated with the tick that the word itself names: 16 cycles, times two for each step of its
        divider. */
    method ComputeRefcnt(chip: Chip, memClk: u32)
      requires memClk > 0 && Listed(chip)
      modifies `refcnt
      ensures Field(refcnt, 0x7, 1) == chip.clkDiv && And(refcnt, 1) == 1
      ensures var tick := 16 * Pow2(Field(refcnt, 0x7, 1));
              var c := RefreshCount(chip.tRefi, tick, memClk);
              && refcnt == 0x1_0000 * c + 2 * chip.clkDiv + 1
              && Field(refcnt, 0xff, 16) == StoredCount(c)
              && (OnTime(Field(refcnt, 0xff, 16), chip.tRefi, tick, memClk) <==> RoomForTwo(chip.tRefi, tick, memClk))
    {
      refcnt := Or(Shl(chip.clkDiv, 1), 1);
      var tick := TickOf(chip);
      var c := RefreshCount(chip.tRefi, tick, memClk);
      refcnt := Or(refcnt, Shl(c, 16));
      OrRefcnt(chip.clkDiv, c);
      RefcntFields(refcnt, chip.clkDiv, c);
      RefreshOnTimeExactly(chip.tRefi, tick, memClk);
    }

    /** The part of initialisation that touches the common registers: it makes room for this tsel. */
    method InitController(tsel: Tsel)
      modifies `timing2
      ensures timing2 == SetRwcov(old(timing2), tsel)
      ensures old(timing2) < 0x1_0000_0000 ==>
                Field(timing2, 0x3, 19) == match tsel case 0 => 0 case 1 => 0 case 2 => 1 case 3 => 2
    {
      timing2 := And(timing2, 0xffff_ffff - 0x18_0000);
      timing2 := Or(timing2, Shl(if tsel == 0 then 0 else tsel - 1, 19));
      if old(timing2) < 0x1_0000_0000 {
        RwcovField(old(timing2), tsel);
      }
    }

    /** A calibration: the second word is computed once, then the controller is initialised over and over. */
    method Run(chip: Chip, memClk: u32, tsels: seq<Tsel>)
      requires memClk >= 1000 && Listed(chip)
      modifies `timing2
      ensures Timing2For(timing2, chip, memClk, LastRwcov(0, tsels))
      ensures Field(timing2, 0x3f, 24) == Clamp(Count(chip.tRfc, memClk), 0, 31) / 2
      ensures Clamp(chip.tMinsr, 9, 129) <= 8 * (Field(timing2, 0xf, 8) + 1) + 1
      ensures Field(timing2, 0xf, 8) > 0 ==> 8 * Field(timing2, 0xf, 8) + 1 < Clamp(chip.tMinsr, 9, 129)
      ensures Field(timing2, 0x7, 4) + 1 == chip.tXp && Field(timing2, 0x3, 0) + 1 == chip.tMrd
      ensures Field(timing2, 0x3, 19) == if tsels == [] || tsels[|tsels| - 1] == 0 then 0 else tsels[|tsels| - 1] - 1
      ensures Ps(memClk) * memClk <= 1000 * GIGA && Count(chip.tRfc, memClk) <= 31 ==>
                LongEnough(2 * Field(timing2, 0x3f, 24) + 1, chip.tRfc, memClk)
      ensures chip.tMinsr <= 8 * (Field(timing2, 0xf, 8) + 1) + 1 <==> chip.tMinsr <= 129
    {
      ghost var tRfc, tMinsr := ComputeTiming2(chip, memClk);
      ghost var word := timing2;
      for i := 0 to |tsels|
        invariant timing2 == AfterInits(word, tsels[..i])
      {
        InitController(tsels[i]);
        assert tsels[..i + 1][..i] == tsels[..i];
      }
      assert tsels[..|tsels|] == tsels;
      Timing2Survives(chip, memClk, tRfc, tMinsr, tsels);
      Timing2WaitsLongEnough(timing2, chip, memClk, LastRwcov(0, tsels));
    }
  }
}
