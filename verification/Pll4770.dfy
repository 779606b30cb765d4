/** Choosing the PLL dividers of the JZ4770: a closed form with range checks. */
module Pll4770 {
  import opened Arith
  import opened Bits
  import opened Pll

  const PLL_OUT_MAX := 1200

  /** The program stops for good instead of returning when a range check fails. */
  datatype PllOutcome = Stuck | Word(value: nat)

  type Exponent = e: nat | e < 4

  /** Output divider exponent for a wanted speed in MHz; there is none below 48 MHz. */
  datatype Od = NoOd | Od(exponent: Exponent)

  function ChooseOd(out: nat): Od {
    if out > 600 then Od(0)
    else if out > 300 then Od(0)
    else if out > 155 then Od(1)
    else if out > 76 then Od(2)
    else if out > 47 then Od(3)
    else NoOd
  }

  /** Bits 31, 24-30, 18-22 and 16-17 of the PLL control register hold the band, M, N and OD; N is always 0. */
  function Pack(mo: nat, od: nat, bs: nat): nat {
    Or(Or(Or(Shl(mo, 24), Shl(0, 18)), Shl(od, 16)), Shl(bs, 31))
  }

  /** Above 1200 MHz the source uses a divider that it never set, so the model does not cover those speeds. */
  function PllCalcMNOd(speed: u32, xtal: u32): PllOutcome
    requires xtal >= MHZ && speed / MHZ <= PLL_OUT_MAX
  {
    var ext, out := xtal / MHZ, speed / MHZ;
    match ChooseOd(out)
    case NoOd => Stuck
    case Od(od) =>
      var nr, no := 1, OutputDivider(od);
      var mo := Wrap(QuotientBound(out, ext); out / ext * nr * no - 1);
      var nf := Wrap(mo + 1);
      var fout := Mul(ext, nf) / nr / no;
      if ext / nr > 50 || ext / nr < 10 then Stuck
      else if mo > 127 || mo < 1 then Stuck
      else
        var bs := if Mul(fout, no) < 500 then 0 else 1;
        if Mul(fout, no) > PLL_OUT_MAX || Mul(fout, no) < 300 then Stuck
        else Word(Pack(mo, od, bs))
  }

  lemma QuotientBound(out: nat, ext: nat)
    requires ext >= 1 && out <= PLL_OUT_MAX
    ensures 0 <= out / ext <= out
  {
    QuotientIsLargest(out, ext, out / ext);
    MulMonotone(1, ext, out / ext);
  }

  /** The whole-number ratio that the program goes for. */
  function Ratio(speed: u32, xtal: u32): nat
    requires xtal >= MHZ
  {
    (speed / MHZ) / (xtal / MHZ)
  }

  function Multiple(xtal: u32, ratio: nat): nat {
    MulMonotone(0, ratio, xtal);
    ratio * xtal
  }

  /** The values of the local variables, free of wrap-around. */
  lemma Locals(out: nat, ext: nat, q: nat, no: nat)
    requires 1 <= ext && out <= PLL_OUT_MAX && q == out / ext && no in {1, 2, 4, 8}
    ensures ext * q <= out && 0 <= q <= out
    ensures Wrap(Wrap(q * 1 * no - 1) + 1) == q * no
    ensures q > 0 ==> Wrap(q * 1 * no - 1) == q * no - 1
    ensures q == 0 ==> Wrap(q * 1 * no - 1) == 0xffff_ffff
    ensures Mul(ext, q * no) / 1 / no == ext * q
    ensures Mul(ext * q, no) == ext * q * no <= 9600
  {
    QuotientBound(out, ext);
    assert ext * q <= out by { QuotientIsLargest(out, ext, q); }
    WrappedM(q, no);
    ScaledOutput(ext, q, no, ext * q);
  }

  lemma WrappedM(q: nat, no: nat)
    requires q <= PLL_OUT_MAX && no in {1, 2, 4, 8}
    ensures Wrap(Wrap(q * 1 * no - 1) + 1) == q * no
    ensures q > 0 ==> Wrap(q * 1 * no - 1) == q * no - 1
    ensures q == 0 ==> Wrap(q * 1 * no - 1) == 0xffff_ffff
  {
    var y := q * no;
    assert q * 1 * no == y && 0 <= y <= 9600 && (q > 0 ==> y > 0);
  }

  lemma ScaledOutput(ext: nat, q: nat, no: nat, x: nat)
    requires x == ext * q <= PLL_OUT_MAX && no in {1, 2, 4, 8}
    ensures Mul(ext, q * no) / 1 / no == x
    ensures Mul(x, no) == ext * q * no <= 9600
  {
    var y := x * no;
    assert ext * q * no == y;
    assert ext * (q * no) == y by { assert ext * (q * no) == (ext * q) * no; }
    SmallMultiple(x, no, y);
  }

  lemma SmallMultiple(x: nat, no: nat, y: nat)
    requires y == x * no && x <= PLL_OUT_MAX && no in {1, 2, 4, 8}
    ensures 0 <= y <= 9600 && y % 0x1_0000_0000 == y && y / 1 / no == x
  {
    if no == 1 {} else if no == 2 {} else if no == 4 {} else {}
  }

  /** Exactly when the program returns. */
  predicate Returns(speed: u32, xtal: u32)
    requires xtal >= MHZ && speed / MHZ <= PLL_OUT_MAX
  {
    var ext, od := xtal / MHZ, ChooseOd(speed / MHZ);
    && od.Od? && 10 <= ext <= 50
    && 2 <= Ratio(speed, xtal) * OutputDivider(od.exponent) <= 128
    && 300 <= ext * Ratio(speed, xtal) * OutputDivider(od.exponent) <= PLL_OUT_MAX
  }

  lemma ReturnsExactly(speed: u32, xtal: u32)
    requires xtal >= MHZ && speed / MHZ <= PLL_OUT_MAX
    ensures PllCalcMNOd(speed, xtal).Word? <==> Returns(speed, xtal)
  {
    var od := ChooseOd(speed / MHZ);
    if od.Od? {
      Locals(speed / MHZ, xtal / MHZ, Ratio(speed, xtal), OutputDivider(od.exponent));
    }
  }

  /** The same in plain numbers. */
  lemma ReturnsInNumbers(speed: u32, xtal: u32)
    requires xtal >= MHZ && speed / MHZ <= PLL_OUT_MAX
    ensures var ext, out := xtal / 1_000_000, speed / 1_000_000;
            var no := if out > 300 then 1 else if out > 155 then 2 else if out > 76 then 4 else 8;
            PllCalcMNOd(speed, xtal).Word? <==>
            out >= 48 && 10 <= ext <= 50 && 2 <= out / ext * no <= 128 && 300 <= ext * (out / ext) * no <= 1200
  {
    ReturnsExactly(speed, xtal);
  }

  lemma ProductOfThree(ext: nat, q: nat, no: nat, m: nat)
    requires m == q * no
    ensures ext * q * no == ext * m
  {
  }

  lemma ReturnedFields(speed: u32, xtal: u32, word: nat) returns (mo: nat, od: nat, bs: nat)
    requires xtal >= MHZ && speed / MHZ <= PLL_OUT_MAX && PllCalcMNOd(speed, xtal) == Word(word)
    ensures word == Pack(mo, od, bs)
    ensures 1 <= mo <= 127 && od < 4 && bs < 2 && mo + 1 == Ratio(speed, xtal) * OutputDivider(od)
    ensures (xtal / MHZ) * Ratio(speed, xtal) * OutputDivider(od) <= PLL_OUT_MAX
    ensures bs == 1 <==> (xtal / MHZ) * (mo + 1) >= 500
    ensures ChooseOd(speed / MHZ) == Od(od)
  {
    var ext, q := xtal / MHZ, Ratio(speed, xtal);
    od := ChooseOd(speed / MHZ).exponent;
    var no := OutputDivider(od);
    Locals(speed / MHZ, ext, q, no);
    mo := Wrap(q * 1 * no - 1);
    assert q > 0 && mo == q * no - 1 && Mul(ext, Wrap(mo + 1)) / 1 / no == ext * q;
    bs := if Mul(ext * q, no) < 500 then 0 else 1;
    assert Mul(ext * q, no) == ext * (mo + 1) by {
      ProductOfThree(ext, q, no, mo + 1);
    }
  }

  // ---------------------------------------------------------------- reading the register back

  /** The output frequency that the chip header computes from the register. */
  function PllOut(reg: nat, extal: u32): nat
    requires Field(reg, 0x3, 16) < 4
  {
    if Running(reg) then
      var m := Field(reg, 0x7f, 24) + 1;
      var n := Field(reg, 0x1f, 18) + 1;
      var no := OutputDivider(Field(reg, 0x3, 16));
      assert n * no > 0 by { MulMonotone(1, n, no); }
      ShrinkingQuotient(Mul(extal, m), n * no);
      Mul(extal, m) / (n * no)
    else extal
  }

  function Register(mo: nat, od: nat, bs: nat): nat {
    0x8000_0000 * bs + 0x100_0000 * mo + 0x1_0000 * od + 0x120
  }

  lemma PackIsSum(mo: nat, od: nat, bs: nat)
    requires mo <= 0x7f && od < 4 && bs < 2
    ensures Pack(mo, od, bs) == Register(mo, od, bs) - 0x120
  {
    var word := 0x100_0000 * mo;
    assert Pow2(16) == 0x1_0000 && Pow2(18) == 0x4_0000 && Pow2(24) == 0x100_0000 by { Pow2UpTo32(); }
    assert Shl(mo, 24) == word by { ShlIsProduct(mo, 24, 0x100_0000); }
    assert Or(word, Shl(0, 18)) == word by {
      ShlIsProduct(0, 18, 0x4_0000);
      OrZero(word);
    }
    assert Or(word, Shl(od, 16)) == word + 0x1_0000 * od by { OrField(word, mo, 24, 0x100_0000, od, 16, 0x1_0000); }
    TopBit(word + 0x1_0000 * od, bs);
  }

  lemma TopBit(lo: nat, bs: nat)
    requires lo < 0x8000_0000
    ensures Or(lo, Shl(bs, 31)) == 0x8000_0000 * bs + lo
  {
    assert Pow2(31) == 0x8000_0000 by { Pow2UpTo32(); }
    assert Shl(bs, 31) == 0x8000_0000 * bs by { ShlIsProduct(bs, 31, 0x8000_0000); }
    OrCommutes(lo, 0x8000_0000 * bs);
    OrAt(bs, lo, 31, 0x8000_0000);
  }

  lemma EnabledIsSum(mo: nat, od: nat, bs: nat)
    requires mo <= 0x7f && od < 4 && bs < 2
    ensures Enabled(Pack(mo, od, bs)) == Register(mo, od, bs)
  {
    var high := 0x8000 * bs + 0x100 * mo + od;
    assert Pack(mo, od, bs) == 0x1_0000 * high by { PackIsSum(mo, od, bs); }
    assert Enabled(0x1_0000 * high) == 0x1_0000 * high + 0x120 by { EnabledRuns(high); }
  }

  lemma RegisterRuns(mo: nat, od: nat, bs: nat)
    ensures Running(Register(mo, od, bs))
  {
    EnabledRuns(0x8000 * bs + 0x100 * mo + od);
  }

  lemma FieldM(mo: nat, od: nat, bs: nat)
    requires mo <= 0x7f && od < 4 && bs < 2
    ensures Field(Register(mo, od, bs), 0x7f, 24) == mo
  {
    assert Pow2(7) == 0x80 by { Pow2UpTo12(); }
    assert Pow2(24) == 0x100_0000 by { Pow2UpTo32(); }
    FieldAt(Register(mo, od, bs), bs, mo, 0x1_0000 * od + 0x120, 7, 0x80, 24, 0x100_0000);
  }

  lemma FieldN(mo: nat, od: nat, bs: nat)
    requires mo <= 0x7f && od < 4 && bs < 2
    ensures Field(Register(mo, od, bs), 0x1f, 18) == 0
  {
    assert Pow2(5) == 0x20 by { Pow2UpTo12(); }
    assert Pow2(18) == 0x4_0000 by { Pow2UpTo32(); }
    FieldAt(Register(mo, od, bs), 0x100 * bs + 2 * mo, 0, 0x1_0000 * od + 0x120, 5, 0x20, 18, 0x4_0000);
  }

  lemma FieldOd(mo: nat, od: nat, bs: nat)
    requires mo <= 0x7f && od < 4 && bs < 2
    ensures Field(Register(mo, od, bs), 0x3, 16) == od
  {
    assert Pow2(2) == 4 by { Pow2UpTo12(); }
    assert Pow2(16) == 0x1_0000 by { Pow2UpTo32(); }
    FieldAt(Register(mo, od, bs), 0x2000 * bs + 64 * mo, od, 0x120, 2, 4, 16, 0x1_0000);
  }

  lemma BoundedProduct(xtal: u32, m: nat)
    requires xtal >= MHZ && (xtal / MHZ) * m <= PLL_OUT_MAX
    ensures xtal * m <= 2 * MHZ * PLL_OUT_MAX
  {
    var ext := xtal / MHZ;
    assert xtal <= 2 * MHZ * ext;
    MulMonotone(xtal, 2 * MHZ * ext, m);
    assert (2 * MHZ * ext) * m == 2 * MHZ * (ext * m);
  }

  /** The decoder's product of crystal frequency and multiplier stays below 2^32, so that dividing it is exact. */
  lemma DecoderFits(xtal: u32, ratio: nat, no: nat)
    requires xtal >= MHZ && no > 0 && (xtal / MHZ) * ratio * no <= PLL_OUT_MAX
    ensures Multiple(xtal, ratio * no) < 0x1_0000_0000
    ensures Mul(xtal, ratio * no) / no == Multiple(xtal, ratio)
  {
    var m := ratio * no;
    assert (xtal / MHZ) * m == (xtal / MHZ) * ratio * no;
    BoundedProduct(xtal, m);
    assert xtal * m >= 0;
    DivModUnique(xtal * m, 0x1_0000_0000, 0, xtal * m);
    assert xtal * m == (ratio * xtal) * no;
    DivModUnique(xtal * m, no, ratio * xtal, 0);
  }

  predicate DecodesTo(word: nat, xtal: u32, f: nat) {
    Field(Enabled(word), 0x3, 16) < 4 && PllOut(Enabled(word), xtal) == f
  }

  lemma PllOutWithoutN(reg: nat, extal: u32, m: nat, od: nat)
    requires Running(reg) && od < 4
    requires Field(reg, 0x7f, 24) == m && Field(reg, 0x1f, 18) == 0 && Field(reg, 0x3, 16) == od
    ensures PllOut(reg, extal) == Mul(extal, m + 1) / OutputDivider(od)
  {
    assert (0 + 1) * OutputDivider(od) == OutputDivider(od);
  }

  lemma RegisterDecodes(mo: nat, od: nat, bs: nat, xtal: u32, f: nat)
    requires mo <= 0x7f && od < 4 && bs < 2 && Mul(xtal, mo + 1) / OutputDivider(od) == f
    ensures DecodesTo(Pack(mo, od, bs), xtal, f)
    ensures Field(Enabled(Pack(mo, od, bs)), 0x7f, 24) == mo
  {
    EnabledIsSum(mo, od, bs);
    RegisterRuns(mo, od, bs);
    FieldM(mo, od, bs);
    FieldN(mo, od, bs);
    FieldOd(mo, od, bs);
    PllOutWithoutN(Register(mo, od, bs), xtal, mo, od);
  }

  lemma FieldsDecode(xtal: u32, ratio: nat, no: nat, mo: nat, od: nat, bs: nat)
    requires xtal >= MHZ && mo <= 127 && od < 4 && bs < 2 && no == OutputDivider(od) && mo + 1 == ratio * no
    requires (xtal / MHZ) * ratio * no <= PLL_OUT_MAX
    ensures DecodesTo(Pack(mo, od, bs), xtal, Multiple(xtal, ratio))
  {
    DecoderFits(xtal, ratio, no);
    RegisterDecodes(mo, od, bs, xtal, Multiple(xtal, ratio));
  }

  /** Whenever the program returns, the register decodes to that multiple of the crystal frequency, exactly. */
  lemma DecodedOutput(speed: u32, xtal: u32, word: nat)
    requires xtal >= MHZ && speed / MHZ <= PLL_OUT_MAX && PllCalcMNOd(speed, xtal) == Word(word)
    ensures DecodesTo(word, xtal, Multiple(xtal, Ratio(speed, xtal)))
  {
    var mo, od, bs := ReturnedFields(speed, xtal, word);
    FieldsDecode(xtal, Ratio(speed, xtal), OutputDivider(od), mo, od, bs);
  }

  /** The band bit of a returned word is set exactly from 500 MHz on, before the output divider. */
  lemma BandBit(speed: u32, xtal: u32, word: nat)
    requires xtal >= MHZ && speed / MHZ <= PLL_OUT_MAX && PllCalcMNOd(speed, xtal) == Word(word)
    ensures And(word, 0x8000_0000) != 0 <==> (xtal / MHZ) * (Field(Enabled(word), 0x7f, 24) + 1) >= 500
  {
    var mo, od, bs := ReturnedFields(speed, xtal, word);
    ReturnedM(word, mo, od, bs);
    TopBitOf(word, mo, od, bs);
  }

  lemma ReturnedM(word: nat, mo: nat, od: nat, bs: nat)
    requires mo <= 0x7f && od < 4 && bs < 2 && word == Pack(mo, od, bs)
    ensures Field(Enabled(word), 0x7f, 24) == mo
  {
    EnabledIsSum(mo, od, bs);
    FieldM(mo, od, bs);
  }

  lemma TopBitOf(word: nat, mo: nat, od: nat, bs: nat)
    requires mo <= 0x7f && od < 4 && bs < 2 && word == Pack(mo, od, bs)
    ensures And(word, 0x8000_0000) != 0 <==> bs == 1
  {
    var low := 0x100_0000 * mo + 0x1_0000 * od;
    assert word == 0x8000_0000 * bs + low by { PackIsSum(mo, od, bs); }
    assert Pow2(31) == 0x8000_0000 by { Pow2UpTo32(); }
    FlagAt(word, 0, bs, low, 31, 0x8000_0000);
  }

  /** The fields of a returned word: N is 0, and the output divider goes by the wanted speed in MHz. */
  lemma DividerBySpeed(speed: u32, xtal: u32, word: nat)
    requires xtal >= MHZ && speed / MHZ <= PLL_OUT_MAX && PllCalcMNOd(speed, xtal) == Word(word)
    ensures speed >= 48_000_000 && Field(Enabled(word), 0x1f, 18) == 0
    ensures Field(Enabled(word), 0x3, 16) == if speed >= 301_000_000 then 0
                                             else if speed >= 156_000_000 then 1
                                             else if speed >= 77_000_000 then 2
                                             else 3
  {
    var mo, od, bs := ReturnedFields(speed, xtal, word);
    EnabledIsSum(mo, od, bs);
    FieldN(mo, od, bs);
    FieldOd(mo, od, bs);
  }

  /** The output falls short of the wanted speed by less than one crystal period exactly when the ratio taken in
      whole MHz is the true ratio. */
  lemma OutputClose(speed: u32, xtal: u32)
    requires xtal >= MHZ
    ensures Multiple(xtal, Ratio(speed, xtal)) <= speed < Multiple(xtal, Ratio(speed, xtal)) + xtal <==>
            Ratio(speed, xtal) == speed / xtal
  {
    var q := Ratio(speed, xtal);
    assert Multiple(xtal, q) + xtal == (q + 1) * xtal;
    QuotientIsLargest(speed, xtal, q);
    QuotientIsLargest(speed, xtal, q + 1);
  }

  ghost predicate AlwaysClose(xtal: u32)
    requires xtal >= MHZ
  {
    forall speed: u32 | speed / MHZ <= PLL_OUT_MAX && Returns(speed, xtal) ::
      Multiple(xtal, Ratio(speed, xtal)) <= speed < Multiple(xtal, Ratio(speed, xtal)) + xtal
  }

  /** With a crystal that the program accepts, every output is that close exactly when the crystal is one of whole
      MHz. */
  lemma CloseExactly(xtal: u32)
    requires 10 <= xtal / MHZ <= 50
    ensures AlwaysClose(xtal) <==> xtal % MHZ == 0
  {
    if xtal % MHZ == 0 {
      forall speed: u32 | speed / MHZ <= PLL_OUT_MAX
        ensures Multiple(xtal, Ratio(speed, xtal)) <= speed < Multiple(xtal, Ratio(speed, xtal)) + xtal
      {
        WholeCrystal(speed, xtal);
        OutputClose(speed, xtal);
      }
    } else {
      var ext, q := xtal / MHZ, PLL_OUT_MAX / (xtal / MHZ);
      TopSpeed(ext, q);
      var speed: u32 := MHZ * (ext * q);
      DivModUnique(ext * q, ext, q, 0);
      assert speed / MHZ == ext * q && Ratio(speed, xtal) == q;
      assert q * xtal == q * (MHZ * ext) + q * (xtal % MHZ);
      assert q * (MHZ * ext) == MHZ * (ext * q);
      MulMonotone(1, q, xtal % MHZ);
      assert Returns(speed, xtal);
    }
  }

  /** The largest multiple of the crystal, in MHz, that the program can be asked for. */
  lemma TopSpeed(ext: nat, q: nat)
    requires 10 <= ext <= 50 && q == PLL_OUT_MAX / ext
    ensures 24 <= q <= 120 && 1150 <= ext * q <= PLL_OUT_MAX
  {
    QuotientIsLargest(PLL_OUT_MAX, ext, 24);
    QuotientIsLargest(PLL_OUT_MAX, ext, 121);
    QuotientIsLargest(PLL_OUT_MAX, ext, q);
    QuotientIsLargest(PLL_OUT_MAX, ext, q + 1);
    assert (q + 1) * ext == q * ext + ext;
  }

  /** For a crystal of whole MHz it always is, whatever the speed. */
  lemma WholeCrystal(speed: u32, xtal: u32)
    requires xtal >= MHZ && xtal % MHZ == 0
    ensures Ratio(speed, xtal) == speed / xtal
  {
    DivDiv(speed, MHZ, xtal / MHZ);
  }

  /** Otherwise it need not be: asked for 190 MHz from 19.9 MHz, the program sets 199 MHz. */
  lemma FractionalCrystal()
    ensures Returns(190_000_000, 19_900_000)
    ensures Multiple(19_900_000, Ratio(190_000_000, 19_900_000)) == 199_000_000
  {
  }

  /** With the 12 MHz crystal of the board the program hangs on 77 to 83 MHz, although 48 to 1200 MHz are meant to
      work. */
  lemma BoardCrystal(speed: u32)
    requires speed / MHZ <= PLL_OUT_MAX
    ensures PllCalcMNOd(speed, 12_000_000).Word? <==>
            48 <= speed / MHZ <= 76 || 84 <= speed / MHZ
  {
    ReturnsExactly(speed, 12_000_000);
    var out := speed / MHZ;
    BoardRanges(out, out / 12, 1);
    BoardRanges(out, out / 12, 2);
    BoardRanges(out, out / 12, 4);
    BoardRanges(out, out / 12, 8);
  }

  lemma BoardRanges(out: nat, q: nat, no: nat)
    requires q == out / 12 && out <= PLL_OUT_MAX && no in {1, 2, 4, 8}
    ensures ChooseOd(out).Od? && OutputDivider(ChooseOd(out).exponent) == no ==>
              (2 <= q * no <= 128 && 300 <= 12 * q * no <= PLL_OUT_MAX <==> 48 <= out <= 76 || 84 <= out)
    ensures ChooseOd(out).NoOd? ==> out < 48
  {
    assert 12 * q <= out < 12 * q + 12;
    if no == 1 {} else if no == 2 {} else if no == 4 {} else {}
  }
}
