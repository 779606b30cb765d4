/** The two address windows behind which the chips of the memory appear. */
module DdrMap {
  import opened Arith
  import opened Bits
  import opened DdrGeometry

  const PHY_BASE: u32 := 0x2000_0000
  const GRAIN: nat := 0x100_0000

  /** A window takes an address when the address, through the mask, is the base. */
  predicate Selects(mmap: nat, addr: u32) {
    And(Shr(addr, 24), Field(mmap, 0xff, 0)) == Field(mmap, 0xff, 8)
  }

  predicate Within(addr: u32, from: nat, size: nat) {
    from <= addr < from + size
  }

  /** Each chip answers at its own addresses, one chip after the other, and nowhere else. */
  ghost predicate Serves(mmap0: nat, mmap1: nat, chip: nat) {
    forall addr: u32 ::
      && (Selects(mmap0, addr) <==> Within(addr, PHY_BASE, chip))
      && (Selects(mmap1, addr) <==> Within(addr, PHY_BASE + chip, chip))
  }

  // ---------------------------------------------------------------- the mask

  lemma ByteIsRemainder(v: nat, ones: nat)
    requires ones == 0xff
    ensures And(v, ones) == v % 0x100
  {
    var q, r := v / 0x100, v % 0x100;
    assert Pow2(8) == 0x100 by { Pow2UpTo12(); }
    assert v == Shl(q, 8) + r by { ShlIsProduct(q, 8, 0x100); }
    AndLowMask(q, r, 8);
  }

  lemma {:induction false} AndCommutes(a: nat, b: nat)
    ensures And(a, b) == And(b, a)
    decreases a + b
  {
    if a != 0 || b != 0 {
      AndCommutes(a / 2, b / 2);
    }
  }

  lemma {:induction false} ShrIsQuotient(v: nat, n: nat, weight: nat)
    requires weight == Pow2(n)
    ensures Shr(v, n) == v / weight
    decreases n
  {
    if n > 0 {
      ShrIsQuotient(v / 2, n - 1, Pow2(n - 1));
      DivDiv(v, 2, Pow2(n - 1));
    }
  }

  function LowByte(v: u32): (r: u32)
    ensures r == v % 0x100
  {
    ByteIsRemainder(v, 0xff);
    And(v, 0xff)
  }

  /** 0xff & ~((grains - 1) & 0xff) */
  function MaskFor(grains: nat): (mask: nat)
    requires grains < 0x100
    ensures mask == if grains == 0 then 0 else 0x100 - grains
  {
    LowByteOfLess(grains);
    LowByteOfComplement(LowByte(Wrap(grains - 1)));
    LowByte(0xffff_ffff - LowByte(Wrap(grains - 1)))
  }

  lemma LowByteOfLess(grains: nat)
    requires grains < 0x100
    ensures LowByte(Wrap(grains - 1)) == if grains == 0 then 0xff else grains - 1
  {
  }

  lemma LowByteOfComplement(low: nat)
    requires low < 0x100
    ensures LowByte(0xffff_ffff - low) == 0xff - low
  {
    DivModUnique(0xffff_ffff - low, 0x100, 0xff_ffff, 0xff - low);
  }

  // ---------------------------------------------------------------- the windows

  /** Masking a multiple of m, in eight bits, rounds down to a multiple of m. */
  lemma MaskRoundsDown(q: nat, r: nat, t: nat, mask: nat, ones: nat, j: nat, k: nat, m: nat)
    requires m == Pow2(j) && r < m && ones + 1 == Pow2(k) && q <= ones
    requires t == m * q + r && mask == m * ones
    ensures And(t, mask) == m * q
  {
    assert t == Shl(q, j) + r by { ShlIsProduct(q, j, m); }
    assert mask == Shl(ones, j) by { ShlIsProduct(ones, j, m); }
    AndOnHalves(t, q, r, mask, ones, 0, j);
    AndZero(r);
    AndAllOnes(q, ones, k, ones + 1);
    ShlIsProduct(q, j, m);
  }

  function MmapWord(base: nat, mask: nat): nat {
    Or(Shl(base, 8), mask)
  }

  lemma MmapFields(base: nat, mask: nat)
    requires base < 0x100 && mask < 0x100
    ensures Field(MmapWord(base, mask), 0xff, 8) == base && Field(MmapWord(base, mask), 0xff, 0) == mask
  {
    Pow2Table();
    ShlIsProduct(base, 8, 0x100);
    OrAt(base, mask, 8, 0x100);
    FieldAt(0x100 * base + mask, 0, base, mask, 8, 0x100, 8, 0x100);
    FieldAt(0x100 * base + mask, base, mask, 0, 8, 0x100, 0, 1);
  }

  lemma SameMultiple(t: nat, q: nat, r: nat, b: nat, m: nat)
    requires t == m * q + r && r < m
    ensures m * q == m * b <==> m * b <= t < m * b + m
  {
    if q < b {
      MulMonotone(q + 1, b, m);
      assert (q + 1) * m == m * q + m;
    } else if b < q {
      MulMonotone(b + 1, q, m);
      assert (b + 1) * m == m * b + m;
    }
  }

  /** m is a power of two, and so is the number of its multiples in a byte. */
  predicate PartsOfByte(m: nat, j: nat, ones: nat, k: nat) {
    m == Pow2(j) && ones + 1 == Pow2(k) && m * ones == 0x100 - m
  }

  lemma MultipleInByte(t: nat, m: nat, ones: nat)
    requires t < 0x100 && m > 0 && m * ones == 0x100 - m
    ensures t / m <= ones
  {
    QuotientIsLargest(t, m, ones + 1);
    assert (ones + 1) * m == m * ones + m;
  }

  lemma MaskSelects(t: nat, b: nat, mask: nat, m: nat, j: nat, ones: nat, k: nat)
    requires PartsOfByte(m, j, ones, k) && mask == m * ones && t < 0x100
    ensures And(t, mask) == m * b <==> m * b <= t < m * b + m
  {
    var q, r := t / m, t % m;
    assert t == m * q + r;
    MultipleInByte(t, m, ones);
    MaskRoundsDown(q, r, t, mask, ones, j, k, m);
    SameMultiple(t, q, r, b, m);
  }

  /** A window of m grains takes exactly the grains from a multiple of m on. */
  lemma WindowTakes(addr: u32, base: nat, b: nat, mask: nat, m: nat, j: nat, ones: nat, k: nat)
    requires PartsOfByte(m, j, ones, k) && mask == m * ones && mask < 0x100 && base == m * b && base < 0x100
    ensures Selects(MmapWord(base, mask), addr) <==> Within(addr, GRAIN * base, GRAIN * m)
  {
    var t := addr / GRAIN;
    assert Shr(addr, 24) == t by {
      Pow2Table();
      ShrIsQuotient(addr, 24, GRAIN);
    }
    MmapFields(base, mask);
    MaskSelects(t, b, mask, m, j, ones, k);
  }

  /** The windows serve both chips when a chip is a part of the byte that divides the base. */
  lemma GoodWindows(base0: nat, base1: nat, mask: nat, grains: nat, j: nat, ones: nat, k: nat, b: nat)
    requires PartsOfByte(grains, j, ones, k) && base0 == 0x20 == grains * b && base1 == base0 + grains <= 0x40
    requires mask == 0x100 - grains
    ensures Serves(MmapWord(base0, mask), MmapWord(base1, mask), GRAIN * grains)
  {
    assert grains > 0;
    assert base1 == grains * (b + 1);
    forall addr: u32
      ensures Selects(MmapWord(base0, mask), addr) <==> Within(addr, PHY_BASE, GRAIN * grains)
      ensures Selects(MmapWord(base1, mask), addr) <==> Within(addr, PHY_BASE + GRAIN * grains, GRAIN * grains)
    {
      WindowTakes(addr, base0, b, mask, grains, j, ones, k);
      WindowTakes(addr, base1, b + 1, mask, grains, j, ones, k);
    }
  }

  lemma MaskedAway(base: nat, mask: nat, q: nat, n: nat, weight: nat)
    requires weight == Pow2(n) && base < weight && mask == weight * q
    ensures And(base, mask) == 0
  {
    assert mask == Shl(q, n) by { ShlIsProduct(q, n, weight); }
    assert base == Shl(0, n) + base by { ShlIsProduct(0, n, weight); }
    AndOnHalves(base, 0, base, mask, q, 0, n);
    AndZero(base);
    AndCommutes(0, q);
    AndZero(q);
    ShlIsProduct(0, n, weight);
  }

  /** A mask without the base's own digit makes the first window miss the very first address. */
  lemma BadWindows(base: nat, mask: nat, q: nat, mmap1: nat, chip: nat)
    requires base == 0x20 && mask == 0x40 * q < 0x100 && chip > 0
    ensures !Serves(MmapWord(base, mask), mmap1, chip)
  {
    var first := PHY_BASE;
    MmapFields(base, mask);
    assert Shr(first, 24) == base && And(base, mask) == 0 by {
      Pow2Table();
      ShrIsQuotient(first, 24, GRAIN);
      MaskedAway(base, mask, q, 6, 0x40);
    }
    assert !Selects(MmapWord(base, mask), first);
    assert Within(first, PHY_BASE, chip);
  }

  /** The six sizes that do: 16 to 512 megabytes. */
  lemma GoodSizes(base0: nat, base1: nat, mask: nat, grains: nat, j: nat)
    requires j <= 5 && grains == Pow2(j) && base0 == 0x20 && base1 == base0 + grains && mask == 0x100 - grains
    ensures Serves(MmapWord(base0, mask), MmapWord(base1, mask), GRAIN * grains)
  {
    Pow2Table();
    assert Pow2(0) == 1;
    match j
    case 0 => GoodWindows(base0, base1, mask, grains, 0, 0xff, 8, 0x20);
    case 1 => GoodWindows(base0, base1, mask, grains, 1, 0x7f, 7, 0x10);
    case 2 => GoodWindows(base0, base1, mask, grains, 2, 0x3f, 6, 8);
    case 3 => GoodWindows(base0, base1, mask, grains, 3, 0x1f, 5, 4);
    case 4 => GoodWindows(base0, base1, mask, grains, 4, 0xf, 4, 2);
    case 5 => GoodWindows(base0, base1, mask, grains, 5, 7, 3, 1);
  }

  /** The size of one chip, in grains, as the program finds it. */
  function GrainsOf(memsize: u32, chips: nat): (grains: nat)
    requires chips in {1, 2}
    ensures grains < 0x100
  {
    memsize / chips / GRAIN
  }

  lemma GrainsOfSize(chip: nat, grains: nat, chips: nat)
    requires chips in {1, 2} && GRAIN * grains <= chip < GRAIN * grains + GRAIN && grains <= 0x80
    requires grains == 0x80 ==> chip == 0x8000_0000
    ensures GrainsOf(chip * chips % 0x1_0000_0000, chips) == if grains == 0x80 && chips == 2 then 0 else grains
  {
    if chips == 1 {
      assert chip * chips == chip;
    } else {
      assert chip * chips == 2 * chip;
    }
  }

  lemma PowerInGrains(n: nat)
    requires 23 <= n <= 31
    ensures n == 23 ==> 0 < Pow2(n) < GRAIN
    ensures n >= 24 ==> Pow2(n) == GRAIN * Pow2(n - 24) && (n < 31 ==> Pow2(n - 24) < 0x80)
  {
    Pow2Table();
    if n == 23 {
      assert Pow2(24) == 2 * Pow2(n);
    } else {
      PowersMultiply(24, n - 24);
      if n < 31 { Pow2Increases(n - 24, 7); }
    }
  }

  lemma GrainsOfShape(g: Geometry, n: nat)
    requires Expressible(g) && Chips(g) > 0 && n == Lg(g)
    ensures 23 <= n <= 31
    ensures GrainsOf(Capacity(g) % 0x1_0000_0000, Chips(g))
         == if n == 23 || (n == 31 && Chips(g) == 2) then 0 else Pow2(n - 24)
  {
    ChipBytesIsPower(g);
    PowerInGrains(n);
    assert Pow2(7) == 0x80 by { Pow2Table(); }
    GrainsOfSize(Pow2(n), if n == 23 then 0 else Pow2(n - 24), Chips(g));
  }

  lemma PowerUpTo7(j: nat)
    requires j <= 7
    ensures j <= 5 ==> Pow2(j) <= 0x20
    ensures j == 6 ==> Pow2(j) == 0x40
    ensures j == 7 ==> Pow2(j) == 0x80
  {
    Pow2UpTo12();
    if j < 5 { Pow2Increases(j, 5); }
  }

  /** Windows for a chip of 2^n bytes, when `grains` is the size that the program finds. */
  lemma WindowsForPower(n: nat, chip: nat, grains: nat, base0: nat, mask: nat, mmap1: nat)
    requires 23 <= n <= 31 && chip == Pow2(n) && base0 == 0x20 && mask == if grains == 0 then 0 else 0x100 - grains
    requires n == 23 ==> grains == 0
    requires 24 <= n <= 30 ==> grains == Pow2(n - 24)
    requires n == 31 ==> grains in {0, Pow2(n - 24)}
    requires grains <= 0x20 ==> mmap1 == MmapWord(base0 + grains, mask)
    ensures Serves(MmapWord(base0, mask), mmap1, chip) <==> n in {24, 25, 26, 27, 28, 29}
  {
    PowerInGrains(n);
    if n == 23 {
      BadWindows(base0, mask, 0, mmap1, chip);
    } else {
      PowerUpTo7(n - 24);
      if n <= 29 {
        GoodSizes(base0, base0 + grains, mask, grains, n - 24);
      } else if grains == 0 {
        BadWindows(base0, mask, 0, mmap1, chip);
      } else {
        BadWindows(base0, mask, if n == 30 then 3 else 2, mmap1, chip);
      }
    }
  }

  lemma SizeInGrains(n: nat)
    requires 23 <= n <= 31
    ensures n in {24, 25, 26, 27, 28, 29} <==> 0x100_0000 <= Pow2(n) <= 0x2000_0000
  {
    PowerInGrains(n);
    if n >= 24 {
      PowerUpTo7(n - 24);
    }
  }

  /** Both chips appear in full, one after the other, exactly when each has between 16 and 512 megabytes. */
  lemma WindowsServeExactly(g: Geometry, grains: nat, base0: nat, mmap0: nat, mmap1: nat)
    requires Expressible(g) && Chips(g) > 0 && grains == GrainsOf(Capacity(g) % 0x1_0000_0000, Chips(g)) && base0 == 0x20
    requires mmap0 == MmapWord(base0, MaskFor(grains))
    requires grains <= 0x20 ==> mmap1 == MmapWord(base0 + grains, MaskFor(grains))
    ensures Serves(mmap0, mmap1, ChipBytes(g)) <==> 0x100_0000 <= ChipBytes(g) <= 0x2000_0000
  {
    var n, mask, chip := Lg(g), MaskFor(grains), ChipBytes(g);
    GrainsOfShape(g, n);
    assert chip == Pow2(n) by { ChipBytesIsPower(g); }
    WindowsForPower(n, chip, grains, base0, mask, mmap1);
    SizeInGrains(n);
  }

  // ---------------------------------------------------------------- initialisation

  /** The top byte of an address. */
  function Top(addr: u32): (t: nat)
    ensures t == addr / GRAIN
  {
    Pow2Table();
    ShrIsQuotient(addr, 24, GRAIN);
    Shr(addr, 24)
  }

  lemma SecondBase(memsize: u32, chips: nat, base0: nat)
    requires chips in {1, 2} && base0 == 0x20 && GrainsOf(memsize, chips) <= 0x20
    ensures Wrap(PHY_BASE + memsize / chips) / GRAIN == base0 + GrainsOf(memsize, chips)
  {
  }

  method MapChips(memsize: u32, chips: nat) returns (mmap0: nat, mmap1: nat, ghost base0: nat)
    requires chips in {1, 2}
    ensures base0 == 0x20
    ensures mmap0 == MmapWord(base0, MaskFor(GrainsOf(memsize, chips)))
    ensures mmap1 == MmapWord(Wrap(PHY_BASE + memsize / chips) / GRAIN, MaskFor(GrainsOf(memsize, chips)))
  {
    var base := Top(PHY_BASE);
    var base1 := Top(Wrap(PHY_BASE + memsize / chips));
    var mask := MaskFor(Top(memsize / chips));
    mmap0 := MmapWord(base, mask);
    mmap1 := MmapWord(base1, mask);
    base0 := base;
  }

  /** From the shape of the memory to the windows behind which it appears. */
  method InitMemory(g: Geometry) returns (mmap0: nat, mmap1: nat)
    requires Expressible(g) && Chips(g) > 0
    ensures Serves(mmap0, mmap1, ChipBytes(g)) <==> 0x100_0000 <= ChipBytes(g) <= 0x2000_0000
  {
    var chips := Chips(g);
    var cfg := DdrMemInit(g);
    var memsize := InitDram(cfg, chips, g);
    ghost var base0: nat;
    mmap0, mmap1, base0 := MapChips(memsize, chips);
    ghost var grains := GrainsOf(memsize, chips);
    if grains <= 0x20 {
      SecondBase(memsize, chips, base0);
    }
    WindowsServeExactly(g, grains, base0, mmap0, mmap1);
  }
}
