/** The configuration word of the DDR controller: the shape of the memory is packed into it, and the size of the
    memory is worked out from it later. */
module DdrGeometry {
  import opened Arith
  import opened Bits

  /** Address widths, CAS latency, eight banks rather than four, 32 data lines rather than 16, chips in use. */
  datatype Geometry = Geometry(row: nat, col: nat, cl: nat, bank8: bool, dw32: bool, cs1: bool, cs0: bool)

  /** What the fields of the word can express. */
  predicate Expressible(g: Geometry) {
    12 <= g.row <= 15 && 8 <= g.col <= 11 && 1 <= g.cl <= 8
  }

  const TYPE_DDR2: nat := 0x4000

  function Flag(b: bool): nat {
    if b then 1 else 0
  }

  function Chips(g: Geometry): nat {
    Flag(g.cs1) + Flag(g.cs0)
  }

  /** Bytes of one chip select: rows, columns, bytes a column, banks. */
  function ChipBytes(g: Geometry): nat {
    Pow2(g.row) * Pow2(g.col) * (if g.dw32 then 4 else 2) * (if g.bank8 then 8 else 4)
  }

  function Capacity(g: Geometry): nat {
    ChipBytes(g) * Chips(g)
  }

  // ---------------------------------------------------------------- the word

  /** The fields of the word say what g says, for protected DDR2 memory; latencies carry an offset. */
  predicate Describes(word: nat, g: Geometry) {
    && And(word, 0x8000) != 0
    && Field(word, 0x7, 12) == 4
    && Field(word, 0x3, 10) + 12 == g.row
    && Field(word, 0x3, 8) + 8 == g.col
    && (And(word, 0x80) != 0 <==> g.cs1)
    && (And(word, 0x40) != 0 <==> g.cs0)
    && Field(word, 0xf, 2) == g.cl + 7
    && (And(word, 2) != 0 <==> g.bank8)
    && (And(word, 1) != 0 <==> g.dw32)
  }

  lemma OrWidths(word: nat, kind: nat, row: nat, col: nat)
    requires row < 4 && col < 4 && word == 0x1000 * kind
    ensures Or(Or(word, Shl(row, 10)), Shl(col, 8)) == 0x1000 * kind + 0x400 * row + 0x100 * col
  {
    Pow2Table();
    OrField(word, kind, 12, 0x1000, row, 10, 0x400);
    OrField(word + 0x400 * row, 4 * kind + row, 10, 0x400, col, 8, 0x100);
  }

  lemma OrSelects(word: nat, h: nat, cs1: nat, cs0: nat)
    requires cs1 < 2 && cs0 < 2 && word == 0x100 * h
    ensures Or(Or(word, Shl(cs1, 7)), Shl(cs0, 6)) == 0x100 * h + 0x80 * cs1 + 0x40 * cs0
  {
    Pow2Table();
    OrField(word, h, 8, 0x100, cs1, 7, 0x80);
    OrField(word + 0x80 * cs1, 2 * h + cs1, 7, 0x80, cs0, 6, 0x40);
  }

  lemma OrLatency(cl: nat, three: nat, eight: nat)
    requires 1 <= cl <= 8 && eight == 8 == Pow2(three)
    ensures Or(cl - 1, eight) == cl + 7
  {
    OrCommutes(cl - 1, eight);
    OrAt(1, cl - 1, three, eight);
  }

  lemma OrBanks(word: nat, h: nat, cl: nat, bank8: nat, dw: nat)
    requires word == 0x40 * h && cl < 16 && bank8 < 2 && dw < 2
    ensures Or(Or(Or(word, Shl(cl, 2)), Shl(bank8, 1)), dw) == word + 4 * cl + 2 * bank8 + dw
  {
    assert Pow2(6) == 0x40 && Pow2(2) == 4 && Pow2(1) == 2 by { Pow2UpTo12(); }
    var v := word + 4 * cl;
    var w := v + 2 * bank8;
    assert Or(word, Shl(cl, 2)) == v by { OrField(word, h, 6, 0x40, cl, 2, 4); }
    assert Or(v, Shl(bank8, 1)) == w by { OrField(v, 16 * h + cl, 2, 4, bank8, 1, 2); }
    assert Or(w, dw) == w + dw by { OrAt(32 * h + 2 * cl + bank8, dw, 1, 2); }
  }

  lemma OrProtect(word: nat, weight: nat, bit: nat)
    requires word < weight && weight == Pow2(bit)
    ensures Or(word, Shl(1, bit)) == word + weight
  {
    ShlIsProduct(1, bit, weight);
    OrCommutes(word, weight);
    OrAt(1, word, bit, weight);
  }

  lemma TypeFields(word: nat, low: nat, bit: nat, weight: nat)
    requires weight == 0x8000 == Pow2(bit) && low < 0x1000 && word == 0xc000 + low
    ensures And(word, weight) != 0 && Field(word, 0x7, 12) == 4
  {
    assert Pow2(3) == 8 && Pow2(12) == 0x1000 by { Pow2UpTo12(); }
    BitAt(word, 1, 0x4000 + low, bit, weight);
    FieldAt(word, 1, 4, low, 3, 8, 12, 0x1000);
  }

  lemma WidthFields(word: nat, kind: nat, row: nat, col: nat, low: nat)
    requires row < 4 && col < 4 && low < 0x100
    requires word == 0x1000 * kind + 0x400 * row + 0x100 * col + low
    ensures Field(word, 0x3, 10) == row && Field(word, 0x3, 8) == col
  {
    assert Pow2(2) == 4 && Pow2(8) == 0x100 && Pow2(10) == 0x400 by { Pow2UpTo12(); }
    FieldAt(word, kind, row, 0x100 * col + low, 2, 4, 10, 0x400);
    FieldAt(word, 4 * kind + row, col, low, 2, 4, 8, 0x100);
  }

  lemma SelectFields(word: nat, top: nat, cs1: nat, cs0: nat, low: nat, w7: nat, w6: nat)
    requires cs1 < 2 && cs0 < 2 && low < 0x40 && w7 == 0x80 == Pow2(7) && w6 == 0x40 == Pow2(6)
    requires word == 0x100 * top + 0x80 * cs1 + 0x40 * cs0 + low
    ensures And(word, w7) != 0 <==> cs1 == 1
    ensures And(word, w6) != 0 <==> cs0 == 1
  {
    FlagAt(word, top, cs1, 0x40 * cs0 + low, 7, w7);
    FlagAt(word, 2 * top + cs1, cs0, low, 6, w6);
  }

  lemma BankFields(word: nat, top: nat, bank8: nat, dw: nat, two: nat, one: nat)
    requires bank8 < 2 && dw < 2 && word == 4 * top + 2 * bank8 + dw && two == 2 == Pow2(1) && one == 1 == Pow2(0)
    ensures And(word, one) != 0 <==> dw == 1
    ensures And(word, two) != 0 <==> bank8 == 1
  {
    FlagAt(word, top, bank8, dw, 1, two);
    FlagAt(word, 2 * top + bank8, dw, 0, 0, one);
  }

  lemma LatencyField(word: nat, h: nat, cl: nat, low: nat)
    requires cl < 16 && low < 4 && word == 0x40 * h + 4 * cl + low
    ensures Field(word, 0xf, 2) == cl
  {
    assert Pow2(4) == 16 && Pow2(2) == 4 by { Pow2UpTo12(); }
    FieldAt(word, h, cl, low, 4, 16, 2, 4);
  }

  lemma ProtectBit()
    ensures Pow2(15) == 0x8000
  {
    Pow2Table();
    FourDoublings(12);
  }

  lemma UpperFields(word: nat, row: nat, col: nat, low: nat)
    requires row < 4 && col < 4 && low < 0x100 && word == 0xc000 + 0x400 * row + 0x100 * col + low
    ensures And(word, 0x8000) != 0 && Field(word, 0x7, 12) == 4
    ensures Field(word, 0x3, 10) == row && Field(word, 0x3, 8) == col
  {
    assert And(word, 0x8000) != 0 && Field(word, 0x7, 12) == 4 by {
      ProtectBit();
      TypeFields(word, 0x400 * row + 0x100 * col + low, 15, 0x8000);
    }
    WidthFields(word, 12, row, col, low);
  }

  lemma LowerFields(word: nat, top: nat, cs1: nat, cs0: nat, cl: nat, bank8: nat, dw: nat)
    requires cs1 < 2 && cs0 < 2 && cl < 16 && bank8 < 2 && dw < 2
    requires word == 0x100 * top + 0x80 * cs1 + 0x40 * cs0 + 4 * cl + 2 * bank8 + dw
    ensures And(word, 0x80) != 0 <==> cs1 == 1
    ensures And(word, 0x40) != 0 <==> cs0 == 1
    ensures Field(word, 0xf, 2) == cl
    ensures And(word, 2) != 0 <==> bank8 == 1
    ensures And(word, 1) != 0 <==> dw == 1
  {
    assert Pow2(7) == 0x80 && Pow2(6) == 0x40 && Pow2(1) == 2 by { Pow2UpTo12(); }
    SelectFields(word, top, cs1, cs0, 4 * cl + 2 * bank8 + dw, 0x80, 0x40);
    var h := 4 * top + 2 * cs1 + cs0;
    LatencyField(word, h, cl, 2 * bank8 + dw);
    BankFields(word, 0x10 * h + cl, bank8, dw, 2, 1);
  }

  lemma ConfigFields(word: nat, g: Geometry, h: nat)
    requires Expressible(g) && h == 0x100 + 0x10 * (g.row - 12) + 4 * (g.col - 8) + 2 * Flag(g.cs1) + Flag(g.cs0)
    requires word == 0x8000 + 0x40 * h + 4 * (g.cl + 7) + 2 * Flag(g.bank8) + Flag(g.dw32)
    ensures Describes(word, g)
  {
    var cs1, cs0, bank8, dw := Flag(g.cs1), Flag(g.cs0), Flag(g.bank8), Flag(g.dw32);
    var row, col, cl := g.row - 12, g.col - 8, g.cl + 7;
    UpperFields(word, row, col, 0x80 * cs1 + 0x40 * cs0 + 4 * cl + 2 * bank8 + dw);
    LowerFields(word, 0xc0 + 4 * row + col, cs1, cs0, cl, bank8, dw);
  }

  // ---------------------------------------------------------------- the size

  lemma Doubled(x: nat, y: nat)
    ensures 2 * (x * y) == (2 * x) * y
  {
  }

  lemma {:induction false} PowersMultiply(a: nat, b: nat)
    ensures Pow2(a + b) == Pow2(a) * Pow2(b)
  {
    if a > 0 {
      PowersMultiply(a - 1, b);
      Doubled(Pow2(a - 1), Pow2(b));
    }
  }

  /** log2 of the bytes of one chip select */
  function Lg(g: Geometry): nat {
    g.row + g.col + (if g.dw32 then 2 else 1) + (if g.bank8 then 3 else 2)
  }

  lemma ChipBytesIsPower(g: Geometry)
    ensures ChipBytes(g) == Pow2(Lg(g))
    ensures ChipBytes(g) == Shl(1, g.row + g.col) * (if g.dw32 then 4 else 2) * (if g.bank8 then 8 else 4)
  {
    var n := g.row + g.col;
    PowersMultiply(g.row, g.col);
    ShlIsProduct(1, n, Pow2(n));
    FourDoublings(n);
    assert Pow2(n + 5) == 2 * Pow2(n + 4);
  }

  /** What the size loses when it is kept in a machine word: nothing, for all shapes but one. */
  lemma SizeFitsExactly(g: Geometry)
    requires Expressible(g)
    ensures Capacity(g) % 0x1_0000_0000 == Capacity(g) <==>
            !(g.row == 15 && g.col == 11 && g.dw32 && g.bank8 && g.cs1 && g.cs0)
  {
    var n, bytes := Lg(g), ChipBytes(g);
    assert bytes == Pow2(n) by { ChipBytesIsPower(g); }
    assert bytes <= if n < 31 then 0x4000_0000 else 0x8000_0000 by { PowerBelow(n); }
    assert n == 31 ==> bytes == 0x8000_0000 by { PowerBelow(n); }
    ChipsFit(bytes, Chips(g));
  }

  lemma PowerBelow(n: nat)
    requires n <= 31
    ensures n < 31 ==> Pow2(n) <= 0x4000_0000
    ensures n == 31 ==> Pow2(n) == 0x8000_0000
  {
    assert Pow2(31) == 0x8000_0000 by { Pow2UpTo32(); }
    if n < 31 {
      assert Pow2(31) == 2 * Pow2(30);
      if n < 30 { Pow2Increases(n, 30); }
    }
  }

  lemma ChipsFit(bytes: nat, chips: nat)
    requires bytes <= 0x4000_0000 || bytes == 0x8000_0000
    requires chips <= 2
    ensures bytes * chips % 0x1_0000_0000 == bytes * chips <==> !(bytes == 0x8000_0000 && chips == 2)
  {
    assert bytes * chips == if chips == 0 then 0 else if chips == 1 then bytes else 2 * bytes;
  }

  // ---------------------------------------------------------------- the controller

  /** The size that a configuration word stands for, as a product of machine words. */
  method InitDram(cfg: nat, chips: nat, ghost g: Geometry) returns (size: u32)
    requires Expressible(g) && Describes(cfg, g) && chips == Chips(g)
    ensures size == Capacity(g) % 0x1_0000_0000
    ensures size == Pow2(g.row + g.col) * (if g.dw32 then 4 else 2) * (if g.bank8 then 8 else 4) *
                    ((if g.cs1 then 1 else 0) + (if g.cs0 then 1 else 0)) % 0x1_0000_0000
  {
    var rows, cols := 12 + Field(cfg, 0x3, 10), 8 + Field(cfg, 0x3, 8);
    var dw := if And(cfg, 1) != 0 then 4 else 2;
    var banks := if And(cfg, 2) != 0 then 8 else 4;
    var cells := Shl(1, rows + cols);
    size := cells * dw % 0x1_0000_0000 * banks % 0x1_0000_0000;
    ChipBytesIsPower(g);
    ShlIsProduct(1, rows + cols, Pow2(rows + cols));
    ProductModulo(cells * dw, banks, 0x1_0000_0000);
    ProductModulo(ChipBytes(g), chips, 0x1_0000_0000);
    size := size * chips % 0x1_0000_0000;
  }

  /** Type, address widths and chip selects. */
  method PackShape(row: nat, col: nat, cs1: nat, cs0: nat) returns (word: nat)
    requires row < 4 && col < 4 && cs1 < 2 && cs0 < 2
    ensures word == 0x4000 + 0x400 * row + 0x100 * col + 0x80 * cs1 + 0x40 * cs0
  {
    word := Or(Or(TYPE_DDR2, Shl(row, 10)), Shl(col, 8));
    OrWidths(TYPE_DDR2, 4, row, col);
    OrSelects(word, 64 + 4 * row + col, cs1, cs0);
    word := Or(Or(word, Shl(cs1, 7)), Shl(cs0, 6));
  }

  /** CAS latency, banks and data width. */
  method PackRest(shape: nat, ghost h: nat, cl: nat, bank8: nat, dw: nat) returns (word: nat)
    requires shape == 0x40 * h && 1 <= cl <= 8 && bank8 < 2 && dw < 2
    ensures word == shape + 4 * (cl + 7) + 2 * bank8 + dw
  {
    var latency := Or(cl - 1, 8);
    assert latency == cl + 7 by {
      Pow2Table();
      OrLatency(cl, 3, 8);
    }
    OrBanks(shape, h, latency, bank8, dw);
    word := Or(Or(Or(shape, Shl(latency, 2)), Shl(bank8, 1)), dw);
  }

  method DdrMemInit(g: Geometry) returns (cfg: nat)
    requires Expressible(g)
    ensures Describes(cfg, g)
  {
    cfg := PackShape(g.row - 12, g.col - 8, Flag(g.cs1), Flag(g.cs0));
    ghost var h := 0x100 + 0x10 * (g.row - 12) + 4 * (g.col - 8) + 2 * Flag(g.cs1) + Flag(g.cs0);
    cfg := PackRest(cfg, h, g.cl, Flag(g.bank8), Flag(g.dw32));
    ProtectBit();
    OrProtect(cfg, 0x8000, 15);
    cfg := Or(cfg, Shl(1, 15));
    ConfigFields(cfg, g, h);
  }
}
