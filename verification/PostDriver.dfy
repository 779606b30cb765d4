/** Entry point of the power-on self test: the size of the memory, and which windows of it are tested. */
module PostDriver {
  import opened Arith
  import opened Bits
  import opened BoardModel
  import opened MemoryPost

  type u8 = x: int | 0 <= x < 256

  /** The SDRAM part of the firmware arguments; `busWidth` is 0 for 32 lines and non-zero for 16. */
  datatype SdramArgs = SdramArgs(rowAddr: u8, colAddr: u8, bankNum: u8, busWidth: u8)

  const POST_SLOWTEST := 1
  const SDRAM_BASE: u32 := 0xa000_0000

  /** Bytes that the test takes the memory to have, before the machine reduces the number modulo 2^32. */
  function AssumedSize(args: SdramArgs): nat {
    var lines := args.rowAddr + args.colAddr;
    Pow2(if lines == 0 then 1 else lines) * args.bankNum * (if args.busWidth != 0 then 4 else 8)
  }

  /** Bytes that the configuration tool computes for the same arguments. */
  function ConfiguredSize(args: SdramArgs): nat
    requires args.rowAddr + args.colAddr >= 1 && args.busWidth <= 1
  {
    Pow2(args.rowAddr + args.colAddr) * 2 * (args.bankNum + 1) * 2 * (2 - args.busWidth)
  }

  method ComputeMemsize(args: SdramArgs) returns (memsize: u32)
    ensures memsize == AssumedSize(args) % 0x1_0000_0000
    ensures memsize == Pow2(if args.rowAddr + args.colAddr == 0 then 1 else args.rowAddr + args.colAddr) * args.bankNum *
                       (if args.busWidth == 0 then 8 else 4) % 0x1_0000_0000
    ensures memsize % 4 == 0
  {
    var lines := args.rowAddr + args.colAddr;
    memsize := 2;
    var i: nat := 0;
    while i < lines - 1
      invariant 0 <= i && (lines <= 1 ==> i == 0) && (lines > 1 ==> i <= lines - 1)
      invariant memsize == Pow2(i + 1) % 0x1_0000_0000
    {
      DoubledModulo(i + 1);
      memsize := memsize * 2 % 0x1_0000_0000;
      i := i + 1;
    }
    ScaledModulo(Pow2(i + 1), args.bankNum, if args.busWidth != 0 then 4 else 8);
    memsize := memsize * args.bankNum % 0x1_0000_0000;
    memsize := memsize * ((if args.busWidth != 0 then 16 else 32) / 4) % 0x1_0000_0000;
  }

  lemma DoubledModulo(k: nat)
    ensures Pow2(k) % 0x1_0000_0000 * 2 % 0x1_0000_0000 == Pow2(k + 1) % 0x1_0000_0000
  {
    ProductModulo(Pow2(k), 2, 0x1_0000_0000);
  }

  lemma ScaledModulo(p: nat, banks: nat, width: nat)
    requires width == 4 || width == 8
    ensures p % 0x1_0000_0000 * banks % 0x1_0000_0000 * width % 0x1_0000_0000 == p * banks * width % 0x1_0000_0000
    ensures p * banks * width % 0x1_0000_0000 % 4 == 0
  {
    ProductModulo(p, banks, 0x1_0000_0000);
    ProductModulo(p * banks, width, 0x1_0000_0000);
    FourDivides(p * banks * (width / 4));
  }

  lemma FourDivides(x: nat)
    ensures 4 * x % 0x1_0000_0000 % 4 == 0
  {
  }

  lemma ConfiguredFactors(p: nat, groups: nat, busWidth: nat)
    requires busWidth <= 1
    ensures p * 2 * groups * 2 * (2 - busWidth) == if busWidth == 0 then 8 * (p * groups) else 4 * (p * groups)
  {
    assert p * 2 * groups == 2 * (p * groups);
  }

  lemma CrossProduct(p: nat, banks: nat, width: nat)
    ensures width * (p * banks) * (banks + 1) == width * (p * (banks + 1)) * banks
  {
    assert (p * banks) * (banks + 1) == (p * (banks + 1)) * banks;
    assert width * (p * banks) * (banks + 1) == width * ((p * banks) * (banks + 1));
    assert width * (p * (banks + 1)) * banks == width * ((p * (banks + 1)) * banks);
  }

  /** The size under test falls short of the configured size: bankNum parts of bankNum + 1 are tested. */
  lemma SizesCompared(args: SdramArgs)
    requires args.rowAddr + args.colAddr >= 1 && args.busWidth <= 1
    ensures AssumedSize(args) * (args.bankNum + 1) == ConfiguredSize(args) * args.bankNum
    ensures AssumedSize(args) < ConfiguredSize(args)
  {
    var p, banks: nat := Pow2(args.rowAddr + args.colAddr), args.bankNum;
    var width := if args.busWidth == 0 then 8 else 4;
    ConfiguredFactors(p, banks + 1, args.busWidth);
    CrossProduct(p, banks, width);
    assert p * (banks + 1) == p * banks + p;
    assert AssumedSize(args) == width * (p * banks) && ConfiguredSize(args) == width * (p * (banks + 1));
  }

  // ---------------------------------------------------------------- normal mode

  const WINDOW: u32 := 0x800

  /** Normal mode tests the first and the last 2 KiB of every mebibyte; window w starts here. */
  function WindowStart(w: nat): (start: u32)
    requires w < 0x2000
    ensures start % 8 == 0
  {
    WindowInRange(w, w / 2);
    w / 2 * 0x10_0000 + if w % 2 == 0 then 0 else 0xff800
  }

  lemma WindowInRange(w: nat, a: nat)
    requires w < 0x2000 && a == w / 2
    ensures 0 <= a * 0x10_0000 && a * 0x10_0000 + 0xff800 < 0x1_0000_0000
    ensures a * 0x10_0000 % 8 == 0 && (a * 0x10_0000 + 0xff800) % 8 == 0
  {
    RemainderOf(a * 0x10_0000, a * 0x2_0000, 0);
    RemainderOf(a * 0x10_0000 + 0xff800, a * 0x2_0000 + 0x1ff00, 0);
  }

  /** Both windows of a mebibyte are tested exactly when it lies below memsize. */
  function WindowCount(memsize: u32): (n: nat)
    ensures n <= 0x2000
    ensures forall i: nat :: (2 * i < n <==> i * 0x10_0000 + 0x10_0000 <= memsize) && (2 * i < n <==> 2 * i + 1 < n)
  {
    2 * (memsize / 0x10_0000)
  }

  ghost predicate WindowsCertified(f: Fabric, n: nat)
    requires n <= 0x2000
  {
    forall w: nat | w < n :: Certified(f, WindowStart(w), WINDOW)
  }

  /** Windows lie one after the other, and all of them below memsize. */
  lemma WindowsSeparate(memsize: u32, v: nat, w: nat)
    requires v < w < WindowCount(memsize)
    ensures WindowStart(v) + WINDOW <= WindowStart(w) && WindowStart(w) + WINDOW <= memsize
  {
    var a, b := v / 2, w / 2;
    assert v == 2 * a + v % 2 && w == 2 * b + w % 2;
  }

  lemma WindowAddresses(i: nat)
    requires i < 0x1000
    ensures WindowStart(2 * i) == i * 0x10_0000 && WindowStart(2 * i + 1) == i * 0x10_0000 + 0xff800
  {
  }

  /** Nothing changed outside the cells that the first n windows reach. */
  ghost predicate KeptOutsideWindows(f: Fabric, n: nat, before: seq<Word>, after: seq<Word>)
    requires n <= 0x2000
  {
    && |after| == |before|
    && forall c: nat | c < |after| && (forall w: nat | w < n :: !Touched(f, WindowStart(w), WINDOW, c)) ::
         after[c] == before[c]
  }

  /** One window, the w-th of n. */
  method TestWindow(b: Board, start: u32, ghost w: nat, ghost n: nat) returns (ret: int)
    requires b.Valid() && w < n <= 0x2000 && start == WindowStart(w)
    modifies b.cells, b`held, b`written
    ensures ret == if Certified(b.fabric, WindowStart(w), WINDOW) then 0 else -1
    ensures KeptOutsideWindows(b.fabric, n, old(b.cells[..]), b.cells[..])
  {
    ret := MemoryPostTests(b, start, WINDOW);
  }

  /** The two windows of mebibyte i. */
  method TestMebibyte(b: Board, i: u32, ghost n: nat) returns (ret: int)
    requires b.Valid() && 2 * i + 2 <= n <= 0x2000
    modifies b.cells, b`held, b`written
    ensures ret == 0 || ret == -1
    ensures ret == 0 <==>
            Certified(b.fabric, WindowStart(2 * i), WINDOW) && Certified(b.fabric, WindowStart(2 * i + 1), WINDOW)
    ensures KeptOutsideWindows(b.fabric, n, old(b.cells[..]), b.cells[..])
  {
    WindowAddresses(i);
    ret := TestWindow(b, i * 0x10_0000, 2 * i, n);
    if ret == 0 {
      ret := TestWindow(b, i * 0x10_0000 + 0xff800, 2 * i + 1, n);
    }
  }

  /** Of every whole mebibyte below memsize the first and the last 2 KiB are certified. */
  ghost predicate EndsCertified(f: Fabric, memsize: u32) {
    forall start: u32 | start % 0x10_0000 in {0, 0xff800} && start - start % 0x10_0000 + 0x10_0000 <= memsize ::
      Certified(f, start, 0x800)
  }

  lemma WindowsAreEnds(f: Fabric, memsize: u32)
    ensures WindowsCertified(f, WindowCount(memsize)) <==> EndsCertified(f, memsize)
  {
    if WindowsCertified(f, WindowCount(memsize)) {
      forall start: u32 | start % 0x10_0000 in {0, 0xff800} && start - start % 0x10_0000 + 0x10_0000 <= memsize
        ensures Certified(f, start, 0x800)
      {
        var w := EndIsWindow(start, memsize);
      }
    }
    if EndsCertified(f, memsize) {
      forall w: nat | w < WindowCount(memsize)
        ensures Certified(f, WindowStart(w), WINDOW)
      {
        WindowIsEnd(w, memsize);
      }
    }
  }

  lemma EndIsWindow(start: u32, memsize: u32) returns (w: nat)
    requires start % 0x10_0000 in {0, 0xff800} && start - start % 0x10_0000 + 0x10_0000 <= memsize
    ensures w < WindowCount(memsize) && WindowStart(w) == start
  {
    var i := start / 0x10_0000;
    WindowAddresses(i);
    w := if start % 0x10_0000 == 0 then 2 * i else 2 * i + 1;
  }

  lemma WindowIsEnd(w: nat, memsize: u32)
    requires w < WindowCount(memsize)
    ensures WindowStart(w) % 0x10_0000 in {0, 0xff800}
    ensures WindowStart(w) - WindowStart(w) % 0x10_0000 + 0x10_0000 <= memsize
  {
    var i := w / 2;
    WindowAddresses(i);
    DivModUnique(WindowStart(2 * i), 0x10_0000, i, 0);
    DivModUnique(WindowStart(2 * i + 1), 0x10_0000, i, 0xff800);
  }

  lemma TwoMoreWindows(f: Fabric, i: nat)
    requires 2 * i + 2 <= 0x2000
    ensures WindowsCertified(f, 2 * i + 2) <==>
            WindowsCertified(f, 2 * i) &&
            Certified(f, WindowStart(2 * i), WINDOW) && Certified(f, WindowStart(2 * i + 1), WINDOW)
  {
  }

  method TestWindows(b: Board, memsize: u32) returns (ret: int)
    requires b.Valid()
    modifies b.cells, b`held, b`written
    ensures ret == 0 || ret == -1
    ensures ret == 0 <==> WindowsCertified(b.fabric, WindowCount(memsize))
    ensures ret == 0 <==> EndsCertified(b.fabric, memsize)
    ensures KeptOutsideWindows(b.fabric, WindowCount(memsize), old(b.cells[..]), b.cells[..])
  {
    WindowsAreEnds(b.fabric, memsize);
    ret := 0;
    var i := 0;
    while i < memsize / 0x10_0000 && ret == 0
      invariant 0 <= i <= memsize / 0x10_0000
      invariant ret == 0 || ret == -1
      invariant ret == 0 <==> WindowsCertified(b.fabric, 2 * i)
      invariant KeptOutsideWindows(b.fabric, WindowCount(memsize), old(b.cells[..]), b.cells[..])
    {
      TwoMoreWindows(b.fabric, i);
      ret := TestMebibyte(b, i, WindowCount(memsize));
      i := i + 1;
    }
  }

  method MemoryPostTest(b: Board, args: SdramArgs, flags: u32) returns (ret: int)
    requires b.Valid()
    modifies b.cells, b`held, b`written
    ensures ret == 0 || ret == -1
    ensures var memsize := AssumedSize(args) % 0x1_0000_0000;
            if flags % 2 == 1 then
              && (ret == 0 <==> Certified(b.fabric, SDRAM_BASE, memsize))
              && KeptOutsideRegion(b.fabric, SDRAM_BASE, memsize, old(b.cells[..]), b.cells[..])
            else
              && (ret == 0 <==> WindowsCertified(b.fabric, WindowCount(memsize)))
              && (ret == 0 <==> EndsCertified(b.fabric, memsize))
              && KeptOutsideWindows(b.fabric, WindowCount(memsize), old(b.cells[..]), b.cells[..])
  {
    var memsize := ComputeMemsize(args);
    if flags % 2 == POST_SLOWTEST {
      ret := MemoryPostTests(b, SDRAM_BASE, memsize);
    } else {
      ret := TestWindows(b, memsize);
    }
  }

  // ---------------------------------------------------------------- which dead address lines the two modes see

  /** The word that appears at w when the address line of weight g, in words, is dead. */
  function DropLine(w: nat, g: nat): (r: nat)
    requires g > 0
    ensures r == w || (r == w - g && w / g > 0)
  {
    QuotientIsLargest(w, g, 1);
    if w / g % 2 == 1 then w - g else w
  }

  /** A sound board but for one dead address line. */
  function DeadLine(g: nat): Fabric
    requires g > 0
  {
    Fabric(seq(64, p requires 0 <= p < 64 => Wired(p)), w => DropLine(w, g), c => seq(32, _ => Sound))
  }

  function WordIndex(start: u32, i: nat): (w: nat)
    ensures w < 0x4000_0000
  {
    (start / 4 + i) % 0x4000_0000
  }

  lemma WordIndexBelow(start: u32, i: nat)
    requires start / 4 + i < 0x8000_0000
    ensures WordIndex(start, i) == if start / 4 + i < 0x4000_0000 then start / 4 + i else start / 4 + i - 0x4000_0000
  {
  }

  lemma CellOnDeadLine(g: nat, start: u32, i: nat)
    requires g > 0
    ensures CellAt(DeadLine(g), start, i) == DropLine(WordIndex(start, i), g)
  {
  }

  /** What a quotient says about a word beside the line. */
  lemma DropByQuotient(w: nat, g: nat, q: nat, r: nat)
    requires w == q * g + r && r < g
    ensures DropLine(w, g) == if q % 2 == 1 then w - g else w
  {
    DivModUnique(w, g, q, r);
  }

  /** A board with a dead line has no other fault: all depends on the decoder. */
  lemma CertifiedBesideLine(g: nat, start: u32, size: u32)
    requires g > 0 && start % 8 == 0 && size % 4 == 0 && size >= 16
    ensures Certified(DeadLine(g), start, size) <==> RegionInjective(DeadLine(g), start, size / 4)
  {
    CertifiedRegion(DeadLine(g), start, size);
  }

  /** A region no longer than the line's weight does not notice it, wherever it lies. */
  lemma ShortRegionPasses(g: nat, start: u32, n: nat)
    requires 0 < g <= 0x2000_0000 && n <= g
    ensures RegionInjective(DeadLine(g), start, n)
  {
    forall i: nat, j: nat | i < j < n
      ensures CellAt(DeadLine(g), start, i) != CellAt(DeadLine(g), start, j)
    {
      CellOnDeadLine(g, start, i);
      CellOnDeadLine(g, start, j);
      WordIndexBelow(start, i);
      WordIndexBelow(start, j);
    }
  }

  lemma TwiceReached(g: nat, start: u32, n: nat, i: nat, j: nat)
    requires g > 0 && i < j < n && DropLine(WordIndex(start, i), g) == DropLine(WordIndex(start, j), g)
    ensures !RegionInjective(DeadLine(g), start, n)
  {
    CellOnDeadLine(g, start, i);
    CellOnDeadLine(g, start, j);
  }

  lemma LineWeight(k: nat)
    requires 2 <= k < 32
    ensures 0 < Pow2(k - 2) <= 0x2000_0000
    ensures Pow2(k - 2) >= 0x200 <==> k >= 11
  {
    assert Pow2(9) == 0x200 by { Pow2UpTo12(); }
    assert Pow2(29) == 0x2000_0000 by {
      Pow2UpTo32();
      FourDoublings(28);
    }
    if k < 31 { Pow2Increases(k - 2, 29); }
    if k < 11 { Pow2Increases(k - 2, 9); }
    if k > 11 { Pow2Increases(9, k - 2); }
  }

  /** Normal mode tests each window by itself, so that it sees a dead address line exactly when the line stays within
      a window: up to bit 10. */
  lemma NormalModeSeesDeadLine(k: nat, n: nat)
    requires 2 <= k < 32 && n <= 0x2000
    ensures Pow2(k - 2) > 0
    ensures WindowsCertified(DeadLine(Pow2(k - 2)), n) <==> n == 0 || k >= 11
  {
    var g := Pow2(k - 2);
    LineWeight(k);
    if k >= 11 {
      forall w: nat | w < n
        ensures Certified(DeadLine(g), WindowStart(w), WINDOW)
      {
        ShortRegionPasses(g, WindowStart(w), 0x200);
        CertifiedBesideLine(g, WindowStart(w), WINDOW);
      }
    } else if n > 0 {
      FirstWindowFails(g);
    }
  }

  lemma FirstWindowFails(g: nat)
    requires 0 < g < 0x200
    ensures !Certified(DeadLine(g), WindowStart(0), WINDOW)
  {
    DropByQuotient(0, g, 0, 0);
    DropByQuotient(g, g, 1, 0);
    TwiceReached(g, 0, 0x200, 0, g);
    CertifiedBesideLine(g, 0, WINDOW);
  }

  /** Slow mode sees each of them exactly when the tested region reaches past the line. The base of the region has
      bit 29 set, so that for this line the region has to reach past it twice. */
  lemma SlowModeSeesDeadLine(k: nat, size: u32)
    requires 2 <= k < 32 && size % 4 == 0 && size >= 16
    ensures Pow2(k - 2) > 0
    ensures Certified(DeadLine(Pow2(k - 2)), SDRAM_BASE, size) <==>
            size / 4 <= if k == 29 then 2 * Pow2(k - 2) else Pow2(k - 2)
  {
    var g, n := Pow2(k - 2), size / 4;
    LineWeight(k);
    CertifiedBesideLine(g, SDRAM_BASE, size);
    if n <= g {
      ShortRegionPasses(g, SDRAM_BASE, n);
    } else if k == 29 {
      Line29(g, n);
    } else {
      LongRegionFails(k, g, n);
    }
  }

  /** Past the line the first word is reached again, unless the base has the line set. */
  lemma LongRegionFails(k: nat, g: nat, n: nat)
    requires 2 <= k < 32 && k != 29 && g == Pow2(k - 2) && n > g
    ensures !RegionInjective(DeadLine(g), SDRAM_BASE, n)
  {
    if k <= 28 {
      LowLineFails(k, g, n);
    } else {
      assert Pow2(28) == 0x1000_0000 && Pow2(29) == 0x2000_0000 by {
        Pow2UpTo32();
        FourDoublings(28);
      }
      if k == 30 {
        Line30Fails(g, n);
      } else {
        Line31Fails(g, n);
      }
    }
  }

  lemma LowLineFails(k: nat, g: nat, n: nat)
    requires 2 <= k <= 28 && g == Pow2(k - 2) && n > g
    ensures !RegionInjective(DeadLine(g), SDRAM_BASE, n)
  {
    var q := BaseBesideLine(k, g);
    var base := SDRAM_BASE / 4;
    DropByQuotient(base, g, q, 0);
    assert (q + 1) * g == q * g + g;
    DropByQuotient(base + g, g, q + 1, 0);
    WordIndexBelow(SDRAM_BASE, 0);
    WordIndexBelow(SDRAM_BASE, g);
    TwiceReached(g, SDRAM_BASE, n, 0, g);
  }

  lemma Line30Fails(g: nat, n: nat)
    requires g == 0x1000_0000 && n > g
    ensures !RegionInjective(DeadLine(g), SDRAM_BASE, n)
  {
    DropByQuotient(0x2800_0000, g, 2, 0x800_0000);
    DropByQuotient(0x3800_0000, g, 3, 0x800_0000);
    WordIndexBelow(SDRAM_BASE, 0);
    WordIndexBelow(SDRAM_BASE, g);
    TwiceReached(g, SDRAM_BASE, n, 0, g);
  }

  /** The addresses wrap, and reach the word below the base that the line makes the first one appear at. */
  lemma Line31Fails(g: nat, n: nat)
    requires g == 0x2000_0000 && n > g
    ensures !RegionInjective(DeadLine(g), SDRAM_BASE, n)
  {
    DropByQuotient(0x2800_0000, g, 1, 0x800_0000);
    DropByQuotient(0x800_0000, g, 0, 0x800_0000);
    WordIndexBelow(SDRAM_BASE, 0);
    WordIndexBelow(SDRAM_BASE, g);
    TwiceReached(g, SDRAM_BASE, n, 0, g);
  }

  lemma Line29(g: nat, n: nat)
    requires g == Pow2(27)
    ensures g == 0x800_0000
    ensures RegionInjective(DeadLine(g), SDRAM_BASE, n) <==> n <= 2 * g
  {
    assert g == 0x800_0000 by {
      Pow2UpTo32();
      FourDoublings(24);
    }
    if n <= 2 * g {
      forall i: nat, j: nat | i < j < n
        ensures CellAt(DeadLine(g), SDRAM_BASE, i) != CellAt(DeadLine(g), SDRAM_BASE, j)
      {
        CellOnDeadLine(g, SDRAM_BASE, i);
        CellOnDeadLine(g, SDRAM_BASE, j);
        WordIndexBelow(SDRAM_BASE, i);
        WordIndexBelow(SDRAM_BASE, j);
        if j >= g {
          DropByQuotient(0x2800_0000 + j, g, 6, j - g);
        } else {
          DropByQuotient(0x2800_0000 + j, g, 5, j);
          DropByQuotient(0x2800_0000 + i, g, 5, i);
        }
      }
    } else {
      DropByQuotient(0x3000_0000, g, 6, 0);
      DropByQuotient(0x3800_0000, g, 7, 0);
      WordIndexBelow(SDRAM_BASE, g);
      WordIndexBelow(SDRAM_BASE, 2 * g);
      TwiceReached(g, SDRAM_BASE, n, g, 2 * g);
    }
  }

  /** Up to bit 28 the base is an even multiple of the line. */
  lemma {:induction false} BaseBesideLine(k: nat, g: nat) returns (q: nat)
    requires 2 <= k <= 28 && g == Pow2(k - 2)
    ensures q % 2 == 0 && q * g == SDRAM_BASE / 4 && 0 < g <= 0x400_0000
    decreases 28 - k
  {
    if k == 28 {
      assert g == 0x400_0000 by {
        Pow2UpTo32();
        FourDoublings(24);
      }
      q := 10;
    } else {
      assert 2 * g == Pow2(k - 1);
      var half := BaseBesideLine(k + 1, 2 * g);
      q := 2 * half;
      assert q * g == half * (2 * g);
    }
  }
}
