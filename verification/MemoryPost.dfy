/** The power-on self test of the SDRAM: address lines, fill-and-read-back tests, and the whole suite. */
module MemoryPost {
  import opened Arith
  import opened Bits
  import opened BoardModel
  import opened DataLine

  /** The cell behind word i of the region that starts at byte address `start`; addresses wrap at 2^32. */
  function CellAt(f: Fabric, start: u32, i: nat): nat {
    f.decode((start / 4 + i) % 0x4000_0000)
  }

  /** The region is good: no word's cell has a stuck bit, and no two words share a cell. */
  ghost predicate RegionSound(f: Fabric, start: u32, n: nat) {
    forall i: nat | i < n :: Healthy(f.health(CellAt(f, start, i)))
  }

  ghost predicate RegionInjective(f: Fabric, start: u32, n: nat) {
    forall i: nat, j: nat | i < j < n :: CellAt(f, start, i) != CellAt(f, start, j)
  }

  // ---------------------------------------------------------------- fill and read back

  /** What the four fill tests write to word i. */
  datatype Fill = Constant(v: u32) | WalkingBit | Offset | InvertedOffset {
    function At(i: nat): u32 {
      match this
      case Constant(v) => v
      case WalkingBit => Pow2Fits(i % 32); Pow2(i % 32)
      case Offset => i % 0x1_0000_0000
      case InvertedOffset => 0xffff_ffff - i % 0x1_0000_0000
    }
  }

  /** Digit by digit: one bit that walks, the index, and its complement. */
  lemma FillDigits(i: nat, p: nat)
    requires i < 0x1_0000_0000 && p < 32
    ensures BitOf(WalkingBit.At(i), p) <==> p == i % 32
    ensures BitOf(Offset.At(i), p) == BitOf(i, p)
    ensures BitOf(InvertedOffset.At(i), p) == !BitOf(i, p)
  {
    BitOfPower(i % 32, p);
    assert Pow2(32) == 0x1_0000_0000 by { Pow2UpTo32(); }
    SmallMod(i);
    BitOfComplement(i, 32, p);
  }

  lemma Pow2Fits(k: nat)
    requires k < 32
    ensures Pow2(k) < 0x1_0000_0000
  {
    Pow2Table();
    Pow2Increases(k, 32);
  }

  /** The last of the first n words of the region whose cell is c; -1 when there is none. */
  function LastWriter(f: Fabric, start: u32, n: nat, c: nat): (r: int)
    ensures -1 <= r < n
    ensures r >= 0 ==> CellAt(f, start, r) == c
    ensures forall j: nat | r < j < n :: CellAt(f, start, j) != c
  {
    if n == 0 then -1
    else if CellAt(f, start, n - 1) == c then n - 1
    else LastWriter(f, start, n - 1, c)
  }

  /** The word that a read of word i returns, on good lines, once the first n words of the region were filled. */
  function FilledRead(f: Fabric, start: u32, n: nat, fill: Fill, i: nat): Word
    requires i < n
  {
    var c := CellAt(f, start, i);
    assert LastWriter(f, start, n, c) >= i;
    Recall(f.health(c), WordOf(fill.At(LastWriter(f, start, n, c))))
  }

  ghost predicate FillReadsBack(f: Fabric, start: u32, n: nat, fill: Fill) {
    forall i: nat | i < n :: FilledRead(f, start, n, fill, i) == WordOf(fill.At(i))
  }

  /** The cells once the first n words of the region were filled. */
  ghost predicate Filled(f: Fabric, start: u32, n: nat, fill: Fill, before: seq<Word>, after: seq<Word>) {
    && |after| == |before|
    && forall c: nat | c < |after| ::
         after[c] == if LastWriter(f, start, n, c) >= 0 then WordOf(fill.At(LastWriter(f, start, n, c))) else before[c]
  }

  function WordAddress(start: u32, i: nat): (addr: u32)
    requires start % 4 == 0
    ensures addr % 4 == 0 && addr / 4 == (start / 4 + i) % 0x4000_0000
  {
    WordAddressIndex(start, i);
    (start + 4 * i) % 0x1_0000_0000
  }

  lemma WordAddressIndex(start: u32, i: nat)
    requires start % 4 == 0
    ensures (start + 4 * i) % 0x1_0000_0000 == 4 * ((start / 4 + i) % 0x4000_0000)
  {
    var v := start / 4 + i;
    var e, r := v / 0x4000_0000, v % 0x4000_0000;
    assert start == 4 * (start / 4);
    assert v == e * 0x4000_0000 + r;
    DivModUnique(start + 4 * i, 0x1_0000_0000, e, 4 * r);
  }

  lemma FilledStep(f: Fabric, start: u32, n: nat, fill: Fill, before: seq<Word>, now: seq<Word>)
    requires Filled(f, start, n, fill, before, now) && CellAt(f, start, n) < |now|
    ensures Filled(f, start, n + 1, fill, before, now[CellAt(f, start, n) := WordOf(fill.At(n))])
  {
  }

  /** Every word of the region, in order. */
  function FillStores(start: u32, n: nat, fill: Fill): seq<Store>
    requires start % 4 == 0
  {
    if n == 0 then [] else FillStores(start, n - 1, fill) + [Store(WordAddress(start, n - 1), WordOf(fill.At(n - 1)))]
  }

  /** The first loop of every fill test. */
  method FillRegion(b: Board, start: u32, n: nat, fill: Fill)
    requires b.Valid() && start % 4 == 0
    modifies b.cells, b`held, b`written
    ensures Filled(b.fabric, start, n, fill, old(b.cells[..]), b.cells[..])
    ensures b.written == old(b.written) + FillStores(start, n, fill)
  {
    var i := 0;
    while i < n
      invariant i <= n
      invariant b.written == old(b.written) + FillStores(start, i, fill)
      invariant Filled(b.fabric, start, i, fill, old(b.cells[..]), b.cells[..])
    {
      FilledStep(b.fabric, start, i, fill, old(b.cells[..]), b.cells[..]);
      b.Write32(WordAddress(start, i), WordOf(fill.At(i)));
      i := i + 1;
    }
  }

  /** Every word reads as it was written, through lines that need not be sound. */
  ghost predicate ReadsAsWritten(b: Board, start: u32, n: nat, fill: Fill)
    requires b.Valid() && start % 4 == 0
    reads b, b.cells
  {
    forall i: nat | i < n :: b.Read32(WordAddress(start, i)) == WordOf(fill.At(i))
  }

  /** The second loop of every fill test: it stops at the first word that does not read back. */
  method CheckRegion(b: Board, start: u32, n: nat, fill: Fill) returns (ret: int)
    requires b.Valid() && start % 4 == 0
    ensures ret == 0 || ret == -1
    ensures ret == 0 <==> ReadsAsWritten(b, start, n, fill)
  {
    ret := 0;
    var i := 0;
    while i < n && ret == 0
      invariant i <= n && ret == 0
      invariant forall j: nat | j < i :: b.Read32(WordAddress(start, j)) == WordOf(fill.At(j))
    {
      var readback := b.Read32(WordAddress(start, i));
      if readback != WordOf(fill.At(i)) {
        ret := -1;
        break;
      }
      i := i + 1;
    }
  }

  method FillAndReadBack(b: Board, start: u32, size: u32, fill: Fill) returns (ret: int)
    requires b.Valid() && start % 4 == 0
    modifies b.cells, b`held, b`written
    ensures ret == 0 || ret == -1
    ensures ret == 0 <==> ReadsAsWritten(b, start, size / 4, fill)
    ensures GoodLines(b.fabric) ==> (ret == 0 <==> FillReadsBack(b.fabric, start, size / 4, fill))
    ensures Filled(b.fabric, start, size / 4, fill, old(b.cells[..]), b.cells[..])
    ensures b.written == old(b.written) + FillStores(start, size / 4, fill)
    ensures KeptOutsideRegion(b.fabric, start, size, old(b.cells[..]), b.cells[..])
  {
    var n := size / 4;
    FillRegion(b, start, n, fill);
    FrameOfFill(b.fabric, start, size, fill, old(b.cells[..]), b.cells[..]);
    ret := CheckRegion(b, start, n, fill);
    forall i: nat | i < n && GoodLines(b.fabric)
      ensures b.Read32(WordAddress(start, i)) == FilledRead(b.fabric, start, n, fill, i)
    {
      assert b.CellOf(WordAddress(start, i)) == CellAt(b.fabric, start, i);
    }
  }

  // What each fill detects.

  /** On sound cells a fill reads back exactly when words that share a cell were given equal values. */
  lemma AliasesAgree(f: Fabric, start: u32, n: nat, fill: Fill)
    requires RegionSound(f, start, n)
    ensures FillReadsBack(f, start, n, fill) <==>
            forall i: nat, j: nat | i < j < n && CellAt(f, start, i) == CellAt(f, start, j) :: fill.At(i) == fill.At(j)
  {
    if FillReadsBack(f, start, n, fill) {
      forall i: nat, j: nat | i < j < n && CellAt(f, start, i) == CellAt(f, start, j)
        ensures fill.At(i) == fill.At(j)
      {
        assert FilledRead(f, start, n, fill, i) == FilledRead(f, start, n, fill, j);
        WordOfInjective(fill.At(i), fill.At(j));
      }
    }
    if forall i: nat, j: nat | i < j < n && CellAt(f, start, i) == CellAt(f, start, j) :: fill.At(i) == fill.At(j) {
      forall i: nat | i < n
        ensures FilledRead(f, start, n, fill, i) == WordOf(fill.At(i))
      {
        SoundRead(f, start, n, fill, i);
        var r := LastWriter(f, start, n, CellAt(f, start, i));
        assert r >= i && (r > i ==> fill.At(i) == fill.At(r));
      }
    }
  }

  /** A sound cell gives back what its last writer stored. */
  lemma SoundRead(f: Fabric, start: u32, n: nat, fill: Fill, i: nat)
    requires RegionSound(f, start, n) && i < n
    ensures FilledRead(f, start, n, fill, i) == WordOf(fill.At(LastWriter(f, start, n, CellAt(f, start, i))))
  {
    assert Healthy(f.health(CellAt(f, start, i)));
  }

  /** Tests 1a and 1b together: all zeros and all ones read back exactly when no cell has a stuck bit. */
  lemma ConstantsDetectStuckBits(f: Fabric, start: u32, n: nat)
    ensures FillReadsBack(f, start, n, Constant(0)) && FillReadsBack(f, start, n, Constant(0xffff_ffff)) <==>
            RegionSound(f, start, n)
  {
    ZeroAndOnes();
    if FillReadsBack(f, start, n, Constant(0)) && FillReadsBack(f, start, n, Constant(0xffff_ffff)) {
      forall i: nat | i < n
        ensures Healthy(f.health(CellAt(f, start, i)))
      {
        var h := f.health(CellAt(f, start, i));
        assert Recall(h, WordOf(0)) == FilledRead(f, start, n, Constant(0), i);
        assert Recall(h, WordOf(0xffff_ffff)) == FilledRead(f, start, n, Constant(0xffff_ffff), i);
        forall k: nat | k < 32
          ensures h[k] == Sound
        {
          assert Recall(h, WordOf(0))[k] == WordOf(0)[k];
          assert Recall(h, WordOf(0xffff_ffff))[k] == WordOf(0xffff_ffff)[k];
        }
      }
    }
    if RegionSound(f, start, n) {
      AliasesAgree(f, start, n, Constant(0));
      AliasesAgree(f, start, n, Constant(0xffff_ffff));
    }
  }

  lemma ZeroAndOnes()
    ensures forall k: nat | k < 32 :: !WordOf(0)[k] && WordOf(0xffff_ffff)[k]
  {
    forall k: nat | k < 32
      ensures !WordOf(0)[k] && WordOf(0xffff_ffff)[k]
    {
      BitOfZero(k);
      Pow2Table();
      BitOfComplement(0, 32, k);
    }
  }

  /** Test 3, and test 4, on sound cells: each passes exactly when no two words of the region share a cell. */
  lemma OffsetsDetectAliases(f: Fabric, start: u32, n: nat)
    requires RegionSound(f, start, n) && n <= 0x4000_0000
    ensures FillReadsBack(f, start, n, Offset) <==> RegionInjective(f, start, n)
    ensures FillReadsBack(f, start, n, InvertedOffset) <==> RegionInjective(f, start, n)
  {
    AliasesAgree(f, start, n, Offset);
    AliasesAgree(f, start, n, InvertedOffset);
    forall i: nat | i < n
      ensures Offset.At(i) == i && InvertedOffset.At(i) == 0xffff_ffff - i
    {
      SmallMod(i);
    }
  }

  lemma SmallMod(i: nat)
    requires i < 0x1_0000_0000
    ensures i % 0x1_0000_0000 == i
  {
  }

  /** Test 2 on sound cells: it misses exactly the aliases at a distance that is a multiple of 32 words. */
  lemma WalkingBitDetectsAliases(f: Fabric, start: u32, n: nat)
    requires RegionSound(f, start, n)
    ensures FillReadsBack(f, start, n, WalkingBit) <==>
            forall i: nat, j: nat | i < j < n && CellAt(f, start, i) == CellAt(f, start, j) :: i % 32 == j % 32
  {
    AliasesAgree(f, start, n, WalkingBit);
    forall i: nat, j: nat | WalkingBit.At(i) == WalkingBit.At(j)
      ensures i % 32 == j % 32
    {
      if i % 32 < j % 32 { Pow2Increases(i % 32, j % 32); }
      if j % 32 < i % 32 { Pow2Increases(j % 32, i % 32); }
    }
  }

  lemma SoundRegionReadsBack(f: Fabric, start: u32, n: nat, fill: Fill)
    requires RegionSound(f, start, n) && RegionInjective(f, start, n)
    ensures FillReadsBack(f, start, n, fill)
  {
    AliasesAgree(f, start, n, fill);
  }

  method MemoryPostTest1(b: Board, start: u32, size: u32, val: u32) returns (ret: int)
    requires b.Valid() && start % 4 == 0
    modifies b.cells, b`held, b`written
    ensures ret == 0 || ret == -1
    ensures ret == 0 <==> ReadsAsWritten(b, start, size / 4, Constant(val))
    ensures GoodLines(b.fabric) ==> (ret == 0 <==> FillReadsBack(b.fabric, start, size / 4, Constant(val)))
    ensures Filled(b.fabric, start, size / 4, Constant(val), old(b.cells[..]), b.cells[..])
    ensures b.written == old(b.written) + FillStores(start, size / 4, Constant(val))
    ensures KeptOutsideRegion(b.fabric, start, size, old(b.cells[..]), b.cells[..])
  {
    ret := FillAndReadBack(b, start, size, Constant(val));
  }

  method MemoryPostTest2(b: Board, start: u32, size: u32) returns (ret: int)
    requires b.Valid() && start % 4 == 0
    modifies b.cells, b`held, b`written
    ensures ret == 0 || ret == -1
    ensures ret == 0 <==> ReadsAsWritten(b, start, size / 4, WalkingBit)
    ensures GoodLines(b.fabric) ==> (ret == 0 <==> FillReadsBack(b.fabric, start, size / 4, WalkingBit))
    ensures Filled(b.fabric, start, size / 4, WalkingBit, old(b.cells[..]), b.cells[..])
    ensures b.written == old(b.written) + FillStores(start, size / 4, WalkingBit)
    ensures KeptOutsideRegion(b.fabric, start, size, old(b.cells[..]), b.cells[..])
  {
    ret := FillAndReadBack(b, start, size, WalkingBit);
  }

  method MemoryPostTest3(b: Board, start: u32, size: u32) returns (ret: int)
    requires b.Valid() && start % 4 == 0
    modifies b.cells, b`held, b`written
    ensures ret == 0 || ret == -1
    ensures ret == 0 <==> ReadsAsWritten(b, start, size / 4, Offset)
    ensures GoodLines(b.fabric) ==> (ret == 0 <==> FillReadsBack(b.fabric, start, size / 4, Offset))
    ensures Filled(b.fabric, start, size / 4, Offset, old(b.cells[..]), b.cells[..])
    ensures b.written == old(b.written) + FillStores(start, size / 4, Offset)
    ensures KeptOutsideRegion(b.fabric, start, size, old(b.cells[..]), b.cells[..])
  {
    ret := FillAndReadBack(b, start, size, Offset);
  }

  method MemoryPostTest4(b: Board, start: u32, size: u32) returns (ret: int)
    requires b.Valid() && start % 4 == 0
    modifies b.cells, b`held, b`written
    ensures ret == 0 || ret == -1
    ensures ret == 0 <==> ReadsAsWritten(b, start, size / 4, InvertedOffset)
    ensures GoodLines(b.fabric) ==> (ret == 0 <==> FillReadsBack(b.fabric, start, size / 4, InvertedOffset))
    ensures Filled(b.fabric, start, size / 4, InvertedOffset, old(b.cells[..]), b.cells[..])
    ensures b.written == old(b.written) + FillStores(start, size / 4, InvertedOffset)
    ensures KeptOutsideRegion(b.fabric, start, size, old(b.cells[..]), b.cells[..])
  {
    ret := FillAndReadBack(b, start, size, InvertedOffset);
  }

  // ---------------------------------------------------------------- address lines

  /** The address that differs from testaddr in bit k alone. */
  function Target(testaddr: u32, k: nat): u32
    requires k < 32
  {
    Pow2Fits(k);
    Pow2Table();
    XorInRange(testaddr, Pow2(k), 32);
    Xor(testaddr, Pow2(k))
  }

  /** The loop compares testaddr with this target: it lies in [base, base + size), taken modulo 2^32. */
  predicate InRange(testaddr: u32, base: u32, size: u32, k: nat)
    requires k < 32
  {
    base <= Target(testaddr, k) < Wrap(base + size)
  }

  ghost predicate TargetsSound(f: Fabric, testaddr: u32, base: u32, size: u32) {
    forall k: nat | 2 <= k < 32 && InRange(testaddr, base, size, k) ::
      Healthy(f.health(f.decode(testaddr / 4))) && Healthy(f.health(f.decode(Target(testaddr, k) / 4)))
  }

  predicate Mirrored(f: Fabric, testaddr: u32, base: u32, size: u32, k: nat)
    requires k < 32
  {
    InRange(testaddr, base, size, k) && f.decode(Target(testaddr, k) / 4) == f.decode(testaddr / 4)
  }

  /** Some address of the region, one bit away, appears in the cell of testaddr. */
  ghost predicate AnyMirror(f: Fabric, testaddr: u32, base: u32, size: u32) {
    exists k: nat | 2 <= k < 32 :: Mirrored(f, testaddr, base, size, k)
  }

  /** Some word of the region lies at an address that differs from testaddr in one bit, and appears in its cell. */
  ghost predicate OneBitAlias(f: Fabric, testaddr: u32, base: u32, size: u32) {
    exists i: nat, k: nat ::
      && i < size / 4 && 2 <= k < 32 && base + 4 * i == Xor(testaddr, Pow2(k))
      && CellAt(f, base, i) == f.decode(testaddr / 4)
  }

  /** A region that does not wrap, of sound cells, and a sound cell to compare them with. */
  ghost predicate Comparable(f: Fabric, testaddr: u32, base: u32, size: u32) {
    && base % 4 == 0 && size % 4 == 0 && base + size < 0x1_0000_0000
    && GoodLines(f) && RegionSound(f, base, size / 4) && Healthy(f.health(f.decode(testaddr / 4)))
  }

  lemma AlignedWord(base: u32, i: nat)
    requires base % 4 == 0
    ensures (base + 4 * i) / 4 == base / 4 + i && (base + 4 * i) % 4 == 0
  {
    DivModUnique(base + 4 * i, 4, base / 4 + i, 0);
  }

  /** The targets in range are the words of the region, all of them. */
  lemma TargetIsWord(f: Fabric, testaddr: u32, base: u32, size: u32, k: nat) returns (i: nat)
    requires Comparable(f, testaddr, base, size) && testaddr % 4 == 0
    requires 2 <= k < 32 && InRange(testaddr, base, size, k)
    ensures i < size / 4 && base + 4 * i == Target(testaddr, k)
    ensures f.decode(Target(testaddr, k) / 4) == CellAt(f, base, i)
    ensures Healthy(f.health(f.decode(Target(testaddr, k) / 4)))
  {
    var t := Target(testaddr, k);
    TargetFacts(testaddr, k);
    i := t / 4 - base / 4;
    AlignedWord(base, i);
    assert CellAt(f, base, i) == f.decode(base / 4 + i);
  }

  lemma WordIsTarget(f: Fabric, testaddr: u32, base: u32, size: u32, i: nat, k: nat)
    requires Comparable(f, testaddr, base, size)
    requires i < size / 4 && 2 <= k < 32 && base + 4 * i == Xor(testaddr, Pow2(k))
    requires CellAt(f, base, i) == f.decode(testaddr / 4)
    ensures Mirrored(f, testaddr, base, size, k)
  {
    AlignedWord(base, i);
    assert Target(testaddr, k) == base + 4 * i;
  }

  lemma MirrorsAreAliases(f: Fabric, testaddr: u32, base: u32, size: u32)
    requires Comparable(f, testaddr, base, size) && testaddr % 4 == 0
    ensures TargetsSound(f, testaddr, base, size)
    ensures AnyMirror(f, testaddr, base, size) <==> OneBitAlias(f, testaddr, base, size)
  {
    forall k: nat | 2 <= k < 32 && InRange(testaddr, base, size, k)
      ensures Healthy(f.health(f.decode(Target(testaddr, k) / 4)))
      ensures Mirrored(f, testaddr, base, size, k) ==> OneBitAlias(f, testaddr, base, size)
    {
      var i := TargetIsWord(f, testaddr, base, size, k);
    }
    if i: nat, k: nat :| i < size / 4 && 2 <= k < 32 && base + 4 * i == Xor(testaddr, Pow2(k)) &&
                         CellAt(f, base, i) == f.decode(testaddr / 4)
    {
      WordIsTarget(f, testaddr, base, size, i, k);
    }
  }

  lemma Pow2OfFour(k: nat)
    requires k >= 2
    ensures Pow2(k) == 4 * Pow2(k - 2) && Pow2(k) % 4 == 0
  {
    assert Pow2(k - 1) == 2 * Pow2(k - 2);
    DivModUnique(Pow2(k), 4, Pow2(k - 2), 0);
  }

  lemma TargetFacts(testaddr: u32, k: nat)
    requires testaddr % 4 == 0 && 2 <= k < 32
    ensures Target(testaddr, k) % 4 == 0 && Target(testaddr, k) != testaddr
  {
    Pow2OfFour(k);
    XorKeepsTwoDigits(testaddr, Pow2(k));
    DivModUnique(Target(testaddr, k), 4, Xor(testaddr / 4, Pow2(k) / 4), 0);
    XorFixesOnlyByZero(testaddr, Pow2(k));
  }

  /** What was stored in between went to these addresses. */
  ghost predicate StoredTo(before: seq<Store>, after: seq<Store>, addrs: set<u32>) {
    before <= after && forall k | |before| <= k < |after| :: after[k].addr in addrs
  }

  /** How many of the targets for bits 2 up to k lie in the range. */
  function TargetCount(testaddr: u32, base: u32, size: u32, k: nat): nat
    requires k <= 32
  {
    if k <= 2 then 0
    else TargetCount(testaddr, base, size, k - 1) + if InRange(testaddr, base, size, k - 1) then 1 else 0
  }

  /** One address line: returns whether the target reads the same as testaddr after testaddr was changed. */
  method CompareWithTarget(b: Board, testaddr: u32, target: u32) returns (mirrored: bool)
    requires b.Valid() && testaddr % 4 == 0 && target % 4 == 0
    modifies b.cells, b`held, b`written
    ensures b.cells[..] == old(b.cells[..])[b.CellOf(testaddr) := b.cells[b.CellOf(testaddr)]]
    ensures GoodLines(b.fabric) &&
            Healthy(b.fabric.health(b.CellOf(testaddr))) && Healthy(b.fabric.health(b.CellOf(target))) ==>
              (mirrored <==> b.CellOf(testaddr) == b.CellOf(target))
    ensures StoredTo(old(b.written), b.written, {testaddr}) && |b.written| == |old(b.written)| + 1
  {
    var seen := b.Read32(target);
    b.Write32(testaddr, Not(seen));
    var readback := b.Read32(target);
    mirrored := readback == b.Read32(testaddr);
    assert Not(seen)[0] == !seen[0];
  }

  method MemoryPostAddrline(b: Board, testaddr: u32, base: u32, size: u32) returns (ret: int)
    requires b.Valid() && testaddr % 4 == 0
    modifies b.cells, b`held, b`written
    ensures ret == 0 || ret == -1
    ensures GoodLines(b.fabric) && TargetsSound(b.fabric, testaddr, base, size) ==>
              (ret == -1 <==> AnyMirror(b.fabric, testaddr, base, size))
    ensures Comparable(b.fabric, testaddr, base, size) ==> (ret == -1 <==> OneBitAlias(b.fabric, testaddr, base, size))
    ensures StoredTo(old(b.written), b.written, {testaddr})
    ensures |b.written| == |old(b.written)| + TargetCount(testaddr, base, size, 32)
    ensures b.cells[..] == old(b.cells[..])[b.CellOf(testaddr) := b.cells[b.CellOf(testaddr)]]
  {
    ret := 0;
    var end := Wrap(base + size);
    var xor := 4;
    ghost var k: nat := 2;
    while xor > 0
      invariant 2 <= k <= 32 && xor == if k < 32 then Pow2(k) else 0
      invariant ret == 0 || ret == -1
      invariant StoredTo(old(b.written), b.written, {testaddr})
      invariant |b.written| == |old(b.written)| + TargetCount(testaddr, base, size, k)
      invariant GoodLines(b.fabric) && TargetsSound(b.fabric, testaddr, base, size) ==>
                  (ret == -1 <==> exists j: nat | 2 <= j < k :: Mirrored(b.fabric, testaddr, base, size, j))
      invariant b.cells[..] == old(b.cells[..])[b.CellOf(testaddr) := b.cells[b.CellOf(testaddr)]]
      decreases 32 - k
    {
      var target := Xor(testaddr, xor);
      TargetFacts(testaddr, k);
      assert target == Target(testaddr, k);
      var mirrored := false;
      if base <= target < end {
        mirrored := CompareWithTarget(b, testaddr, target);
        if mirrored {
          ret := -1;
        }
      }
      assert GoodLines(b.fabric) && TargetsSound(b.fabric, testaddr, base, size) ==>
          (mirrored <==> Mirrored(b.fabric, testaddr, base, size, k));
      XorShift(k);
      xor := xor * 2 % 0x1_0000_0000;
      k := k + 1;
    }
    if Comparable(b.fabric, testaddr, base, size) {
      MirrorsAreAliases(b.fabric, testaddr, base, size);
    }
  }

  lemma XorShift(k: nat)
    requires k < 32
    ensures Pow2(k) * 2 % 0x1_0000_0000 == if k + 1 < 32 then Pow2(k + 1) else 0
  {
    Pow2Table();
    assert Pow2(k + 1) == 2 * Pow2(k);
    if k + 1 < 32 { Pow2Fits(k + 1); }
  }

  // ---------------------------------------------------------------- the suite

  /** What the suite certifies about a region of `size` bytes. */
  ghost predicate Certified(f: Fabric, start: u32, size: u32) {
    && GoodLines(f)
    && ProbeSound(f, start)
    && RegionSound(f, start, size / 4)
    && RegionInjective(f, start, size / 4)
  }

  function LastDoubleWord(start: u32, size: u32): (addr: u32) {
    Wrap(start + size - 8)
  }

  /** The cells that the suite may change: those behind the region, the data-line probe and the second address
      under the address-line test. */
  ghost predicate Touched(f: Fabric, start: u32, size: u32, c: nat) {
    || (exists i: nat | i < size / 4 || i < 4 :: CellAt(f, start, i) == c)
    || f.decode(LastDoubleWord(start, size) / 4) == c
  }

  /** From 16 bytes on, the probe and the tested addresses lie in the region. */
  lemma LargeRegion(f: Fabric, start: u32, size: u32)
    requires start % 8 == 0 && size % 4 == 0 && size >= 16
    ensures RegionSound(f, start, size / 4) && RegionInjective(f, start, size / 4) ==> ProbeSound(f, start)
    ensures forall c: nat :: Touched(f, start, size, c) <==> exists i: nat | i < size / 4 :: CellAt(f, start, i) == c
  {
    assert forall k: nat | k < 4 :: ProbeCell(f, start, k) == CellAt(f, start, k);
    LastDoubleWordIndex(start, size);
    assert f.decode(LastDoubleWord(start, size) / 4) == CellAt(f, start, size / 4 - 2);
  }

  lemma LastDoubleWordIndex(start: u32, size: u32)
    requires start % 8 == 0 && size % 4 == 0 && size >= 8
    ensures LastDoubleWord(start, size) / 4 == (start / 4 + (size / 4 - 2)) % 0x4000_0000
    ensures LastDoubleWord(start, size) % 4 == 0
  {
    var v := start / 4 + (size / 4 - 2);
    assert start + size - 8 == 4 * v by {
      Aligned(start);
      assert start == 4 * (start / 4) && size == 4 * (size / 4);
    }
    WrappedIndex(v, LastDoubleWord(start, size));
  }

  lemma WrappedIndex(v: nat, addr: u32)
    requires v < 0x8000_0000 && addr == Wrap(4 * v)
    ensures addr / 4 == v % 0x4000_0000 && addr % 4 == 0
  {
    var r := if v < 0x4000_0000 then v else v - 0x4000_0000;
    DivModUnique(v, 0x4000_0000, if v < 0x4000_0000 then 0 else 1, r);
    DivModUnique(addr, 4, r, 0);
  }

  /** An in-range target is a word of the region. */
  lemma TargetInRegion(testaddr: u32, start: u32, size: u32, k: nat)
    requires start % 4 == 0 && size % 4 == 0 && testaddr % 4 == 0
    requires 2 <= k < 32 && InRange(testaddr, start, size, k)
    ensures var i := (Target(testaddr, k) - start) / 4;
            0 <= i < size / 4 && Target(testaddr, k) / 4 == (start / 4 + i) % 0x4000_0000
  {
    TargetFacts(testaddr, k);
    assert start + size < 0x1_0000_0000;
    var t := Target(testaddr, k);
    assert t / 4 == start / 4 + (t - start) / 4;
  }

  /** On a good region no word is mirrored onto testaddr when testaddr is itself word `m` of the region. */
  lemma GoodRegionHasNoMirror(f: Fabric, testaddr: u32, start: u32, size: u32, m: nat)
    requires start % 4 == 0 && size % 4 == 0 && testaddr % 4 == 0
    requires RegionSound(f, start, size / 4) && RegionInjective(f, start, size / 4)
    requires m < size / 4 && testaddr / 4 == (start / 4 + m) % 0x4000_0000
    ensures TargetsSound(f, testaddr, start, size)
    ensures !AnyMirror(f, testaddr, start, size)
  {
    assert f.decode(testaddr / 4) == CellAt(f, start, m);
    forall k: nat | 2 <= k < 32 && InRange(testaddr, start, size, k)
      ensures Healthy(f.health(f.decode(Target(testaddr, k) / 4))) && !Mirrored(f, testaddr, start, size, k)
    {
      TargetInRegion(testaddr, start, size, k);
      TargetFacts(testaddr, k);
      var i := (Target(testaddr, k) - start) / 4;
      assert f.decode(Target(testaddr, k) / 4) == CellAt(f, start, i);
      assert i != m;
    }
  }

  /** A region of one word: the second address under test lies below it and reaches it by no single bit. */
  lemma OneWordRegion(start: u32, k: nat)
    requires start % 8 == 0 && 2 <= k < 32
    ensures !InRange(LastDoubleWord(start, 4), start, 4, k)
  {
    var a := LastDoubleWord(start, 4);
    BelowIsOdd(start);
    TargetFacts(a, k);
    if k == 2 {
      assert Pow2(2) == 4;
      XorOfFour(a);
    } else {
      Pow2OfEight(k);
      XorKeepsThreeDigits(a, Pow2(k));
    }
    OnlyWordInRange(start, Target(a, k));
  }

  lemma BelowIsOdd(start: u32)
    requires start % 8 == 0
    ensures LastDoubleWord(start, 4) % 8 == 4 && LastDoubleWord(start, 4) != start + 4
  {
    var q := start / 8;
    if q > 0 {
      RemainderOf(start - 4, q - 1, 4);
    }
  }

  lemma OnlyWordInRange(start: u32, t: u32)
    requires start % 8 == 0 && t % 4 == 0
    ensures start <= t < Wrap(start + 4) <==> t == start
  {
    var q, m := t / 4, start / 8;
    assert t == 4 * q && start == 8 * m && m <= 0x1fff_ffff;
    assert Wrap(start + 4) == 8 * m + 4;
    if start <= t < start + 4 {
      assert 2 * m <= q < 2 * m + 1;
    }
  }

  lemma Pow2OfEight(k: nat)
    requires k >= 3
    ensures Pow2(k) % 8 == 0
  {
    Pow2OfFour(k);
    DivModUnique(Pow2(k), 8, Pow2(k - 3), 0);
  }

  lemma Aligned(start: u32)
    requires start % 8 == 0
    ensures start % 4 == 0
  {
    var q := start / 8;
    assert start == 8 * q && start / 4 == 2 * q;
  }

  lemma LastPassesAddrline(f: Fabric, start: u32, size: u32, last: u32)
    requires start % 8 == 0 && size % 4 == 0 && last == LastDoubleWord(start, size)
    requires RegionSound(f, start, size / 4) && RegionInjective(f, start, size / 4)
    ensures TargetsSound(f, last, start, size) && !AnyMirror(f, last, start, size)
  {
    if size >= 8 {
      Aligned(start);
      LastDoubleWordIndex(start, size);
      GoodRegionHasNoMirror(f, last, start, size, size / 4 - 2);
    } else {
      TinyRegionPassesAddrline(f, start, size, last);
    }
  }

  lemma TinyRegionPassesAddrline(f: Fabric, start: u32, size: u32, last: u32)
    requires start % 8 == 0 && size in {0, 4} && last == LastDoubleWord(start, size)
    ensures TargetsSound(f, last, start, size) && !AnyMirror(f, last, start, size)
  {
    forall k: nat | 2 <= k < 32
      ensures !InRange(last, start, size, k)
    {
      if size == 4 {
        OneWordRegion(start, k);
      }
    }
  }

  /** The address-line tests never fail on a good region, whatever its size. */
  lemma GoodRegionPassesAddrline(f: Fabric, start: u32, size: u32)
    requires start % 8 == 0 && size % 4 == 0
    requires RegionSound(f, start, size / 4) && RegionInjective(f, start, size / 4)
    ensures var a := LastDoubleWord(start, size);
            TargetsSound(f, a, start, size) && !AnyMirror(f, a, start, size)
    ensures TargetsSound(f, start, start, size) && !AnyMirror(f, start, start, size)
  {
    Aligned(start);
    LastPassesAddrline(f, start, size, LastDoubleWord(start, size));
    if size > 0 {
      GoodRegionHasNoMirror(f, start, start, size, 0);
    }
  }

  /** Nothing changed outside the touched cells. */
  ghost predicate KeptOutsideRegion(f: Fabric, start: u32, size: u32, before: seq<Word>, after: seq<Word>) {
    |after| == |before| && forall c: nat | c < |after| && !Touched(f, start, size, c) :: after[c] == before[c]
  }

  lemma FrameOfFill(f: Fabric, start: u32, size: u32, fill: Fill, before: seq<Word>, after: seq<Word>)
    requires Filled(f, start, size / 4, fill, before, after)
    ensures KeptOutsideRegion(f, start, size, before, after)
  {
  }

  lemma FrameOfProbe(f: Fabric, start: u32, size: u32, v: Levels, before: seq<Word>)
    requires forall k: nat :: f.decode(k) < |before|
    ensures KeptOutsideRegion(f, start, size, before, AfterProbe(f, start, before, v))
  {
    forall c: nat | c < |before| && !Touched(f, start, size, c)
      ensures AfterProbe(f, start, before, v)[c] == before[c]
    {
      assert forall k: nat | k < 4 :: ProbeCell(f, start, k) == CellAt(f, start, k) != c;
    }
  }

  /** Constants other than the two that matter never fail on sound cells. */
  lemma StuckBitsExact(f: Fabric, start: u32, n: nat)
    ensures FillReadsBack(f, start, n, Constant(0)) && FillReadsBack(f, start, n, Constant(0xffff_ffff)) <==>
            RegionSound(f, start, n)
    ensures RegionSound(f, start, n) ==> forall v: u32 :: FillReadsBack(f, start, n, Constant(v))
  {
    ConstantsDetectStuckBits(f, start, n);
    if RegionSound(f, start, n) {
      forall v: u32
        ensures FillReadsBack(f, start, n, Constant(v))
      {
        AliasesAgree(f, start, n, Constant(v));
      }
    }
  }

  lemma PatternsExact(f: Fabric, start: u32, n: nat)
    requires RegionSound(f, start, n) && n <= 0x4000_0000
    ensures RegionInjective(f, start, n) <==>
            FillReadsBack(f, start, n, WalkingBit) && FillReadsBack(f, start, n, Offset) &&
            FillReadsBack(f, start, n, InvertedOffset)
  {
    OffsetsDetectAliases(f, start, n);
    if RegionInjective(f, start, n) {
      SoundRegionReadsBack(f, start, n, WalkingBit);
    }
  }

  /** What the four constant tests store, one after the other. */
  function AfterConstants(before: seq<Store>, start: u32, n: nat): seq<Store>
    requires start % 4 == 0
  {
    before + FillStores(start, n, Constant(0x0000_0000)) + FillStores(start, n, Constant(0xffff_ffff)) +
    FillStores(start, n, Constant(0x5555_5555)) + FillStores(start, n, Constant(0xaaaa_aaaa))
  }

  function AfterPatterns(before: seq<Store>, start: u32, n: nat): seq<Store>
    requires start % 4 == 0
  {
    before + FillStores(start, n, WalkingBit) + FillStores(start, n, Offset) + FillStores(start, n, InvertedOffset)
  }

  method ConstantTests(b: Board, start: u32, size: u32) returns (ret: int)
    requires b.Valid() && GoodLines(b.fabric) && start % 8 == 0
    modifies b.cells, b`held, b`written
    ensures ret == 0 || ret == -1
    ensures ret == 0 <==> RegionSound(b.fabric, start, size / 4)
    ensures ret == 0 ==> b.written == AfterConstants(old(b.written), start, size / 4)
    ensures KeptOutsideRegion(b.fabric, start, size, old(b.cells[..]), b.cells[..])
  {
    Aligned(start);
    StuckBitsExact(b.fabric, start, size / 4);
    ret := MemoryPostTest1(b, start, size, 0x0000_0000);
    if ret == 0 { ret := MemoryPostTest1(b, start, size, 0xffff_ffff); }
    if ret == 0 { ret := MemoryPostTest1(b, start, size, 0x5555_5555); }
    if ret == 0 { ret := MemoryPostTest1(b, start, size, 0xaaaa_aaaa); }
  }

  method PatternTests(b: Board, start: u32, size: u32) returns (ret: int)
    requires b.Valid() && GoodLines(b.fabric) && start % 8 == 0
    requires RegionSound(b.fabric, start, size / 4)
    modifies b.cells, b`held, b`written
    ensures ret == 0 || ret == -1
    ensures ret == 0 <==> RegionInjective(b.fabric, start, size / 4)
    ensures ret == 0 ==> b.written == AfterPatterns(old(b.written), start, size / 4)
    ensures KeptOutsideRegion(b.fabric, start, size, old(b.cells[..]), b.cells[..])
  {
    Aligned(start);
    PatternsExact(b.fabric, start, size / 4);
    ret := MemoryPostTest2(b, start, size);
    if ret == 0 { ret := MemoryPostTest3(b, start, size); }
    if ret == 0 { ret := MemoryPostTest4(b, start, size); }
  }

  /** `before`, except that cells c and d are as in `after`. */
  function TwoChanged(before: seq<Word>, after: seq<Word>, c: nat, d: nat): seq<Word>
    requires c < |before| == |after| && d < |before|
  {
    before[c := after[c]][d := after[d]]
  }

  lemma FrameOfAddrline(f: Fabric, start: u32, size: u32, before: seq<Word>, after: seq<Word>)
    requires forall k: nat :: f.decode(k) < |before|
    requires |after| == |before| && start % 8 == 0
    requires after == TwoChanged(before, after, f.decode(start / 4), f.decode(LastDoubleWord(start, size) / 4))
    ensures KeptOutsideRegion(f, start, size, before, after)
  {
    assert CellAt(f, start, 0) == f.decode(start / 4);
  }

  /** Every comparison of the two address-line runs is one of sound cells. */
  ghost predicate ComparesSound(f: Fabric, start: u32, last: u32, size: u32) {
    GoodLines(f) && TargetsSound(f, start, start, size) && TargetsSound(f, last, start, size)
  }

  method TwoAddressLines(b: Board, start: u32, last: u32, size: u32) returns (ret: int)
    requires b.Valid() && start % 4 == 0 && last % 4 == 0
    modifies b.cells, b`held, b`written
    ensures ret == 0 || ret == -1
    ensures ComparesSound(b.fabric, start, last, size) ==>
              (ret == 0 <==> !AnyMirror(b.fabric, start, start, size) && !AnyMirror(b.fabric, last, start, size))
    ensures Comparable(b.fabric, start, start, size) && Comparable(b.fabric, last, start, size) ==>
              (ret == 0 <==> !OneBitAlias(b.fabric, start, start, size) && !OneBitAlias(b.fabric, last, start, size))
    ensures b.cells[..] == TwoChanged(old(b.cells[..]), b.cells[..], b.CellOf(start), b.CellOf(last))
    ensures StoredTo(old(b.written), b.written, {start, last})
    ensures ret == 0 ==> |b.written| == |old(b.written)| + TargetCount(start, start, size, 32) +
                                        TargetCount(last, start, size, 32)
  {
    ret := MemoryPostAddrline(b, start, start, size);
    if ret == 0 {
      ret := MemoryPostAddrline(b, last, start, size);
    }
  }

  /** The suite runs the address-line test from both ends of the region. */
  method AddressLineTests(b: Board, start: u32, size: u32) returns (ret: int)
    requires b.Valid() && start % 8 == 0 && size % 4 == 0
    modifies b.cells, b`held, b`written
    ensures ret == 0 || ret == -1
    ensures ComparesSound(b.fabric, start, LastDoubleWord(start, size), size) ==>
              (ret == 0 <==> !AnyMirror(b.fabric, start, start, size) &&
                             !AnyMirror(b.fabric, LastDoubleWord(start, size), start, size))
    ensures start + size < 0x1_0000_0000 && size >= 8 && GoodLines(b.fabric) && RegionSound(b.fabric, start, size / 4) ==>
              (ret == 0 <==> !OneBitAlias(b.fabric, start, start, size) &&
                             !OneBitAlias(b.fabric, start + size - 8, start, size))
    ensures GoodLines(b.fabric) && RegionSound(b.fabric, start, size / 4) &&
            RegionInjective(b.fabric, start, size / 4) ==>
              ret == 0
    ensures b.cells[..] ==
            TwoChanged(old(b.cells[..]), b.cells[..], b.CellOf(start), b.CellOf(LastDoubleWord(start, size)))
    ensures StoredTo(old(b.written), b.written, {start, LastDoubleWord(start, size)})
    ensures ret == 0 ==> |b.written| == |old(b.written)| + TargetCount(start, start, size, 32) +
                                        TargetCount(LastDoubleWord(start, size), start, size, 32)
  {
    Aligned(start);
    LastDoubleWordAligned(start, size);
    if RegionSound(b.fabric, start, size / 4) && RegionInjective(b.fabric, start, size / 4) {
      GoodRegionPassesAddrline(b.fabric, start, size);
    }
    if start + size < 0x1_0000_0000 && size >= 8 && GoodLines(b.fabric) && RegionSound(b.fabric, start, size / 4) {
      EndsComparable(b.fabric, start, size);
    }
    ret := TwoAddressLines(b, start, LastDoubleWord(start, size), size);
  }

  lemma EndsComparable(f: Fabric, start: u32, size: u32)
    requires start % 8 == 0 && size % 4 == 0 && start + size < 0x1_0000_0000 && size >= 8
    requires GoodLines(f) && RegionSound(f, start, size / 4)
    ensures LastDoubleWord(start, size) == start + size - 8
    ensures Comparable(f, start, start, size) && Comparable(f, LastDoubleWord(start, size), start, size)
  {
    Aligned(start);
    LastDoubleWordIndex(start, size);
    assert CellAt(f, start, 0) == f.decode(start / 4);
    assert CellAt(f, start, size / 4 - 2) == f.decode(LastDoubleWord(start, size) / 4);
  }

  lemma LastDoubleWordAligned(start: u32, size: u32)
    requires start % 8 == 0 && size % 4 == 0
    ensures LastDoubleWord(start, size) % 4 == 0
  {
    WrapOfFour(start + size - 8, 2 * (start / 8) + size / 4 - 2);
  }

  lemma WrapOfFour(v: int, m: int)
    requires v == 4 * m && -0x1_0000_0000 <= v < 0x2_0000_0000
    ensures Wrap(v) % 4 == 0
  {
    assert Wrap(v) == 4 * (if m < 0 then m + 0x4000_0000 else if m < 0x4000_0000 then m else m - 0x4000_0000);
  }

  /** A run that passes has stored all patterns of all tests, in order; the address-line tests only at their two
      addresses. */
  ghost predicate WentThrough(before: seq<Store>, after: seq<Store>, start: u32, size: u32)
    requires start % 8 == 0 && size % 4 == 0
  {
    Aligned(start);
    exists mid: seq<Store> ::
      && StoredTo(before + AllProbeStores(start, |PATTERNS|), mid, {start, LastDoubleWord(start, size)})
      && |mid| == |before + AllProbeStores(start, |PATTERNS|)| + TargetCount(start, start, size, 32) +
                  TargetCount(LastDoubleWord(start, size), start, size, 32)
      && after == AfterPatterns(AfterConstants(mid, start, size / 4), start, size / 4)
  }

  /** The whole suite: for every fault of lines, decoder and cells, it passes exactly on a certified region. */
  method MemoryPostTests(b: Board, start: u32, size: u32) returns (ret: int)
    requires b.Valid() && start % 8 == 0 && size % 4 == 0
    modifies b.cells, b`held, b`written
    ensures ret == 0 || ret == -1
    ensures ret == 0 <==> Certified(b.fabric, start, size)
    ensures ret == 0 ==> WentThrough(old(b.written), b.written, start, size)
    ensures KeptOutsideRegion(b.fabric, start, size, old(b.cells[..]), b.cells[..])
  {
    FrameOfProbe(b.fabric, start, size, Pattern(11), b.cells[..]);
    ret := MemoryPostDataline(b, start);
    if ret == 0 {
      ghost var before := b.cells[..];
      ret := AddressLineTests(b, start, size);
      FrameOfAddrline(b.fabric, start, size, before, b.cells[..]);
    }
    if ret == 0 {
      ret := ConstantTests(b, start, size);
    }
    if ret == 0 {
      ret := PatternTests(b, start, size);
    }
  }

  /** From 16 bytes on the suite certifies the lines, the cells and the decoder of the region, and nothing else. */
  lemma CertifiedRegion(f: Fabric, start: u32, size: u32)
    requires start % 8 == 0 && size % 4 == 0 && size >= 16
    ensures Certified(f, start, size) <==>
            GoodLines(f) && RegionSound(f, start, size / 4) && RegionInjective(f, start, size / 4)
    ensures forall c: nat :: Touched(f, start, size, c) <==> exists i: nat | i < size / 4 :: CellAt(f, start, i) == c
  {
    LargeRegion(f, start, size);
  }
}
