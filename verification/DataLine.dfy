/** The data-line test: twelve 64-bit patterns, each written, masked by a different pattern written next to it,
    and read back. */
module DataLine {
  import opened Bits
  import opened BoardModel

  const PATTERNS: seq<nat> := [
    0xaaaa_aaaa_aaaa_aaaa,
    0xcccc_cccc_cccc_cccc,
    0xf0f0_f0f0_f0f0_f0f0,
    0xff00_ff00_ff00_ff00,
    0xffff_0000_ffff_0000,
    0xffff_ffff_0000_0000,
    0x0000_0000_ffff_ffff,
    0x0000_ffff_0000_ffff,
    0x00ff_00ff_00ff_00ff,
    0x0f0f_0f0f_0f0f_0f0f,
    0x3333_3333_3333_3333,
    0x5555_5555_5555_5555
  ]

  const OTHER: Levels := LevelsOf(0x0123_4567_89ab_cdef)

  function ByteOf(v: nat, k: nat): (b: nat)
    ensures b < 256
    decreases k
  {
    if k == 0 then v % 256 else ByteOf(v / 256, k - 1)
  }

  /** The levels that drive a 64-bit number: line p carries digit p % 8 of byte p / 8. */
  function LevelsOf(v: nat): Levels {
    seq(64, p requires 0 <= p < 64 => BitOf(ByteOf(v, p / 8), p % 8))
  }

  function Pattern(i: nat): Levels
    requires i < 12
  {
    LevelsOf(PATTERNS[i])
  }

  // The bytes of the patterns, and the digits of those bytes.

  function CodeByte(i: nat, k: nat): (b: nat)
    requires i < 6
    ensures b < 256
  {
    if i == 0 then 0xaa else if i == 1 then 0xcc else if i == 2 then 0xf0
    else if k / (if i == 3 then 1 else if i == 4 then 2 else 4) % 2 == 1 then 0xff else 0
  }

  lemma BytesOfPattern0(k: nat)
    requires k < 8
    ensures ByteOf(0xaaaa_aaaa_aaaa_aaaa, k) == CodeByte(0, k)
    ensures ByteOf(0x5555_5555_5555_5555, k) == 255 - CodeByte(0, k)
  {
    if
    case k == 0 => case k == 1 => case k == 2 => case k == 3 =>
    case k == 4 => case k == 5 => case k == 6 => case k == 7 =>
  }

  lemma BytesOfPattern1(k: nat)
    requires k < 8
    ensures ByteOf(0xcccc_cccc_cccc_cccc, k) == CodeByte(1, k)
    ensures ByteOf(0x3333_3333_3333_3333, k) == 255 - CodeByte(1, k)
  {
    if
    case k == 0 => case k == 1 => case k == 2 => case k == 3 =>
    case k == 4 => case k == 5 => case k == 6 => case k == 7 =>
  }

  lemma BytesOfPattern2(k: nat)
    requires k < 8
    ensures ByteOf(0xf0f0_f0f0_f0f0_f0f0, k) == CodeByte(2, k)
    ensures ByteOf(0x0f0f_0f0f_0f0f_0f0f, k) == 255 - CodeByte(2, k)
  {
    if
    case k == 0 => case k == 1 => case k == 2 => case k == 3 =>
    case k == 4 => case k == 5 => case k == 6 => case k == 7 =>
  }

  lemma BytesOfPattern3(k: nat)
    requires k < 8
    ensures ByteOf(0xff00_ff00_ff00_ff00, k) == CodeByte(3, k)
    ensures ByteOf(0x00ff_00ff_00ff_00ff, k) == 255 - CodeByte(3, k)
  {
    if
    case k == 0 => case k == 1 => case k == 2 => case k == 3 =>
    case k == 4 => case k == 5 => case k == 6 => case k == 7 =>
  }

  lemma BytesOfPattern4(k: nat)
    requires k < 8
    ensures ByteOf(0xffff_0000_ffff_0000, k) == CodeByte(4, k)
    ensures ByteOf(0x0000_ffff_0000_ffff, k) == 255 - CodeByte(4, k)
  {
    if
    case k == 0 => case k == 1 => case k == 2 => case k == 3 =>
    case k == 4 => case k == 5 => case k == 6 => case k == 7 =>
  }

  lemma BytesOfPattern5(k: nat)
    requires k < 8
    ensures ByteOf(0xffff_ffff_0000_0000, k) == CodeByte(5, k)
    ensures ByteOf(0x0000_0000_ffff_ffff, k) == 255 - CodeByte(5, k)
  {
    if
    case k == 0 => case k == 1 => case k == 2 => case k == 3 =>
    case k == 4 => case k == 5 => case k == 6 => case k == 7 =>
  }

  lemma BytesOfPattern(i: nat, k: nat)
    requires i < 6 && k < 8
    ensures ByteOf(PATTERNS[i], k) == CodeByte(i, k)
    ensures ByteOf(PATTERNS[11 - i], k) == 255 - CodeByte(i, k)
  {
    if
    case i == 0 => BytesOfPattern0(k);
    case i == 1 => BytesOfPattern1(k);
    case i == 2 => BytesOfPattern2(k);
    case i == 3 => BytesOfPattern3(k);
    case i == 4 => BytesOfPattern4(k);
    case i == 5 => BytesOfPattern5(k);
  }

  lemma DigitsOfByte(q: nat)
    requires q < 8
    ensures BitOf(0xaa, q) == (q % 2 == 1) && BitOf(0x55, q) == !BitOf(0xaa, q)
    ensures BitOf(0xcc, q) == (q / 2 % 2 == 1) && BitOf(0x33, q) == !BitOf(0xcc, q)
    ensures BitOf(0xf0, q) == (q / 4 % 2 == 1) && BitOf(0x0f, q) == !BitOf(0xf0, q)
    ensures BitOf(0xff, q) && !BitOf(0, q)
  {
    if
    case q == 0 => case q == 1 => case q == 2 => case q == 3 =>
    case q == 4 => case q == 5 => case q == 6 => case q == 7 =>
  }

  lemma ThreeDigits(q: nat)
    requires q < 8
    ensures BitOf(q, 0) == (q % 2 == 1) && BitOf(q, 1) == (q / 2 % 2 == 1) && BitOf(q, 2) == (q / 4 % 2 == 1)
  {
    if
    case q == 0 => case q == 1 => case q == 2 => case q == 3 =>
    case q == 4 => case q == 5 => case q == 6 => case q == 7 =>
  }

  lemma SixDigits(p: LineNo, i: nat)
    requires i < 6
    ensures BitOf(p, i) == if i < 3 then BitOf(p % 8, i) else BitOf(p / 8, i - 3)
  {
    assert Pow2(3) == 8;
    ShlIsProduct(p / 8, 3, 8);
    BitOfHalves(p % 8, p / 8, 3, i);
  }

  /** The first six patterns give line p the six binary digits of p, the last six their complements. */
  lemma PatternCode(p: LineNo, i: nat)
    requires i < 6
    ensures Pattern(i)[p] == BitOf(p, i)
    ensures Pattern(11 - i)[p] == !BitOf(p, i)
  {
    BytesOfPattern(i, p / 8);
    DigitsOfByte(p % 8);
    SixDigits(p, i);
    ThreeDigits(p % 8);
    ThreeDigits(p / 8);
  }

  lemma CodesDiffer(p: LineNo, s: LineNo)
    requires forall i: nat | i < 6 :: BitOf(p, i) == BitOf(s, i)
    ensures p == s
  {
    assert Pow2(6) == 64;
    DigitsDetermine(p, s, 6);
  }

  // The four words that one probe writes, and what comes back from the first two.

  function ProbeCell(f: Fabric, pmem: u32, k: nat): nat {
    f.decode((pmem / 4 + k) % 0x4000_0000)
  }

  /** The cells after pattern v was written at pmem and the other pattern next to it. */
  function AfterProbe(f: Fabric, pmem: u32, cells: seq<Word>, v: Levels): (r: seq<Word>)
    requires forall k: nat :: f.decode(k) < |cells|
    ensures |r| == |cells|
  {
    cells[ProbeCell(f, pmem, 0) := v[..32]][ProbeCell(f, pmem, 1) := v[32..]]
    [ProbeCell(f, pmem, 2) := OTHER[..32]][ProbeCell(f, pmem, 3) := OTHER[32..]]
  }

  /** What is stored for word k of the probe: the last of the four words written to its cell. */
  function Landed(f: Fabric, pmem: u32, v: Levels, k: nat): Word
    requires k < 2
  {
    var c := ProbeCell(f, pmem, k);
    if c == ProbeCell(f, pmem, 3) then OTHER[32..]
    else if c == ProbeCell(f, pmem, 2) then OTHER[..32]
    else if c == ProbeCell(f, pmem, 1) then v[32..]
    else v[..32]
  }

  function ReadBack(f: Fabric, pmem: u32, v: Levels): Levels {
    Sense(f.lines,
          Recall(f.health(ProbeCell(f, pmem, 0)), Landed(f, pmem, v, 0)) +
          Recall(f.health(ProbeCell(f, pmem, 1)), Landed(f, pmem, v, 1)),
          OTHER)
  }

  /** The memory under the probe is good: both tested words are sound, and neither shares its cell with a word
      written after it. */
  ghost predicate ProbeSound(f: Fabric, pmem: u32) {
    && Healthy(f.health(ProbeCell(f, pmem, 0))) && Healthy(f.health(ProbeCell(f, pmem, 1)))
    && ProbeCell(f, pmem, 0) !in {ProbeCell(f, pmem, 1), ProbeCell(f, pmem, 2), ProbeCell(f, pmem, 3)}
    && ProbeCell(f, pmem, 1) !in {ProbeCell(f, pmem, 2), ProbeCell(f, pmem, 3)}
  }

  ghost predicate PatternsReadBack(f: Fabric, pmem: u32, n: nat)
    requires n <= 12
  {
    forall i: nat | i < n :: ReadBack(f, pmem, Pattern(i)) == Pattern(i)
  }

  lemma OneMorePattern(f: Fabric, pmem: u32, i: nat)
    requires i < 12
    ensures PatternsReadBack(f, pmem, i + 1) <==>
            PatternsReadBack(f, pmem, i) && ReadBack(f, pmem, Pattern(i)) == Pattern(i)
  {
  }

  ghost predicate AllPatternsReadBack(f: Fabric, pmem: u32) {
    PatternsReadBack(f, pmem, 12)
  }

  // Every sensed line either carries a fixed level or follows one line of the pattern.
  datatype Origin = Fixed(level: bool) | Follows(line: LineNo)

  function CellOrigin(f: Fabric, pmem: u32, s: LineNo): Origin {
    var k := s / 32;
    var c := ProbeCell(f, pmem, k);
    var h := f.health(c)[s % 32];
    if h.StuckBit? then Fixed(h.level)
    else if c == ProbeCell(f, pmem, 3) then Fixed(OTHER[32 + s % 32])
    else if c == ProbeCell(f, pmem, 2) then Fixed(OTHER[s % 32])
    else if c == ProbeCell(f, pmem, 1) then Follows(32 + s % 32)
    else Follows(s % 32)
  }

  function LineOrigin(f: Fabric, pmem: u32, p: LineNo): Origin {
    match f.lines[p]
    case Wired(s) => CellOrigin(f, pmem, s)
    case StuckLine(b) => Fixed(b)
    case Floating => Fixed(OTHER[p])
  }

  function Level(o: Origin, v: Levels): bool {
    if o.Fixed? then o.level else v[o.line]
  }

  lemma StoredLevel(f: Fabric, pmem: u32, v: Levels, k: nat, j: nat)
    requires k < 2 && j < 32
    ensures Recall(f.health(ProbeCell(f, pmem, k)), Landed(f, pmem, v, k))[j] == Level(CellOrigin(f, pmem, 32 * k + j), v)
  {
    assert (32 * k + j) / 32 == k && (32 * k + j) % 32 == j;
  }

  lemma SensedLevel(f: Fabric, pmem: u32, v: Levels, p: LineNo)
    ensures ReadBack(f, pmem, v)[p] == Level(LineOrigin(f, pmem, p), v)
  {
    if f.lines[p].Wired? {
      var s := f.lines[p].source;
      StoredLevel(f, pmem, v, s / 32, s % 32);
      var lo: seq<bool> := Recall(f.health(ProbeCell(f, pmem, 0)), Landed(f, pmem, v, 0));
      var hi: seq<bool> := Recall(f.health(ProbeCell(f, pmem, 1)), Landed(f, pmem, v, 1));
      assert (lo + hi)[s] == if s < 32 then lo[s % 32] else hi[s % 32];
    }
  }

  lemma PassingLineFollowsItself(f: Fabric, pmem: u32, p: LineNo)
    requires AllPatternsReadBack(f, pmem)
    ensures LineOrigin(f, pmem, p) == Follows(p)
  {
    var o := LineOrigin(f, pmem, p);
    SensedLevel(f, pmem, Pattern(0), p);
    SensedLevel(f, pmem, Pattern(11), p);
    PatternCode(p, 0);
    forall i: nat | i < 6
      ensures BitOf(o.line, i) == BitOf(p, i)
    {
      SensedLevel(f, pmem, Pattern(i), p);
      PatternCode(p, i);
      PatternCode(o.line, i);
    }
    CodesDiffer(o.line, p);
  }

  lemma FollowingLineIsGood(f: Fabric, pmem: u32, p: LineNo)
    requires LineOrigin(f, pmem, p) == Follows(p)
    requires forall q: LineNo | q == 0 || q == 32 :: LineOrigin(f, pmem, q) == Follows(q)
    ensures f.lines[p] == Wired(p) && f.health(ProbeCell(f, pmem, p / 32))[p % 32] == Sound
    ensures ProbeCell(f, pmem, 0) !in {ProbeCell(f, pmem, 1), ProbeCell(f, pmem, 2), ProbeCell(f, pmem, 3)}
    ensures ProbeCell(f, pmem, 1) !in {ProbeCell(f, pmem, 2), ProbeCell(f, pmem, 3)}
  {
    assert LineOrigin(f, pmem, 0) == Follows(0);
    assert LineOrigin(f, pmem, 32) == Follows(32);
  }

  lemma PassingBoardIsGood(f: Fabric, pmem: u32)
    requires forall p: LineNo :: LineOrigin(f, pmem, p) == Follows(p)
    ensures GoodLines(f) && ProbeSound(f, pmem)
  {
    forall p: LineNo
      ensures f.lines[p] == Wired(p)
    {
      FollowingLineIsGood(f, pmem, p);
    }
    forall k: nat, j: nat | k < 2 && j < 32
      ensures f.health(ProbeCell(f, pmem, k))[j] == Sound
    {
      FollowingLineIsGood(f, pmem, 32 * k + j);
      assert (32 * k + j) / 32 == k && (32 * k + j) % 32 == j;
    }
    FollowingLineIsGood(f, pmem, 0);
  }

  /** The test tells apart every assignment of line, cell and decoder faults from a fault-free board. */
  lemma DatalineExact(f: Fabric, pmem: u32)
    ensures AllPatternsReadBack(f, pmem) <==> GoodLines(f) && ProbeSound(f, pmem)
  {
    if AllPatternsReadBack(f, pmem) {
      forall p: LineNo
        ensures LineOrigin(f, pmem, p) == Follows(p)
      {
        PassingLineFollowsItself(f, pmem, p);
      }
      PassingBoardIsGood(f, pmem);
    }
    if GoodLines(f) && ProbeSound(f, pmem) {
      forall i: nat | i < 12
        ensures ReadBack(f, pmem, Pattern(i)) == Pattern(i)
      {
        GoodLinesSense(f, Pattern(i), OTHER);
        assert Pattern(i)[..32] + Pattern(i)[32..] == Pattern(i);
      }
    }
  }

  /** A floating line reads back the pattern that was written last, whatever was stored. */
  lemma FloatingReadsOther(f: Fabric, pmem: u32, v: Levels, p: LineNo)
    requires f.lines[p].Floating?
    ensures ReadBack(f, pmem, v)[p] == LevelsOf(0x0123_4567_89ab_cdef)[p]
  {
  }

  lemma ProbedTwice(f: Fabric, pmem: u32, cells: seq<Word>, v: Levels, w: Levels)
    requires forall k: nat :: f.decode(k) < |cells|
    ensures AfterProbe(f, pmem, AfterProbe(f, pmem, cells, v), w) == AfterProbe(f, pmem, cells, w)
  {
  }

  lemma ProbedHoldsLanded(f: Fabric, pmem: u32, cells: seq<Word>, v: Levels, k: nat)
    requires forall k: nat :: f.decode(k) < |cells|
    requires k < 2
    ensures AfterProbe(f, pmem, cells, v)[ProbeCell(f, pmem, k)] == Landed(f, pmem, v, k)
  {
  }

  lemma ProbeWords(pmem: u32)
    requires pmem % 8 == 0
    ensures pmem / 4 % 0x4000_0000 == pmem / 4
    ensures (pmem + 4) / 4 == (pmem / 4 + 1) % 0x4000_0000
    ensures Wrap(pmem + 8) / 4 == (pmem / 4 + 2) % 0x4000_0000
    ensures (Wrap(pmem + 8) + 4) / 4 == (pmem / 4 + 3) % 0x4000_0000
    ensures Wrap(pmem + 8) % 8 == 0
  {
    if pmem + 8 < 0x1_0000_0000 {
    } else {
      assert pmem == 0xffff_fff8;
    }
  }

  /** One probe: the pattern, and a different one behind it. */
  function ProbeStores(pmem: u32, v: Levels): seq<Store>
    requires pmem % 8 == 0
  {
    ProbeWords(pmem);
    var next := Wrap(pmem + 8);
    [Store(pmem, v[..32]), Store(pmem + 4, v[32..]), Store(next, OTHER[..32]), Store(next + 4, OTHER[32..])]
  }

  function AllProbeStores(pmem: u32, n: nat): seq<Store>
    requires pmem % 8 == 0 && n <= 12
  {
    if n == 0 then [] else AllProbeStores(pmem, n - 1) + ProbeStores(pmem, Pattern(n - 1))
  }

  /** One round of the loop: the pattern, the other pattern, and the read. */
  method ProbeOnce(b: Board, pmem: u32, v: Levels) returns (temp64: Levels)
    requires b.Valid() && pmem % 8 == 0
    modifies b.cells, b`held, b`written
    ensures temp64 == ReadBack(b.fabric, pmem, v)
    ensures b.cells[..] == AfterProbe(b.fabric, pmem, old(b.cells[..]), v) && b.held == OTHER
    ensures b.written == old(b.written) + ProbeStores(pmem, v)
  {
    ProbeWords(pmem);
    b.Write64(pmem, v);
    var next := Wrap(pmem + 8);
    b.Write64(next, OTHER);
    assert b.cells[..] == AfterProbe(b.fabric, pmem, old(b.cells[..]), v);
    ProbedHoldsLanded(b.fabric, pmem, old(b.cells[..]), v, 0);
    ProbedHoldsLanded(b.fabric, pmem, old(b.cells[..]), v, 1);
    assert b.cells[ProbeCell(b.fabric, pmem, 0)] == b.cells[..][ProbeCell(b.fabric, pmem, 0)];
    assert b.cells[ProbeCell(b.fabric, pmem, 1)] == b.cells[..][ProbeCell(b.fabric, pmem, 1)];
    temp64 := b.Read64(pmem);
  }

  /** The cells after the first i patterns: only the last one shows. */
  function CellsAfter(f: Fabric, pmem: u32, before: seq<Word>, i: nat): (r: seq<Word>)
    requires i <= 12 && forall k: nat :: f.decode(k) < |before|
    ensures |r| == |before|
  {
    if i == 0 then before else AfterProbe(f, pmem, before, Pattern(i - 1))
  }

  /** One round of the loop; `before` is what the cells held at its start. */
  method ProbePattern(b: Board, pmem: u32, i: nat, ghost before: seq<Word>) returns (same: bool)
    requires b.Valid() && pmem % 8 == 0 && i < 12 && |before| == b.cells.Length
    requires b.cells[..] == CellsAfter(b.fabric, pmem, before, i)
    modifies b.cells, b`held, b`written
    ensures same <==> ReadBack(b.fabric, pmem, Pattern(i)) == Pattern(i)
    ensures b.cells[..] == CellsAfter(b.fabric, pmem, before, i + 1) && b.held == OTHER
    ensures b.written == old(b.written) + ProbeStores(pmem, Pattern(i))
  {
    if i > 0 {
      ProbedTwice(b.fabric, pmem, before, Pattern(i - 1), Pattern(i));
    }
    var temp64 := ProbeOnce(b, pmem, Pattern(i));
    same := temp64 == Pattern(i);
  }

  method MemoryPostDataline(b: Board, pmem: u32) returns (ret: int)
    requires b.Valid() && pmem % 8 == 0
    modifies b.cells, b`held, b`written
    ensures ret == 0 || ret == -1
    ensures ret == 0 <==> GoodLines(b.fabric) && ProbeSound(b.fabric, pmem)
    ensures b.cells[..] == AfterProbe(b.fabric, pmem, old(b.cells[..]), Pattern(11)) && b.held == OTHER
    ensures b.written == old(b.written) + AllProbeStores(pmem, |PATTERNS|)
  {
    ghost var f, before := b.fabric, b.cells[..];
    ret := 0;
    var i := 0;
    while i < |PATTERNS|
      invariant i <= 12
      invariant ret == 0 || ret == -1
      invariant ret == 0 <==> PatternsReadBack(f, pmem, i)
      invariant b.cells[..] == CellsAfter(f, pmem, before, i) && (i > 0 ==> b.held == OTHER)
      invariant b.written == old(b.written) + AllProbeStores(pmem, i)
    {
      OneMorePattern(f, pmem, i);
      var same := ProbePattern(b, pmem, i, before);
      if !same {
        ret := -1;
      }
      i := i + 1;
    }
    DatalineExact(f, pmem);
  }
}
