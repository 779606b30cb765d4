/** The read calibration of the JZ4770: a delay first, then an offset for the read strobe. */
module Calibration4770 {
  import opened Bits
  import opened DelaySearch

  /** Initialising the controller with a delay and a strobe adjustment word, and testing the memory. */
  type FullOracle = (Delay, nat) -> bool

  function WithWord(works: FullOracle, word: nat): Oracle {
    (d: Delay) => works(d, word)
  }

  // ---------------------------------------------------------------- the strobe adjustment word

  const INITIAL_WORD := 0x2325

  /** Sign and magnitude of the read strobe offset, beside the fixed write strobe part. */
  function DqsWord(i: int): nat {
    if i < 0 then Or(0x2320, -i) else Or(0x2300, i)
  }

  /** The offset that a word stands for: bit 5 is the sign, bits 0-4 the magnitude. */
  function OffsetOf(word: nat): int {
    var m: int := Field(word, 0x1f, 0);
    if And(word, 0x20) != 0 then -m else m
  }

  lemma DqsWordRoundTrip(i: int)
    requires -0x1f <= i <= 0x1f
    ensures OffsetOf(DqsWord(i)) == i
    ensures Field(DqsWord(i), 0xff, 8) == 0x23
  {
    var m: nat := if i < 0 then -i else i;
    var hi: nat := if i < 0 then 0x119 else 0x118;
    var word := 0x20 * hi + m;
    assert Pow2(5) == 0x20 by { Pow2UpTo12(); }
    assert DqsWord(i) == word by { OrAt(hi, m, 5, 0x20); }
    assert And(word, 0x20) != 0 <==> i < 0 by { FlagAt(word, 0x8c, hi - 0x118, m, 5, 0x20); }
    assert Field(word, 0x1f, 0) == m by { FieldAt(word, hi, m, 0, 5, 0x20, 0, 1); }
    assert Field(word, 0xff, 8) == 0x23 by {
      assert Pow2(8) == 0x100 by { Pow2UpTo12(); }
      FieldAt(word, 0, 0x23, word - 0x2300, 8, 0x100, 8, 0x100);
    }
  }

  /** The widest offset to try: the delay that the hardware found, corrected by the offset in force, at most 31. */
  function MaxAdj(rdqs: nat, word: nat): int
  {
    var a := Field(word, 0x1f, 0);
    var m := if And(word, 0x20) != 0 then rdqs + a else rdqs - a;
    if m > 0x1f then 0x1f else m
  }

  /** The offset in force is -5, so that it is always among those that are tried. */
  lemma InitialInRange(rdqs: nat)
    ensures MaxAdj(rdqs, INITIAL_WORD) == if rdqs > 26 then 31 else rdqs + 5
    ensures DqsWord(-5) == INITIAL_WORD
  {
    assert Pow2(5) == 0x20 by { Pow2UpTo12(); }
    assert DqsWord(-5) == INITIAL_WORD by { OrAt(0x119, 5, 5, 0x20); }
    assert And(INITIAL_WORD, 0x20) != 0 by { FlagAt(INITIAL_WORD, 0x8c, 1, 5, 5, 0x20); }
    assert Field(INITIAL_WORD, 0x1f, 0) == 5 by { FieldAt(INITIAL_WORD, 0x119, 5, 0, 5, 0x20, 0, 1); }
  }

  /** Division of the C language: towards zero. */
  function Half(x: int): (h: int)
    ensures x >= 0 ==> 2 * h <= x < 2 * h + 2
    ensures x <= 0 ==> 2 * h - 2 < x <= 2 * h
  {
    if x >= 0 then x / 2 else -(-x / 2)
  }

  predicate OffsetPasses(works: FullOracle, d: Delay, i: int) {
    works(d, DqsWord(i))
  }

  /** The first run of passing offsets in [-m, m) reaches from lo up to hi. */
  ghost predicate FirstOffsetRun(works: FullOracle, d: Delay, m: int, lo: int, hi: int) {
    && -m <= lo < hi <= m
    && (forall i | -m <= i < lo :: !OffsetPasses(works, d, i))
    && (forall i | lo <= i < hi :: OffsetPasses(works, d, i))
    && (hi < m ==> !OffsetPasses(works, d, hi))
  }

  ghost predicate NoOffset(works: FullOracle, d: Delay, m: int) {
    forall i | -m <= i < m :: !OffsetPasses(works, d, i)
  }

  method SearchOffsets(works: FullOracle, d: Delay, maxAdj: int) returns (indexMin: int, indexMax: int)
    ensures NoOffset(works, d, maxAdj) ==> indexMin == -maxAdj && indexMax == maxAdj
    ensures !NoOffset(works, d, maxAdj) ==> FirstOffsetRun(works, d, maxAdj, indexMin, indexMax)
  {
    indexMin, indexMax := -maxAdj, maxAdj;
    var num := 0;
    var i := -maxAdj;
    while i < maxAdj
      invariant i <= maxAdj || i == -maxAdj
      invariant -maxAdj <= i && 0 <= num && indexMax == maxAdj
      invariant num == 0 ==> indexMin == -maxAdj && forall j | -maxAdj <= j < i :: !OffsetPasses(works, d, j)
      invariant num > 0 ==> -maxAdj <= indexMin < i <= maxAdj
      invariant num > 0 ==> forall j | -maxAdj <= j < indexMin :: !OffsetPasses(works, d, j)
      invariant num > 0 ==> forall j | indexMin <= j < i :: OffsetPasses(works, d, j)
    {
      var dqsAdj := if i < 0 then Or(0x2320, -i) else Or(0x2300, i);
      assert dqsAdj == DqsWord(i);
      if !works(d, dqsAdj) {
        assert !OffsetPasses(works, d, i);
        if num > 0 {
          indexMax := i;
          break;
        }
      } else {
        assert OffsetPasses(works, d, i);
        if num == 0 {
          indexMin := i;
        }
        num := num + 1;
      }
      i := i + 1;
    }
    if num > 0 { assert OffsetPasses(works, d, indexMin); }
  }

  /** The middle of the first run passes; with no passing offset the middle is 0. */
  lemma MiddleOffset(works: FullOracle, d: Delay, m: int, lo: int, hi: int)
    ensures FirstOffsetRun(works, d, m, lo, hi) ==>
              lo <= Half(lo + hi - 1) < hi && OffsetPasses(works, d, Half(lo + hi - 1))
    ensures Half(-m + m - 1) == 0
  {
  }

  method ChooseOffset(works: FullOracle, d: Delay, maxAdj: int) returns (index: int)
    ensures !NoOffset(works, d, maxAdj) ==> -maxAdj <= index < maxAdj && OffsetPasses(works, d, index)
    ensures !NoOffset(works, d, maxAdj) ==>
              exists lo, hi :: FirstOffsetRun(works, d, maxAdj, lo, hi) && index == Half(lo + hi - 1)
    ensures NoOffset(works, d, maxAdj) ==> index == 0
  {
    var indexMin, indexMax := SearchOffsets(works, d, maxAdj);
    index := Half(indexMin + indexMax - 1);
    MiddleOffset(works, d, maxAdj, indexMin, indexMax);
  }

  // ---------------------------------------------------------------- both searches

  datatype Calibration = Stuck | Configured(delay: Delay, word: nat)

  /** The delay is the middle of the run of the median row that s lists, and the program hangs when s lists none. */
  ghost predicate DelayOfMedian(works: Oracle, s: seq<nat>, r: Calibration) {
    match r
    case Stuck => PicksMedian(works, 16, s, NoWindow)
    case Configured(d, _) =>
      exists j: nat :: d == DelayAt(d.tsel, j) && PicksMedian(works, 16, s, Chosen(d.tsel, j))
  }

  lemma MedianIsDelay(works: Oracle, c: DelayChoice, r: Calibration)
    requires forall s: seq<nat> | ListsWindows(works, 4, 16, s) :: PicksMedian(works, 16, s, c)
    requires if c.NoWindow? then r == Stuck else r.Configured? && r.delay == DelayAt(c.tsel, c.j)
    ensures forall s: seq<nat> | ListsWindows(works, 4, 16, s) :: DelayOfMedian(works, s, r)
  {
    forall s: seq<nat> | ListsWindows(works, 4, 16, s)
      ensures DelayOfMedian(works, s, r)
    {
      assert PicksMedian(works, 16, s, c);
    }
  }

  /** The whole calibration, given the strobe delay `rdqs` that the hardware reports in between. Whatever the
      verdicts: unless the program hangs, the configuration that it leaves behind is one that passed. */
  method Calibrate(works: FullOracle, rdqs: nat) returns (r: Calibration)
    ensures r == Stuck <==> !SomeEdge(WithWord(works, INITIAL_WORD), 4, 16)
    ensures r.Configured? ==> works(r.delay, INITIAL_WORD) && works(r.delay, r.word)
    ensures forall s: seq<nat> | ListsWindows(WithWord(works, INITIAL_WORD), 4, 16, s) ::
              DelayOfMedian(WithWord(works, INITIAL_WORD), s, r)
    ensures r.Configured? ==>
              var c := MedianOf(WithWord(works, INITIAL_WORD), Found(WithWord(works, INITIAL_WORD), 4, 16), 16);
              && c.Chosen? && r.delay == DelayAt(c.tsel, c.j)
              && exists lo, hi :: FirstOffsetRun(works, r.delay, MaxAdj(rdqs, INITIAL_WORD), lo, hi) &&
                                  r.word == DqsWord(Half(lo + hi - 1))
  {
    var c := ChooseDelay(WithWord(works, INITIAL_WORD), 4, 16);
    ChoiceWorks(WithWord(works, INITIAL_WORD), 4, 16);
    if c == NoWindow {
      MedianIsDelay(WithWord(works, INITIAL_WORD), c, Stuck);
      return Stuck;
    }
    var d := DelayAt(c.tsel, c.j);
    assert Pass(WithWord(works, INITIAL_WORD), c.tsel, c.j);
    var maxAdj := MaxAdj(rdqs, INITIAL_WORD);
    InitialInRange(rdqs);
    assert OffsetPasses(works, d, -5);
    var index := ChooseOffset(works, d, maxAdj);
    r := Configured(d, DqsWord(index));
    MedianIsDelay(WithWord(works, INITIAL_WORD), c, r);
  }
}
