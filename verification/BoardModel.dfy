/** The hardware under the power-on self test: a 64-line data bus, an address decoder and the memory cells
    behind it, any part of which may be faulty. */
module BoardModel {
  import opened Bits

  type LineNo = n: nat | n < 64

  /** What the processor senses on one data line when it reads: the level of some wire of the bus (its own
      wire, when the line is sound), a fixed level, or the charge that the last write left on the line. */
  datatype Line = Wired(source: LineNo) | StuckLine(level: bool) | Floating

  datatype Health = Sound | StuckBit(level: bool)

  type Lines = l: seq<Line> | |l| == 64 witness seq(64, _ => Floating)
  type CellHealth = h: seq<Health> | |h| == 32 witness seq(32, _ => Sound)
  type Levels = b: seq<bool> | |b| == 64 witness seq(64, _ => false)

  /** The permanent condition of a board. `decode` maps a word number to a cell and need not be injective. */
  datatype Fabric = Fabric(lines: Lines, decode: nat -> nat, health: nat -> CellHealth)

  ghost predicate GoodLines(f: Fabric) {
    forall p: LineNo :: f.lines[p] == Wired(p)
  }

  predicate Healthy(h: CellHealth) {
    forall k | 0 <= k < 32 :: h[k] == Sound
  }

  /** What a cell gives back after w was stored in it. */
  function Recall(h: CellHealth, w: Word): (r: Word)
    ensures Healthy(h) ==> r == w
  {
    seq(32, k requires 0 <= k < 32 => if h[k].Sound? then w[k] else h[k].level)
  }

  /** What the processor senses when memory drives `wires` and the last write left `held` on the lines. */
  function Sense(lines: Lines, wires: Levels, held: Levels): Levels {
    seq(64, p requires 0 <= p < 64 =>
      match lines[p]
      case Wired(s) => wires[s]
      case StuckLine(b) => b
      case Floating => held[p])
  }

  lemma GoodLinesSense(f: Fabric, wires: Levels, held: Levels)
    requires GoodLines(f)
    ensures Sense(f.lines, wires, held) == wires
  {
    forall p: LineNo
      ensures Sense(f.lines, wires, held)[p] == wires[p]
    {
      assert f.lines[p] == Wired(p);
    }
  }

  /** A 32-bit access uses the lower or the upper half of the 64 lines, by bit 2 of its address. */
  function OnLane(levels: Levels, word: nat, w: Word): Levels {
    if word % 2 == 0 then w + levels[32..] else levels[..32] + w
  }

  function Lane(levels: Levels, word: nat): Word {
    if word % 2 == 0 then levels[..32] else levels[32..]
  }

  /** A word on its way to an address. */
  datatype Store = Store(addr: u32, word: Word)

  class Board {
    const fabric: Fabric
    const cells: array<Word>
    var held: Levels
    /** Everything that was stored so far, in order. */
    ghost var written: seq<Store>

    ghost predicate Valid() {
      forall w: nat :: fabric.decode(w) < cells.Length
    }

    constructor (fabric: Fabric, cells: array<Word>, held: Levels)
      requires forall w: nat :: fabric.decode(w) < cells.Length
      ensures Valid() && this.fabric == fabric && this.cells == cells && this.held == held && written == []
    {
      this.fabric, this.cells, this.held := fabric, cells, held;
      written := [];
    }

    function CellOf(addr: u32): nat {
      fabric.decode(addr / 4)
    }

    method Write32(addr: u32, w: Word)
      requires Valid() && addr % 4 == 0
      modifies cells, `held, `written
      ensures cells[..] == old(cells[..])[CellOf(addr) := w]
      ensures held == OnLane(old(held), addr / 4, w)
      ensures written == old(written) + [Store(addr, w)]
    {
      written := written + [Store(addr, w)];
      cells[CellOf(addr)] := w;
      held := OnLane(held, addr / 4, w);
    }

    function Read32(addr: u32): (r: Word)
      requires Valid() && addr % 4 == 0
      reads this, cells
      ensures GoodLines(fabric) ==> r == Recall(fabric.health(CellOf(addr)), cells[CellOf(addr)])
    {
      var wires := OnLane(held, addr / 4, Recall(fabric.health(CellOf(addr)), cells[CellOf(addr)]));
      assert GoodLines(fabric) ==> Sense(fabric.lines, wires, held) == wires by {
        if GoodLines(fabric) { GoodLinesSense(fabric, wires, held); }
      }
      Lane(Sense(fabric.lines, wires, held), addr / 4)
    }

    /** A 64-bit store fills the word at the lower address first. */
    method Write64(addr: u32, v: Levels)
      requires Valid() && addr % 8 == 0
      modifies cells, `held, `written
      ensures cells[..] == old(cells[..])[CellOf(addr) := v[..32]][CellOf(addr + 4) := v[32..]]
      ensures held == v
      ensures written == old(written) + [Store(addr, v[..32]), Store(addr + 4, v[32..])]
    {
      written := written + [Store(addr, v[..32]), Store(addr + 4, v[32..])];
      cells[CellOf(addr)] := v[..32];
      cells[CellOf(addr + 4)] := v[32..];
      held := v;
    }

    function Read64(addr: u32): Levels
      requires Valid() && addr % 8 == 0
      reads this, cells
    {
      var lo := Recall(fabric.health(CellOf(addr)), cells[CellOf(addr)]);
      var hi := Recall(fabric.health(CellOf(addr + 4)), cells[CellOf(addr + 4)]);
      Sense(fabric.lines, lo + hi, held)
    }
  }
}
