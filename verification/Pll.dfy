/** What the PLL control registers of the two chips have in common. */
module Pll {
  import opened Bits

  const MHZ: u32 := 1_000_000

  /** Product of two unsigned words as the machine computes it. */
  function Mul(a: nat, b: nat): u32 {
    a * b % 0x1_0000_0000
  }

  function OutputDivider(od: nat): (no: nat)
    requires od < 4
    ensures no == Pow2(od)
  {
    Pow2UpTo12();
    if od == 0 then 1 else if od == 1 then 2 else if od == 2 then 4 else 8
  }

  const PLL_ENABLE := 0x100
  const PLL_BYPASS := 0x200

  /** The chosen word as initialisation writes it: with a stable time of 0x20 and the enable bit. */
  function Enabled(word: nat): nat {
    Or(word, 0x120)
  }

  predicate Running(reg: nat) {
    And(reg, PLL_ENABLE) != 0 && And(reg, PLL_BYPASS) == 0
  }

  /** The low 16 bits of a register that was enabled hold nothing else. */
  lemma EnabledRuns(high: nat)
    ensures Enabled(0x1_0000 * high) == 0x1_0000 * high + 0x120
    ensures Running(0x1_0000 * high + 0x120)
  {
    assert Enabled(0x1_0000 * high) == 0x1_0000 * high + 0x120 by {
      assert Pow2(16) == 0x1_0000 by { Pow2UpTo32(); }
      OrAt(high, 0x120, 16, 0x1_0000);
    }
    EnableBit(0x1_0000 * high + 0x120, high);
    BypassBit(0x1_0000 * high + 0x120, high);
  }

  lemma EnableBit(reg: nat, high: nat)
    requires reg == 0x1_0000 * high + 0x120
    ensures And(reg, PLL_ENABLE) != 0
  {
    assert Pow2(8) == 0x100 by { Pow2UpTo12(); }
    FlagAt(reg, 0x80 * high, 1, 0x20, 8, 0x100);
  }

  lemma BypassBit(reg: nat, high: nat)
    requires reg == 0x1_0000 * high + 0x120
    ensures And(reg, PLL_BYPASS) == 0
  {
    assert Pow2(9) == 0x200 by { Pow2UpTo12(); }
    FlagAt(reg, 0x40 * high, 0, 0x120, 9, 0x200);
  }
}
