/** Machine words: unsigned 32-bit numbers, the wires that carry them, and the bitwise operators. */
module Bits {
  import opened Arith

  type u32 = x: int | 0 <= x < 0x1_0000_0000

  /** The sum or difference of two unsigned words, as the machine computes it. */
  function Wrap(x: int): (r: u32)
    requires -0x1_0000_0000 <= x < 0x2_0000_0000
    ensures r == x % 0x1_0000_0000
  {
    if x < 0 then x + 0x1_0000_0000 else if x < 0x1_0000_0000 then x else x - 0x1_0000_0000
  }

  /** 32 wires, least significant first. */
  type Word = w: seq<bool> | |w| == 32 witness seq(32, _ => false)

  /** v << n, without a width. */
  function Shl(v: nat, n: nat): nat
  {
    if n == 0 then v else 2 * Shl(v, n - 1)
  }

  function Shr(v: nat, n: nat): nat
  {
    if n == 0 then v else Shr(v / 2, n - 1)
  }

  function Pow2(n: nat): (r: nat)
    ensures r > 0
    decreases n
  {
    if n == 0 then 1 else 2 * Pow2(n - 1)
  }

  /** Binary digit p of v. */
  predicate BitOf(v: nat, p: nat)
  {
    if p == 0 then v % 2 == 1 else BitOf(v / 2, p - 1)
  }

  function WordOf(v: u32): Word {
    seq(32, p requires 0 <= p < 32 => BitOf(v, p))
  }

  function Not(w: Word): Word {
    seq(32, p requires 0 <= p < 32 => !w[p])
  }

  /** Bitwise exclusive or of two non-negative numbers. */
  function Xor(a: nat, b: nat): nat
    decreases a + b
  {
    if a == 0 && b == 0 then 0
    else (if a % 2 != b % 2 then 1 else 0) + 2 * Xor(a / 2, b / 2)
  }

  function And(a: nat, b: nat): nat
    decreases a + b
  {
    if a == 0 && b == 0 then 0
    else (if a % 2 == 1 && b % 2 == 1 then 1 else 0) + 2 * And(a / 2, b / 2)
  }

  function Or(a: nat, b: nat): nat
    decreases a + b
  {
    if a == 0 && b == 0 then 0
    else (if a % 2 == 1 || b % 2 == 1 then 1 else 0) + 2 * Or(a / 2, b / 2)
  }

  /** (w & (mask << bit)) >> bit */
  function Field(w: nat, mask: nat, bit: nat): nat {
    Shr(And(w, Shl(mask, bit)), bit)
  }

  lemma {:induction false} Pow2Increases(a: nat, b: nat)
    requires a < b
    ensures Pow2(a) < Pow2(b)
  {
    if a + 1 < b {
      Pow2Increases(a, b - 1);
    }
  }

  /** Two numbers side by side: the digits of the low one come first. */
  lemma {:induction false} BitOfHalves(lo: nat, hi: nat, n: nat, p: nat)
    requires lo < Pow2(n)
    ensures BitOf(lo + Shl(hi, n), p) == if p < n then BitOf(lo, p) else BitOf(hi, p - n)
  {
    if n > 0 && p > 0 {
      BitOfHalves(lo / 2, hi, n - 1, p - 1);
      assert (lo + Shl(hi, n)) / 2 == lo / 2 + Shl(hi, n - 1);
    }
  }

  lemma {:induction false} BitOfComplement(v: nat, n: nat, p: nat)
    requires v < Pow2(n) && p < n
    ensures BitOf(Pow2(n) - 1 - v, p) == !BitOf(v, p)
  {
    var w := Pow2(n) - 1 - v;
    assert w / 2 == Pow2(n - 1) - 1 - v / 2 && w % 2 != v % 2;
    if p > 0 {
      BitOfComplement(v / 2, n - 1, p - 1);
    }
  }

  lemma {:induction false} BitOfZero(p: nat)
    ensures !BitOf(0, p)
  {
    if p > 0 {
      BitOfZero(p - 1);
    }
  }

  lemma {:induction false} BitIsQuotient(v: nat, p: nat)
    ensures BitOf(v, p) <==> v / Pow2(p) % 2 == 1
  {
    if p > 0 {
      BitIsQuotient(v / 2, p - 1);
      DivDiv(v, 2, Pow2(p - 1));
    }
  }

  /** Bitwise operators work digit by digit. */
  lemma {:induction false} XorDigits(a: nat, b: nat, r: nat, p: nat)
    requires r == Xor(a, b)
    ensures BitOf(r, p) <==> BitOf(a, p) != BitOf(b, p)
  {
    var h := Xor(a / 2, b / 2);
    XorHalves(a, b);
    assert r / 2 == h;
    if p > 0 { XorDigits(a / 2, b / 2, h, p - 1); }
  }

  lemma {:induction false} AndDigits(a: nat, b: nat, r: nat, p: nat)
    requires r == And(a, b)
    ensures BitOf(r, p) <==> BitOf(a, p) && BitOf(b, p)
  {
    var h := And(a / 2, b / 2);
    AndHalves(a, b);
    assert r / 2 == h;
    if p > 0 { AndDigits(a / 2, b / 2, h, p - 1); }
  }

  lemma {:induction false} OrDigits(a: nat, b: nat, r: nat, p: nat)
    requires r == Or(a, b)
    ensures BitOf(r, p) <==> BitOf(a, p) || BitOf(b, p)
  {
    var h := Or(a / 2, b / 2);
    OrHalves(a, b);
    assert r / 2 == h;
    if p > 0 { OrDigits(a / 2, b / 2, h, p - 1); }
  }

  lemma {:induction false} BitOfPower(k: nat, p: nat)
    ensures BitOf(Pow2(k), p) <==> p == k
  {
    if p > 0 && k > 0 {
      BitOfPower(k - 1, p - 1);
    } else if p > 0 {
      BitOfZero(p - 1);
    }
  }

  lemma {:induction false} DigitsDetermine(a: nat, b: nat, n: nat)
    requires a < Pow2(n) && b < Pow2(n)
    requires forall p: nat | p < n :: BitOf(a, p) == BitOf(b, p)
    ensures a == b
  {
    if n > 0 {
      forall p: nat | p < n - 1
        ensures BitOf(a / 2, p) == BitOf(b / 2, p)
      {
        assert BitOf(a, p + 1) == BitOf(b, p + 1);
      }
      DigitsDetermine(a / 2, b / 2, n - 1);
      assert BitOf(a, 0) == BitOf(b, 0);
    }
  }

  lemma WordOfInjective(a: u32, b: u32)
    requires WordOf(a) == WordOf(b)
    ensures a == b
  {
    Pow2Table();
    forall p: nat | p < 32
      ensures BitOf(a, p) == BitOf(b, p)
    {
      assert WordOf(a)[p] == WordOf(b)[p];
    }
    DigitsDetermine(a, b, 32);
  }

  lemma {:induction false} XorInRange(a: nat, b: nat, n: nat)
    requires a < Pow2(n) && b < Pow2(n)
    ensures Xor(a, b) < Pow2(n)
    decreases n
  {
    if a != 0 || b != 0 {
      XorInRange(a / 2, b / 2, n - 1);
    }
  }

  lemma {:induction false} XorFixesOnlyByZero(a: nat, b: nat)
    ensures Xor(a, b) == a <==> b == 0
    decreases a + b
  {
    if a != 0 || b != 0 {
      XorFixesOnlyByZero(a / 2, b / 2);
    }
  }

  lemma XorHalves(a: nat, b: nat)
    ensures Xor(a, b) == (if a % 2 != b % 2 then 1 else 0) + 2 * Xor(a / 2, b / 2)
  {
    assert Xor(0, 0) == 0;
  }

  lemma XorKeepsTwoDigits(a: nat, b: nat)
    requires b % 4 == 0
    ensures Xor(a, b) == 4 * Xor(a / 4, b / 4) + a % 4
  {
    XorHalves(a, b);
    XorHalves(a / 2, b / 2);
    assert a / 2 / 2 == a / 4 && b / 2 / 2 == b / 4;
  }

  lemma XorKeepsThreeDigits(a: nat, b: nat)
    requires b % 8 == 0
    ensures Xor(a, b) % 8 == a % 8
  {
    var q, c := a / 4, b / 4;
    var y := Xor(q / 2, c / 2);
    var low := 4 * (q % 2) + a % 4;
    assert c % 2 == 0 by { assert b == 8 * (b / 8) && c == 2 * (b / 8); }
    assert Xor(a, b) == 8 * y + low by {
      XorKeepsTwoDigits(a, b);
      XorHalves(q, c);
    }
    RemainderOf(Xor(a, b), y, low);
    RemainderOf(a, q / 2, low);
  }

  lemma RemainderOf(v: nat, q: nat, r: nat)
    requires v == 8 * q + r && r < 8
    ensures v % 8 == r
  {
  }

  lemma XorOfFour(a: nat)
    requires a % 8 == 4
    ensures Xor(a, 4) == a - 4
  {
    var q := a / 4;
    assert q % 2 == 1;
    XorKeepsTwoDigits(a, 4);
    XorHalves(q, 1);
    XorFixesOnlyByZero(q / 2, 0);
  }

  /** A number shifted past another one is or-ed to it by adding. */
  lemma {:induction false} OrIsSum(hi: nat, n: nat, lo: nat)
    requires lo < Pow2(n)
    ensures Or(Shl(hi, n), lo) == Shl(hi, n) + lo
  {
    if n == 0 {
      OrZero(hi);
    } else {
      OrIsSum(hi, n - 1, lo / 2);
    }
  }

  lemma {:induction false} OrCommutes(a: nat, b: nat)
    ensures Or(a, b) == Or(b, a)
    decreases a + b
  {
    if a != 0 || b != 0 {
      OrCommutes(a / 2, b / 2);
    }
  }

  lemma {:induction false} OrZero(a: nat)
    ensures Or(a, 0) == a
  {
    if a != 0 {
      OrZero(a / 2);
    }
  }

  /** Bitwise operators work separately on the two halves of their operands. */
  lemma {:induction false} AndOnHalves(v: nat, a: nat, lo: nat, w: nat, b: nat, lo2: nat, s: nat)
    requires lo < Pow2(s) && lo2 < Pow2(s) && v == Shl(a, s) + lo && w == Shl(b, s) + lo2
    ensures And(v, w) == Shl(And(a, b), s) + And(lo, lo2)
    decreases s
  {
    if s == 0 {
      AndZero(0);
    } else {
      HalfOfHalves(a, lo, s);
      HalfOfHalves(b, lo2, s);
      AndOnHalves(v / 2, a, lo / 2, w / 2, b, lo2 / 2, s - 1);
      AndHalves(v, w);
      AndHalves(lo, lo2);
    }
  }

  lemma {:induction false} OrOnHalves(v: nat, a: nat, lo: nat, w: nat, b: nat, lo2: nat, s: nat)
    requires lo < Pow2(s) && lo2 < Pow2(s) && v == Shl(a, s) + lo && w == Shl(b, s) + lo2
    ensures Or(v, w) == Shl(Or(a, b), s) + Or(lo, lo2)
    decreases s
  {
    if s == 0 {
      OrZero(0);
    } else {
      HalfOfHalves(a, lo, s);
      HalfOfHalves(b, lo2, s);
      OrOnHalves(v / 2, a, lo / 2, w / 2, b, lo2 / 2, s - 1);
      OrHalves(v, w);
      OrHalves(lo, lo2);
    }
  }

  lemma HalfOfHalves(a: nat, lo: nat, s: nat)
    requires s > 0
    ensures (Shl(a, s) + lo) / 2 == Shl(a, s - 1) + lo / 2 && (Shl(a, s) + lo) % 2 == lo % 2
  {
  }

  lemma AndAbove(x: nat, lo: nat, y: nat, s: nat)
    requires lo < Pow2(s)
    ensures And(Shl(x, s) + lo, Shl(y, s)) == Shl(And(x, y), s)
  {
    AndOnHalves(Shl(x, s) + lo, x, lo, Shl(y, s), y, 0, s);
    AndZero(lo);
  }

  lemma AndHalves(a: nat, b: nat)
    ensures And(a, b) == (if a % 2 == 1 && b % 2 == 1 then 1 else 0) + 2 * And(a / 2, b / 2)
  {
    assert And(0, 0) == 0;
  }

  lemma OrHalves(a: nat, b: nat)
    ensures Or(a, b) == (if a % 2 == 1 || b % 2 == 1 then 1 else 0) + 2 * Or(a / 2, b / 2)
  {
    assert Or(0, 0) == 0;
  }

  lemma {:induction false} AndZero(a: nat)
    ensures And(a, 0) == 0
  {
    if a != 0 {
      AndZero(a / 2);
    }
  }

  lemma {:induction false} AndLowMask(hi: nat, mid: nat, m: nat)
    requires mid < Pow2(m)
    ensures And(Shl(hi, m) + mid, Pow2(m) - 1) == mid
    decreases m
  {
    if m == 0 {
      AndZero(hi);
    } else {
      AndLowMask(hi, mid / 2, m - 1);
      assert (Shl(hi, m) + mid) / 2 == Shl(hi, m - 1) + mid / 2;
      assert (Pow2(m) - 1) / 2 == Pow2(m - 1) - 1;
    }
  }

  lemma {:induction false} ShrUndoesShl(v: nat, n: nat)
    ensures Shr(Shl(v, n), n) == v
  {
    if n > 0 {
      ShrUndoesShl(v, n - 1);
    }
  }

  /** A field of a word made of three parts is the middle part. */
  lemma FieldIsMiddle(hi: nat, mid: nat, lo: nat, m: nat, s: nat)
    requires mid < Pow2(m) && lo < Pow2(s)
    ensures Field(Shl(Shl(hi, m) + mid, s) + lo, Pow2(m) - 1, s) == mid
  {
    AndAbove(Shl(hi, m) + mid, lo, Pow2(m) - 1, s);
    AndLowMask(hi, mid, m);
    ShrUndoesShl(mid, s);
  }

  // The same facts for shifts by a constant: `weight` is the value of the lowest shifted bit.

  lemma Pow2Table()
    ensures Pow2(1) == 2 && Pow2(2) == 4 && Pow2(3) == 8 && Pow2(4) == 0x10 && Pow2(5) == 0x20 && Pow2(6) == 0x40
    ensures Pow2(7) == 0x80 && Pow2(8) == 0x100 && Pow2(9) == 0x200 && Pow2(10) == 0x400 && Pow2(12) == 0x1000
    ensures Pow2(16) == 0x1_0000 && Pow2(18) == 0x4_0000 && Pow2(19) == 0x8_0000 && Pow2(20) == 0x10_0000
    ensures Pow2(24) == 0x100_0000 && Pow2(28) == 0x1000_0000 && Pow2(31) == 0x8000_0000 && Pow2(32) == 0x1_0000_0000
  {
    Pow2UpTo12();
    Pow2UpTo32();
  }

  lemma Pow2UpTo12()
    ensures Pow2(1) == 2 && Pow2(2) == 4 && Pow2(3) == 8 && Pow2(4) == 0x10 && Pow2(5) == 0x20 && Pow2(6) == 0x40
    ensures Pow2(7) == 0x80 && Pow2(8) == 0x100 && Pow2(9) == 0x200 && Pow2(10) == 0x400 && Pow2(12) == 0x1000
  {
    FourDoublings(0);
    FourDoublings(4);
    FourDoublings(8);
  }

  lemma Pow2UpTo32()
    ensures Pow2(16) == 0x1_0000 && Pow2(18) == 0x4_0000 && Pow2(19) == 0x8_0000 && Pow2(20) == 0x10_0000
    ensures Pow2(24) == 0x100_0000 && Pow2(28) == 0x1000_0000 && Pow2(31) == 0x8000_0000 && Pow2(32) == 0x1_0000_0000
  {
    Pow2UpTo12();
    FourDoublings(12);
    FourDoublings(16);
    FourDoublings(20);
    FourDoublings(24);
    FourDoublings(28);
  }

  lemma FourDoublings(n: nat)
    ensures Pow2(n + 1) == 2 * Pow2(n) && Pow2(n + 2) == 4 * Pow2(n)
    ensures Pow2(n + 3) == 8 * Pow2(n) && Pow2(n + 4) == 16 * Pow2(n)
  {
  }

  lemma {:induction false} ShlIsProduct(v: nat, n: nat, weight: nat)
    requires weight == Pow2(n)
    ensures Shl(v, n) == weight * v
    decreases n
  {
    if n > 0 {
      var half := Pow2(n - 1);
      ShlIsProduct(v, n - 1, half);
      assert (2 * half) * v == 2 * (half * v);
    }
  }

  lemma OrAt(hi: nat, lo: nat, n: nat, weight: nat)
    requires weight == Pow2(n) && lo < weight
    ensures Or(weight * hi, lo) == weight * hi + lo
  {
    ShlIsProduct(hi, n, weight);
    OrIsSum(hi, n, lo);
  }

  /** word |= v << bit, for a v that stays below everything that the word holds. */
  lemma OrField(word: nat, h: nat, top: nat, big: nat, v: nat, bit: nat, weight: nat)
    requires big == Pow2(top) && word == big * h && weight == Pow2(bit) && 0 <= weight * v < big
    ensures Or(word, Shl(v, bit)) == word + weight * v
  {
    ShlIsProduct(v, bit, weight);
    OrAt(h, weight * v, top, big);
  }

  lemma FieldAt(word: nat, hi: nat, mid: nat, lo: nat, width: nat, size: nat, bit: nat, weight: nat)
    requires size == Pow2(width) && weight == Pow2(bit) && mid < size && lo < weight
    requires word == weight * (size * hi + mid) + lo
    ensures Field(word, size - 1, bit) == mid
  {
    ShlIsProduct(hi, width, size);
    ShlIsProduct(size * hi + mid, bit, weight);
    FieldIsMiddle(hi, mid, lo, width, bit);
  }

  /** Testing a single bit. */
  lemma BitAt(word: nat, hi: nat, lo: nat, bit: nat, weight: nat)
    requires weight == Pow2(bit) && lo < weight && word == weight * hi + lo
    ensures And(word, weight) == if hi % 2 == 1 then weight else 0
  {
    ShlIsProduct(hi, bit, weight);
    ShlIsProduct(1, bit, weight);
    ShlIsProduct(And(hi, 1), bit, weight);
    AndAbove(hi, lo, 1, bit);
    AndZero(hi / 2);
  }

  /** The same for a digit that is given by name. */
  lemma FlagAt(word: nat, top: nat, flag: nat, low: nat, bit: nat, weight: nat)
    requires weight == Pow2(bit) && flag < 2 && low < weight && word == weight * (2 * top + flag) + low
    ensures And(word, weight) != 0 <==> flag == 1
  {
    var hi := 2 * top + flag;
    assert hi % 2 == flag;
    assert word == weight * hi + low;
    BitAt(word, hi, low, bit, weight);
  }

  lemma AndAllOnes(lo: nat, ones: nat, n: nat, weight: nat)
    requires weight == Pow2(n) && lo < weight && ones == weight - 1
    ensures And(lo, ones) == lo
  {
    ShlIsProduct(0, n, weight);
    AndLowMask(0, lo, n);
  }

  lemma {:induction false} OrAllOnes(v: nat, ones: nat, n: nat)
    requires v < Pow2(n) && ones == Pow2(n) - 1
    ensures Or(v, ones) == ones
    decreases n
  {
    if n > 0 {
      OrAllOnes(v / 2, ones / 2, n - 1);
      OrHalves(v, ones);
    }
  }
}
