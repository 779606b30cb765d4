/** The read calibration of the JZ4760: the first delay window of the first selector row that has one. */
module Calibration4760 {
  import opened Arith
  import opened Bits
  import opened DelaySearch

  /** Sets 32-byte groups of words to a byte value; `len` counts bytes. */
  method JzMemset(dest: array<nat>, ch: nat, len: nat)
    requires 8 * (len / 32) <= dest.Length
    modifies dest
    ensures forall w | 0 <= w < 8 * (len / 32) :: dest[w] == Or(Or(Or(Shl(ch, 24), Shl(ch, 16)), Shl(ch, 8)), ch)
    ensures forall w | 8 * (len / 32) <= w < dest.Length :: dest[w] == old(dest[w])
  {
    var wd := Or(Or(Or(Shl(ch, 24), Shl(ch, 16)), Shl(ch, 8)), ch);
    var d := 0;
    for i := 0 to len / 32
      invariant d == 8 * i
      invariant forall w | 0 <= w < d :: dest[w] == wd
      invariant forall w | d <= w < dest.Length :: dest[w] == old(dest[w])
    {
      dest[d], dest[d + 1], dest[d + 2], dest[d + 3] := wd, wd, wd, wd;
      dest[d + 4], dest[d + 5], dest[d + 6], dest[d + 7] := wd, wd, wd, wd;
      d := d + 8;
    }
  }

  /** The first row from t on with a pass; `rows` when there is none. */
  function FirstRow(works: Oracle, t: nat, rows: nat, n: nat): (r: nat)
    requires t <= rows
    ensures t <= r <= rows
    ensures forall u: nat | t <= u < r :: NoPass(works, u, n)
    ensures r < rows ==> !NoPass(works, r, n)
    decreases rows - t
  {
    if t == rows || !NoPass(works, t, n) then t else FirstRow(works, t + 1, rows, n)
  }

  /** The inner loop: collects the first run of passes of row t. */
  method CollectRun(works: Oracle, t: nat, memIndex: array<nat>) returns (num: nat)
    modifies memIndex
    ensures num == RunEnd(works, t, memIndex.Length) - RunStart(works, t, memIndex.Length)
    ensures forall i | 0 <= i < num :: memIndex[i] == RunStart(works, t, memIndex.Length) + i
  {
    num := 0;
    ghost var start := RunStart(works, t, memIndex.Length);
    var j := 0;
    while j < memIndex.Length
      invariant 0 <= j <= memIndex.Length && num <= j
      invariant num == 0 ==> j <= start
      invariant num > 0 ==> j == start + num <= RunEnd(works, t, memIndex.Length)
      invariant forall i | 0 <= i < num :: memIndex[i] == start + i
    {
      if !works(DelayAt(t, j)) {
        assert !Pass(works, t, j);
        if num > 0 {
          break;
        }
      } else {
        assert Pass(works, t, j);
        memIndex[num] := j;
        num := num + 1;
      }
      j := j + 1;
    }
  }

  // ---------------------------------------------------------------- the average of a run

  function Sum(first: nat, num: nat): nat {
    if num == 0 then 0 else Sum(first, num - 1) + first + num - 1
  }

  lemma {:induction false} SumOfRun(first: nat, num: nat)
    ensures 2 * Sum(first, num) == num * (2 * first + num - 1)
  {
    if num > 0 {
      SumOfRun(first, num - 1);
      var s := 2 * first + num - 2;
      assert (num - 1) * s == num * s - s;
      assert num * (s + 1) == num * s + num;
    }
  }

  lemma EvenRun(first: nat, half: nat, sum: nat)
    requires half > 0 && 2 * sum == (2 * half) * (2 * first + 2 * half - 1)
    ensures sum / (2 * half) == first + half - 1
  {
    var q := first + half - 1;
    assert (2 * half) * (2 * q + 1) == 2 * (q * (2 * half) + half);
    DivModUnique(sum, 2 * half, q, half);
  }

  lemma OddRun(first: nat, half: nat, sum: nat)
    requires 2 * sum == (2 * half + 1) * (2 * first + 2 * half)
    ensures sum / (2 * half + 1) == first + half
  {
    var q := first + half;
    assert (2 * half + 1) * (2 * q) == 2 * (q * (2 * half + 1));
    DivModUnique(sum, 2 * half + 1, q, 0);
  }

  /** The truncated average of consecutive numbers is the middle of the two ends. */
  lemma AverageIsMidpoint(first: nat, num: nat)
    requires num > 0
    ensures Sum(first, num) / num == (first + (first + num - 1)) / 2
  {
    SumOfRun(first, num);
    var half := num / 2;
    if num == 2 * half {
      EvenRun(first, half, Sum(first, num));
    } else {
      OddRun(first, half, Sum(first, num));
    }
  }

  method AverageIndex(memIndex: array<nat>, ghost first: nat, num: nat) returns (index: nat)
    requires num <= memIndex.Length && forall i | 0 <= i < num :: memIndex[i] == first + i
    ensures index == if num == 0 then 0 else (first + (first + num - 1)) / 2
  {
    index := 0;
    for i := 0 to num
      invariant index == Sum(first, i)
    {
      index := index + memIndex[i];
    }
    if num != 0 {
      AverageIsMidpoint(first, num);
      index := index / num;
    }
  }

  /** The whole search; rows are numbered from 1. Without any pass it goes on with index 0 of the last row. */
  method SearchFirstWindow(works: Oracle, rows: nat, n: nat) returns (tsel: nat, num: nat, index: nat)
    requires rows >= 1
    ensures var t := FirstRow(works, 1, rows, n);
            if t < rows then
              && tsel == t && num == RunEnd(works, t, n) - RunStart(works, t, n) > 0
              && index == (RunStart(works, t, n) + (RunEnd(works, t, n) - 1)) / 2
              && Pass(works, tsel, index)
            else
              tsel == rows - 1 && num == 0 && index == 0
  {
    var memIndex := new nat[n];
    // The length is the number of entries, not of bytes: for 16 entries this clears none.
    JzMemset(memIndex, 0, n);
    tsel, num := 0, 0;
    var i := 1;
    while i < rows
      invariant 1 <= i <= rows && num == 0 && tsel == i - 1
      invariant FirstRow(works, 1, rows, n) == FirstRow(works, i, rows, n)
    {
      tsel := i;
      num := CollectRun(works, tsel, memIndex);
      if num > 0 {
        break;
      }
      i := i + 1;
    }
    index := AverageIndex(memIndex, RunStart(works, tsel, n), num);
  }
}
