/** Finding a read delay that works: windows of passing settings, and their centres. */
module DelaySearch {

  /** One position of the delay selectors. */
  datatype Delay = Delay(tsel: nat, msel: nat, hl: nat, quar: nat)

  /** Position j of the inner loops, for one value of tsel. */
  function DelayAt(tsel: nat, j: nat): (d: Delay)
    ensures d.tsel == tsel && d.hl < 2 && d.quar < 2 && j == 4 * d.msel + 2 * (1 - d.hl) + d.quar
  {
    Delay(tsel, j / 4, if j / 2 % 2 == 1 then 0 else 1, j % 2)
  }

  /** Initialising the controller with a delay and testing the memory through it: any verdict whatever. */
  type Oracle = Delay -> bool

  predicate Pass(works: Oracle, t: nat, j: nat) {
    works(DelayAt(t, j))
  }

  // ---------------------------------------------------------------- the first run of passes in a row

  function FirstPass(works: Oracle, t: nat, j: nat, n: nat): (r: nat)
    requires j <= n
    ensures j <= r <= n
    ensures forall i | j <= i < r :: !Pass(works, t, i)
    ensures r < n ==> Pass(works, t, r)
    decreases n - j
  {
    if j == n || Pass(works, t, j) then j else FirstPass(works, t, j + 1, n)
  }

  function FirstFail(works: Oracle, t: nat, j: nat, n: nat): (r: nat)
    requires j <= n
    ensures j <= r <= n
    ensures forall i | j <= i < r :: Pass(works, t, i)
    ensures r < n ==> !Pass(works, t, r)
    decreases n - j
  {
    if j == n || !Pass(works, t, j) then j else FirstFail(works, t, j + 1, n)
  }

  function RunStart(works: Oracle, t: nat, n: nat): nat {
    FirstPass(works, t, 0, n)
  }

  function RunEnd(works: Oracle, t: nat, n: nat): nat {
    FirstFail(works, t, RunStart(works, t, n), n)
  }

  /** The row has passes, and a fail after the first run of them. */
  predicate Closed(works: Oracle, t: nat, n: nat) {
    RunEnd(works, t, n) < n
  }

  predicate NoPass(works: Oracle, t: nat, n: nat) {
    RunStart(works, t, n) == n
  }

  /** The closed rows among the first `rows`, in order. */
  function ClosedRows(works: Oracle, rows: nat, n: nat): (r: seq<nat>)
    ensures |r| <= rows
    ensures forall e | 0 <= e < |r| :: r[e] < rows && Closed(works, r[e], n)
    ensures forall d, e | 0 <= d < e < |r| :: r[d] < r[e]
    ensures forall t: nat | t < rows && Closed(works, t, n) :: t in r
  {
    if rows == 0 then []
    else ClosedRows(works, rows - 1, n) + if Closed(works, rows - 1, n) then [rows - 1] else []
  }

  /** The search stops after a row without a pass once a closed row was seen. */
  predicate StopsAt(works: Oracle, u: nat, n: nat) {
    ClosedRows(works, u + 1, n) != [] && NoPass(works, u, n)
  }

  function Stops(works: Oracle, n: nat): nat -> bool {
    (u: nat) => StopsAt(works, u, n)
  }

  /** How many rows are visited, from row t on, by a search that stops after the first row at which `stops` says so. */
  function FirstStop(stops: nat -> bool, t: nat, rows: nat): (r: nat)
    requires t <= rows
    ensures t <= r <= rows
    ensures forall u: nat | t <= u && u + 1 < r :: !stops(u)
    ensures r < rows ==> t < r && stops(r - 1)
    decreases rows - t
  {
    if t == rows then t else if stops(t) then t + 1 else FirstStop(stops, t + 1, rows)
  }

  /** How many rows the search visits. */
  function Visited(works: Oracle, t: nat, rows: nat, n: nat): (r: nat)
    requires t <= rows
    ensures t <= r <= rows
  {
    FirstStop(Stops(works, n), t, rows)
  }

  /** Entry e of the tables describes the first run of row t. */
  ghost predicate EntryFor(works: Oracle, t: nat, e: nat, tsels: array<nat>, nums: array<nat>, index: array2<nat>)
    requires tsels.Length == nums.Length == index.Length0 && e < index.Length0
    reads tsels, nums, index
  {
    var n := index.Length1;
    && tsels[e] == t
    && nums[e] == RunEnd(works, t, n) - RunStart(works, t, n) <= n
    && forall i | 0 <= i < nums[e] :: index[e, i] == RunStart(works, t, n) + i
  }

  ghost predicate Recorded(works: Oracle, found: seq<nat>, tsels: array<nat>, nums: array<nat>, index: array2<nat>)
    requires tsels.Length == nums.Length == index.Length0 && |found| <= index.Length0
    reads tsels, nums, index
  {
    forall e | 0 <= e < |found| :: EntryFor(works, found[e], e, tsels, nums, index)
  }

  /** One row: fills entry k of the index table; num is the length of the run, recorded only when it is closed. */
  method SearchRow(works: Oracle, t: nat, k: nat, index: array2<nat>) returns (num: nat, closed: bool)
    requires k < index.Length0
    modifies index
    ensures forall e, i | 0 <= e < index.Length0 && 0 <= i < index.Length1 && e != k :: index[e, i] == old(index[e, i])
    ensures num == RunEnd(works, t, index.Length1) - RunStart(works, t, index.Length1)
    ensures closed <==> Closed(works, t, index.Length1)
    ensures forall i | 0 <= i < num :: index[k, i] == RunStart(works, t, index.Length1) + i
  {
    num := 0;
    closed := false;
    ghost var start := RunStart(works, t, index.Length1);
    var j := 0;
    while j < index.Length1
      invariant 0 <= j <= index.Length1 && !closed
      invariant num == 0 ==> j <= start
      invariant num > 0 ==> j == start + num <= RunEnd(works, t, index.Length1)
      invariant num <= j
      invariant forall i | 0 <= i < num :: index[k, i] == start + i
      invariant forall e, i | 0 <= e < index.Length0 && 0 <= i < index.Length1 && e != k :: index[e, i] == old(index[e, i])
    {
      if !works(DelayAt(t, j)) {
        assert !Pass(works, t, j);
        if num > 0 {
          closed := true;
          break;
        }
      } else {
        assert Pass(works, t, j);
        index[k, num] := j;
        num := num + 1;
      }
      j := j + 1;
    }
  }

  lemma RecordedMore(works: Oracle, found: seq<nat>, t: nat, tsels: array<nat>, nums: array<nat>, index: array2<nat>)
    requires tsels.Length == nums.Length == index.Length0 && |found| < index.Length0
    requires Recorded(works, found, tsels, nums, index) && EntryFor(works, t, |found|, tsels, nums, index)
    ensures Recorded(works, found + [t], tsels, nums, index)
  {
    forall e | 0 <= e < |found + [t]|
      ensures EntryFor(works, (found + [t])[e], e, tsels, nums, index)
    {
      if e < |found| { assert (found + [t])[e] == found[e]; }
    }
  }

  /** One round of the outer loop. */
  method VisitRow(works: Oracle, i: nat, k: nat, tsels: array<nat>, nums: array<nat>, index: array2<nat>)
    returns (num: nat, k': nat)
    requires tsels.Length == nums.Length == index.Length0 && tsels != nums && i < index.Length0
    requires k == |ClosedRows(works, i, index.Length1)|
    requires Recorded(works, ClosedRows(works, i, index.Length1), tsels, nums, index)
    modifies tsels, nums, index
    ensures k' == |ClosedRows(works, i + 1, index.Length1)|
    ensures Recorded(works, ClosedRows(works, i + 1, index.Length1), tsels, nums, index)
    ensures num == 0 <==> NoPass(works, i, index.Length1)
  {
    ghost var found := ClosedRows(works, i, index.Length1);
    var closed;
    num, closed := SearchRow(works, i, k, index);
    k' := k;
    if closed {
      tsels[k] := i;
      nums[k] := num;
      k' := k + 1;
    }
    forall e | 0 <= e < k
      ensures EntryFor(works, found[e], e, tsels, nums, index)
    {
      assert old(EntryFor(works, found[e], e, tsels, nums, index));
    }
    if closed {
      RecordedMore(works, found, i, tsels, nums, index);
    } else {
      assert found + [] == found;
    }
  }

  lemma VisitedStep(works: Oracle, t: nat, rows: nat, n: nat, k: nat, num: nat)
    requires t < rows && k == |ClosedRows(works, t + 1, n)| && (num == 0 <==> NoPass(works, t, n))
    ensures Visited(works, t, rows, n) == if k > 0 && num == 0 then t + 1 else Visited(works, t + 1, rows, n)
  {
    assert StopsAt(works, t, n) <==> k > 0 && num == 0;
  }

  /** The outer loop of the JZ4770 search. */
  method SearchWindows(works: Oracle, tsels: array<nat>, nums: array<nat>, index: array2<nat>) returns (k: nat)
    requires tsels.Length == nums.Length == index.Length0 && tsels != nums
    modifies tsels, nums, index
    ensures var found := ClosedRows(works, Visited(works, 0, index.Length0, index.Length1), index.Length1);
            k == |found| && Recorded(works, found, tsels, nums, index)
  {
    var rows := index.Length0;
    ghost var stop := Visited(works, 0, rows, index.Length1);
    k := 0;
    var i := 0;
    while i < rows
      invariant 0 <= i <= rows
      invariant k == |ClosedRows(works, i, index.Length1)|
      invariant Recorded(works, ClosedRows(works, i, index.Length1), tsels, nums, index)
      invariant stop == Visited(works, i, rows, index.Length1)
    {
      var num;
      num, k := VisitRow(works, i, k, tsels, nums, index);
      VisitedStep(works, i, rows, index.Length1, k, num);
      i := i + 1;
      if k > 0 && num == 0 {
        break;
      }
    }
  }

  // ---------------------------------------------------------------- what the search finds

  /** Somewhere a pass is followed at once by a fail. */
  ghost predicate SomeEdge(works: Oracle, rows: nat, n: nat) {
    exists t: nat, j: nat | t < rows && j + 1 < n :: Pass(works, t, j) && !Pass(works, t, j + 1)
  }

  lemma ClosedHasEdge(works: Oracle, t: nat, n: nat)
    requires Closed(works, t, n)
    ensures 0 < RunEnd(works, t, n) < n
    ensures Pass(works, t, RunEnd(works, t, n) - 1) && !Pass(works, t, RunEnd(works, t, n))
  {
    assert RunStart(works, t, n) < RunEnd(works, t, n);
  }

  lemma EdgeIsClosed(works: Oracle, t: nat, j: nat, n: nat)
    requires j + 1 < n && Pass(works, t, j) && !Pass(works, t, j + 1)
    ensures Closed(works, t, n)
  {
  }

  /** Until a closed row is seen, the search visits every row. */
  lemma {:induction false} VisitsAll(works: Oracle, t: nat, rows: nat, n: nat)
    requires t <= rows && ClosedRows(works, Visited(works, t, rows, n), n) == []
    ensures Visited(works, t, rows, n) == rows
    decreases rows - t
  {
    if t < rows && !(ClosedRows(works, t + 1, n) != [] && NoPass(works, t, n)) {
      VisitsAll(works, t + 1, rows, n);
    }
  }

  lemma EdgeIsFound(works: Oracle, t: nat, j: nat, rows: nat, n: nat)
    requires t < rows && j + 1 < n && Pass(works, t, j) && !Pass(works, t, j + 1)
    ensures t in ClosedRows(works, rows, n)
  {
    EdgeIsClosed(works, t, j, n);
  }

  /** The search comes back empty exactly when no row has a pass followed by a fail. */
  lemma FoundExactly(works: Oracle, rows: nat, n: nat)
    ensures ClosedRows(works, Visited(works, 0, rows, n), n) == [] <==> !SomeEdge(works, rows, n)
  {
    var found := ClosedRows(works, Visited(works, 0, rows, n), n);
    if found == [] {
      VisitsAll(works, 0, rows, n);
      forall t: nat, j: nat | t < rows && j + 1 < n && Pass(works, t, j) && !Pass(works, t, j + 1)
        ensures t in found
      {
        EdgeIsFound(works, t, j, rows, n);
      }
    } else {
      ClosedHasEdge(works, found[0], n);
    }
  }

  function Always(d: Delay): bool {
    true
  }

  /** So a board on which every delay works is turned away. */
  lemma AllPassingIsRejected(rows: nat, n: nat)
    ensures ClosedRows(Always, Visited(Always, 0, rows, n), n) == []
  {
    FoundExactly(Always, rows, n);
  }

  /** The middle of a run passes. */
  lemma MidpointPasses(works: Oracle, t: nat, n: nat)
    requires Closed(works, t, n)
    ensures Midpoint(works, t, n) < n && Pass(works, t, Midpoint(works, t, n))
  {
    var a, b := RunStart(works, t, n), RunEnd(works, t, n) - 1;
    assert a <= (a + b) / 2 <= b;
  }

  /** The setting that the program goes on with, unless it found none and hangs. */
  datatype DelayChoice = NoWindow | Chosen(tsel: nat, j: nat)

  function Midpoint(works: Oracle, t: nat, n: nat): nat
    requires Closed(works, t, n)
  {
    (RunStart(works, t, n) + (RunEnd(works, t, n) - 1)) / 2
  }

  /** The rows that the search records. */
  function Found(works: Oracle, rows: nat, n: nat): (found: seq<nat>)
    ensures forall e | 0 <= e < |found| :: found[e] < rows && Closed(works, found[e], n)
  {
    ClosedRows(works, Visited(works, 0, rows, n), n)
  }

  function MedianOf(works: Oracle, found: seq<nat>, n: nat): DelayChoice
    requires forall e | 0 <= e < |found| :: Closed(works, found[e], n)
  {
    if found == [] then NoWindow
    else Chosen(found[(|found| - 1) / 2], Midpoint(works, found[(|found| - 1) / 2], n))
  }

  /** Whatever the verdicts: the program goes on exactly when some pass is followed by a fail, and then with a
      setting that passed. */
  lemma ChoiceWorks(works: Oracle, rows: nat, n: nat)
    ensures var c := MedianOf(works, Found(works, rows, n), n);
            && (c == NoWindow <==> !SomeEdge(works, rows, n))
            && (c.Chosen? ==> c.tsel < rows && c.j < n && Pass(works, c.tsel, c.j))
  {
    FoundExactly(works, rows, n);
    var found := Found(works, rows, n);
    if found != [] {
      MidpointPasses(works, found[(|found| - 1) / 2], n);
    }
  }

  // ---------------------------------------------------------------- the choice, in terms of the verdicts alone

  /** Delays a to b of row t are its first run of passes, and the delay behind them fails. */
  ghost predicate FirstRun(works: Oracle, t: nat, n: nat, a: nat, b: nat) {
    && a <= b && b + 1 < n
    && (forall i: nat | i < a :: !Pass(works, t, i))
    && (forall i: nat | a <= i <= b :: Pass(works, t, i))
    && !Pass(works, t, b + 1)
  }

  ghost predicate HasRun(works: Oracle, t: nat, n: nat) {
    exists a: nat, b: nat :: FirstRun(works, t, n, a, b)
  }

  ghost predicate Barren(works: Oracle, t: nat, n: nat) {
    forall i: nat | i < n :: !Pass(works, t, i)
  }

  /** Before row t comes a row without a pass, behind a row with a run. */
  ghost predicate CutOff(works: Oracle, t: nat, n: nat) {
    exists u: nat, v: nat :: v < u < t && HasRun(works, v, n) && Barren(works, u, n)
  }

  /** s lists, in order, the rows with a run up to where the search stops. */
  ghost predicate ListsWindows(works: Oracle, rows: nat, n: nat, s: seq<nat>) {
    && (forall d, e | 0 <= d < e < |s| :: s[d] < s[e])
    && (forall t: nat :: t in s <==> t < rows && HasRun(works, t, n) && !CutOff(works, t, n))
  }

  /** The middle of the median row's run; nothing when there is no row. */
  ghost predicate PicksMedian(works: Oracle, n: nat, s: seq<nat>, c: DelayChoice) {
    match c
    case NoWindow => s == []
    case Chosen(tsel, j) =>
      && s != [] && tsel == s[(|s| - 1) / 2]
      && exists a: nat, b: nat :: FirstRun(works, tsel, n, a, b) && j == (a + b) / 2
  }

  lemma ClosedIsRun(works: Oracle, t: nat, n: nat)
    ensures Closed(works, t, n) <==> HasRun(works, t, n)
    ensures Closed(works, t, n) ==> RunStart(works, t, n) < RunEnd(works, t, n) &&
                                    FirstRun(works, t, n, RunStart(works, t, n), RunEnd(works, t, n) - 1)
    ensures NoPass(works, t, n) <==> Barren(works, t, n)
  {
    if a: nat, b: nat :| FirstRun(works, t, n, a, b) {
      assert Pass(works, t, b) && !Pass(works, t, b + 1);
      EdgeIsClosed(works, t, b, n);
    }
    if Closed(works, t, n) {
      ClosedHasEdge(works, t, n);
      assert FirstRun(works, t, n, RunStart(works, t, n), RunEnd(works, t, n) - 1);
    }
  }

  /** The rows that the search records are those. */
  lemma FoundIsListed(works: Oracle, rows: nat, n: nat)
    ensures ListsWindows(works, rows, n, Found(works, rows, n))
  {
    var stop := Visited(works, 0, rows, n);
    forall t: nat
      ensures t in Found(works, rows, n) <==> t < stop && HasRun(works, t, n)
    {
      ClosedIsRun(works, t, n);
    }
    forall t: nat | t < rows
      ensures t < stop <==> !CutOff(works, t, n)
    {
      CutOffBeyond(works, rows, n, t);
    }
  }

  /** The search stops exactly at a row without a pass behind a row with a run. */
  lemma StopsExactly(works: Oracle, u: nat, n: nat)
    ensures StopsAt(works, u, n) <==> Barren(works, u, n) && exists v: nat :: v < u && HasRun(works, v, n)
  {
    ClosedIsRun(works, u, n);
    var seen := ClosedRows(works, u + 1, n);
    if v: nat :| v < u && HasRun(works, v, n) {
      ClosedIsRun(works, v, n);
      assert v in seen;
    }
    if seen != [] && NoPass(works, u, n) {
      ClosedIsRun(works, seen[0], n);
      ClosedHasEdge(works, seen[0], n);
      assert seen[0] < u;
    }
  }

  lemma CutOffIsBeyond(works: Oracle, rows: nat, n: nat, t: nat, u: nat)
    requires u < t < rows && StopsAt(works, u, n)
    ensures Visited(works, 0, rows, n) <= t
  {
    assert Stops(works, n)(u);
  }

  lemma BeyondIsCutOff(works: Oracle, rows: nat, n: nat, t: nat) returns (u: nat)
    requires Visited(works, 0, rows, n) <= t < rows
    ensures u < t && StopsAt(works, u, n)
  {
    u := Visited(works, 0, rows, n) - 1;
    assert Stops(works, n)(u);
  }

  lemma CutOffBeyond(works: Oracle, rows: nat, n: nat, t: nat)
    requires t < rows
    ensures t < Visited(works, 0, rows, n) <==> !CutOff(works, t, n)
  {
    if u: nat, v: nat :| v < u < t && HasRun(works, v, n) && Barren(works, u, n) {
      assert StopsAt(works, u, n) by { StopsExactly(works, u, n); }
      CutOffIsBeyond(works, rows, n, t, u);
    } else if Visited(works, 0, rows, n) <= t {
      var u := BeyondIsCutOff(works, rows, n, t);
      StopsExactly(works, u, n);
    }
  }

  /** Two increasing sequences with the same elements are equal. */
  lemma {:induction false} SameListing(s: seq<nat>, r: seq<nat>)
    requires forall d, e | 0 <= d < e < |s| :: s[d] < s[e]
    requires forall d, e | 0 <= d < e < |r| :: r[d] < r[e]
    requires forall t: nat :: t in s <==> t in r
    ensures s == r
  {
    assert s == [] <==> r == [] by {
      if s != [] { assert s[0] in r; }
      if r != [] { assert r[0] in s; }
    }
    if s != [] {
      var m, k := |s| - 1, |r| - 1;
      assert s[m] in r;
      assert r[k] in s;
      assert s[m] == r[k];
      forall t: nat
        ensures t in s[..m] <==> t in r[..k]
      {
        assert t in s[..m] <==> t in s && t != s[m];
        assert t in r[..k] <==> t in r && t != r[k];
      }
      SameListing(s[..m], r[..k]);
      assert s == s[..m] + [s[m]] && r == r[..k] + [r[k]];
    }
  }

  /** For every oracle the choice is the middle of the median of the listed rows. */
  lemma ChoosesMedian(works: Oracle, rows: nat, n: nat, s: seq<nat>)
    requires ListsWindows(works, rows, n, s)
    ensures PicksMedian(works, n, s, MedianOf(works, Found(works, rows, n), n))
  {
    var found := Found(works, rows, n);
    assert s == found by {
      FoundIsListed(works, rows, n);
      SameListing(s, found);
    }
    MedianPicked(works, n, found);
  }

  lemma MedianPicked(works: Oracle, n: nat, found: seq<nat>)
    requires forall e | 0 <= e < |found| :: Closed(works, found[e], n)
    ensures PicksMedian(works, n, found, MedianOf(works, found, n))
  {
    if found != [] {
      MidpointOfRun(works, found[(|found| - 1) / 2], n);
    }
  }

  lemma MidpointOfRun(works: Oracle, t: nat, n: nat)
    requires Closed(works, t, n)
    ensures exists a: nat, b: nat :: FirstRun(works, t, n, a, b) && Midpoint(works, t, n) == (a + b) / 2
  {
    ClosedIsRun(works, t, n);
  }

  // ---------------------------------------------------------------- reading the tables

  method ReadEntry(works: Oracle, ghost t: nat, e: nat, tsels: array<nat>, nums: array<nat>, index: array2<nat>)
    returns (c: DelayChoice)
    requires tsels.Length == nums.Length == index.Length0 && e < index.Length0 && Closed(works, t, index.Length1)
    requires EntryFor(works, t, e, tsels, nums, index)
    ensures c == Chosen(t, Midpoint(works, t, index.Length1))
  {
    ClosedHasEdge(works, t, index.Length1);
    var tsel, num := tsels[e], nums[e];
    c := Chosen(tsel, (index[e, 0] + index[e, num - 1]) / 2);
  }

  method ReadMedian(works: Oracle, ghost found: seq<nat>, k: nat, tsels: array<nat>, nums: array<nat>,
                    index: array2<nat>)
    returns (c: DelayChoice)
    requires tsels.Length == nums.Length == index.Length0 && k == |found| <= index.Length0
    requires forall e | 0 <= e < |found| :: Closed(works, found[e], index.Length1)
    requires Recorded(works, found, tsels, nums, index)
    ensures c == MedianOf(works, found, index.Length1)
  {
    if k == 0 {
      return NoWindow;
    }
    assert EntryFor(works, found[(k - 1) / 2], (k - 1) / 2, tsels, nums, index);
    c := ReadEntry(works, found[(k - 1) / 2], (k - 1) / 2, tsels, nums, index);
  }

  method ChooseDelay(works: Oracle, rows: nat, n: nat) returns (c: DelayChoice)
    ensures c == MedianOf(works, Found(works, rows, n), n)
    ensures ListsWindows(works, rows, n, Found(works, rows, n))
    ensures forall s: seq<nat> | ListsWindows(works, rows, n, s) :: PicksMedian(works, n, s, c)
  {
    var tsels := new nat[rows];
    var nums := new nat[rows];
    var index := new nat[rows, n];
    var k := SearchWindows(works, tsels, nums, index);
    c := ReadMedian(works, Found(works, rows, n), k, tsels, nums, index);
    FoundIsListed(works, rows, n);
    forall s: seq<nat> | ListsWindows(works, rows, n, s)
      ensures PicksMedian(works, n, s, c)
    {
      ChoosesMedian(works, rows, n, s);
    }
  }
}
