/** The bounded line diff: a forward search over a sliding array of diagonals that saves each round's
    band, and a walk back through the saved bands that collects the edit script. */
module LineDiff {
  import opened Wrappers
  import opened EditGraph
  import opened GreedySearch

  const MAX_LINES: nat := 20_000
  const MAX_EDIT_DISTANCE: nat := 1_000
  const MAX_STEPS_PER_FILE: nat := 20_000_000
  const MAX_STEPS_PER_CAPTURE: nat := 200_000_000
  const MAX_INPUT_BYTES_PER_CAPTURE: nat := 64 * 1024 * 1024

  /** What one capture may still spend across all its files. */
  class RenderBudget {
    var stepsLeft: nat
    var inputBytesLeft: nat

    constructor PerCapture()
      ensures stepsLeft == MAX_STEPS_PER_CAPTURE && inputBytesLeft == MAX_INPUT_BYTES_PER_CAPTURE
    {
      stepsLeft, inputBytesLeft := MAX_STEPS_PER_CAPTURE, MAX_INPUT_BYTES_PER_CAPTURE;
    }
  }

  function SaturatingSub(x: nat, y: nat): nat {
    if x < y then 0 else x - y
  }

  /** The values of the diagonals `lo, lo + 1, ..` saved before a round. */
  datatype Band = Band(lo: int, vals: seq<int>) {
    function Get(k: int): int
      requires lo <= k < lo + |vals|
    {
      vals[k - lo]
    }
  }

  /** `vals`, which keeps diagonal `k` at index `k + offset`, holds how far round `d` reaches on its
      `j`-th diagonal. */
  ghost predicate HoldsAt<T>(a: seq<T>, b: seq<T>, vals: seq<int>, offset: int, d: int, j: int) {
    && 0 <= j <= d && 0 <= Diagonal(d, j) + offset < |vals|
    && vals[Diagonal(d, j) + offset] == Far(a, b, d, j)
  }

  /** It does so for the first `limit` diagonals of round `d`. */
  ghost predicate Holds<T>(a: seq<T>, b: seq<T>, vals: seq<int>, offset: int, d: int, limit: int) {
    forall j {:trigger HoldsAt(a, b, vals, offset, d, j)} :: 0 <= j < limit ==> HoldsAt(a, b, vals, offset, d, j)
  }

  /** The band saved before round `d`: the round before it, or the starting zeros. */
  ghost predicate Saved<T>(a: seq<T>, b: seq<T>, band: Band, d: int) {
    && band.lo == -(d + 1) && |band.vals| == 2 * d + 3
    && (d == 0 ==> band.Get(1) == 0)
    && Holds(a, b, band.vals, d + 1, d - 1, d)
  }

  /** The bands saved before the rounds `0, 1, .., |trace| - 1`. */
  ghost predicate SavedTrace<T>(a: seq<T>, b: seq<T>, trace: seq<Band>) {
    trace != [] ==>
      SavedTrace(a, b, trace[..|trace| - 1]) && Saved(a, b, trace[|trace| - 1], |trace| - 1)
  }

  /** Entries kept in the saved bands. */
  function Entries(trace: seq<Band>): nat {
    if trace == [] then 0 else Entries(trace[..|trace| - 1]) + |trace[|trace| - 1].vals|
  }

  lemma {:induction false} EntriesOfTrace<T>(a: seq<T>, b: seq<T>, trace: seq<Band>)
    requires SavedTrace(a, b, trace)
    ensures Entries(trace) == |trace| * (|trace| + 2)
    decreases |trace|
  {
    if trace != [] {
      var n := |trace| - 1;
      EntriesOfTrace(a, b, trace[..n]);
      assert Saved(a, b, trace[n], n);
      assert |trace| * (|trace| + 2) == n * (n + 2) + 2 * n + 3;
    }
  }

  datatype Search =
    | Cancelled
    | OverCap(steps: nat)
    | Exhausted(steps: nat)
    | Found(steps: nat, trace: seq<Band>)

  /** The last round the search may run. */
  function LastRound(n: nat, m: nat): (d: nat)
    ensures d <= n + m && d <= MAX_EDIT_DISTANCE
  {
    Min(n + m, MAX_EDIT_DISTANCE)
  }

  /** The rounds before `d` find the cancellation flag clear. */
  ghost predicate Uncancelled(cancel: nat -> bool, d: int) {
    forall e: nat :: e < d ==> !cancel(e)
  }

  lemma UncancelledRound(cancel: nat -> bool, d: nat)
    requires Uncancelled(cancel, d) && !cancel(d)
    ensures Uncancelled(cancel, d + 1)
  {
  }

  /** The band before round `d` decides where the round enters each diagonal. */
  lemma EntryFromBand<T>(a: seq<T>, b: seq<T>, vals: seq<int>, offset: int, d: int, i: int)
    requires 0 <= i <= d < offset && d + 1 + offset < |vals|
    requires d == 0 ==> vals[1 + offset] == 0
    requires Holds(a, b, vals, offset, d - 1, d)
    ensures
      var k := Diagonal(d, i);
      Entry(a, b, d, i) ==
        if k == -d || (k != d && vals[k - 1 + offset] < vals[k + 1 + offset]) then vals[k + 1 + offset]
        else vals[k - 1 + offset] + 1
  {
    hide Far;
    assert i != 0 ==> HoldsAt(a, b, vals, offset, d - 1, i - 1);
    assert i != d ==> HoldsAt(a, b, vals, offset, d - 1, i);
  }

  /** Storing a diagonal's value keeps the round before intact: the two use different diagonals. */
  lemma StoreFar<T>(a: seq<T>, b: seq<T>, vals: seq<int>, offset: int, d: int, i: int)
    requires 0 <= i <= d && 0 <= Diagonal(d, i) + offset < |vals|
    requires Holds(a, b, vals, offset, d - 1, d) && Holds(a, b, vals, offset, d, i)
    ensures Holds(a, b, vals[Diagonal(d, i) + offset := Far(a, b, d, i)], offset, d - 1, d)
    ensures Holds(a, b, vals[Diagonal(d, i) + offset := Far(a, b, d, i)], offset, d, i + 1)
  {
    hide Far;
    var vals', e := vals[Diagonal(d, i) + offset := Far(a, b, d, i)], d - 1;
    forall j {:trigger HoldsAt(a, b, vals', offset, e, j)} | 0 <= j < d
      ensures HoldsAt(a, b, vals', offset, e, j)
    {
      assert HoldsAt(a, b, vals, offset, e, j);
    }
    forall j {:trigger HoldsAt(a, b, vals', offset, d, j)} | 0 <= j < i + 1
      ensures HoldsAt(a, b, vals', offset, d, j)
    {
      assert j == i || HoldsAt(a, b, vals, offset, d, j);
    }
  }

  lemma SavedBand<T>(a: seq<T>, b: seq<T>, vals: seq<int>, offset: int, d: int)
    requires 0 <= d < offset && |vals| == 2 * offset + 1
    requires d == 0 ==> vals[offset + 1] == 0
    requires Holds(a, b, vals, offset, d - 1, d)
    ensures Saved(a, b, Band(-(d + 1), vals[offset - (d + 1)..offset + d + 2]), d)
  {
    hide Far;
    var band, e := Band(-(d + 1), vals[offset - (d + 1)..offset + d + 2]), d - 1;
    forall j {:trigger HoldsAt(a, b, band.vals, d + 1, e, j)} | 0 <= j < d
      ensures HoldsAt(a, b, band.vals, d + 1, e, j)
    {
      assert HoldsAt(a, b, vals, offset, e, j);
    }
  }

  lemma SaveBand<T>(a: seq<T>, b: seq<T>, trace: seq<Band>, band: Band)
    requires SavedTrace(a, b, trace) && Saved(a, b, band, |trace|)
    ensures SavedTrace(a, b, trace + [band])
  {
    hide Saved;
    assert (trace + [band])[..|trace|] == trace;
  }

  /** None of the first `i` diagonals of round `d` ends the search. */
  ghost predicate NoneAtEnd<T>(a: seq<T>, b: seq<T>, d: int, i: int) {
    forall j {:trigger AtEnd(a, b, d, j)} :: 0 <= j <= d && j < i ==> !AtEnd(a, b, d, j)
  }

  /** The search is about to visit diagonal `i` of round `d`: nothing before it was the end. */
  ghost predicate Searching<T>(a: seq<T>, b: seq<T>, d: int, i: int) {
    0 <= d <= EditDistance(a, b) && 0 <= i <= d + 1 && NoneAtEnd(a, b, d, i)
  }

  lemma CornerAhead<T>(a: seq<T>, b: seq<T>, d: int, i: int)
    requires Searching(a, b, d, i)
    ensures d == EditDistance(a, b) ==> i <= CornerIndex(a, b) <= d
  {
    hide AtEnd, EditDistance, CornerIndex;
    if d == EditDistance(a, b) {
      CornerInRound(a, b);
      StopsAtCorner(a, b, d, CornerIndex(a, b));
    }
  }

  lemma StepsUpToCorner<T>(a: seq<T>, b: seq<T>, d: int, i: int)
    requires Searching(a, b, d, i) && i <= d
    ensures Steps(a, b, d, i + 1) <= SearchSteps(a, b)
  {
    hide Steps, AtEnd, EditDistance, CornerIndex;
    CornerInRound(a, b);
    CornerAhead(a, b, d, i);
    StepsGrow(a, b, d, i + 1, EditDistance(a, b), CornerIndex(a, b) + 1);
  }

  lemma EndIsCorner<T>(a: seq<T>, b: seq<T>, d: int, i: int)
    requires Searching(a, b, d, i) && i <= d && AtEnd(a, b, d, i)
    ensures d == EditDistance(a, b) && Steps(a, b, d, i + 1) == SearchSteps(a, b)
  {
    hide AtEnd, EditDistance, CornerIndex, Steps;
    StopsAtCorner(a, b, d, i);
  }

  /** A round without end leaves the edit distance ahead. */
  lemma RoundWithoutEnd<T>(a: seq<T>, b: seq<T>, d: int)
    requires Searching(a, b, d, d + 1)
    ensures Searching(a, b, d + 1, 0)
  {
    hide AtEnd, EditDistance, CornerIndex;
    CornerAhead(a, b, d, d + 1);
  }

  /** Follow matching lines. */
  method SlideDown<T(==)>(a: seq<T>, b: seq<T>, x0: nat, y0: nat) returns (x: nat, slid: nat)
    ensures x == SlideEnd(a, b, x0, y0) && slid == x - x0
    ensures slid <= |a|
  {
    x, slid := x0, 0;
    var y := y0;
    while x < |a| && y < |b| && a[x] == b[y]
      invariant x0 <= x && slid == x - x0 == y - y0
      invariant SlideEnd(a, b, x0, y0) == SlideEnd(a, b, x, y)
      invariant slid > 0 ==> x <= |a|
    {
      x, y, slid := x + 1, y + 1, slid + 1;
    }
  }

  /** Visit diagonal `k`, the `i`-th of round `d`: enter it from the band and slide. */
  method Visit<T(==)>(a: seq<T>, b: seq<T>, v: array<int>, offset: int, d: int, k: int, ghost i: int)
    returns (x: nat, slid: nat)
    requires 0 <= i <= d < offset && k == Diagonal(d, i) && v.Length == 2 * offset + 1
    requires d == 0 ==> v[offset + 1] == 0
    requires Holds(a, b, v[..], offset, d - 1, d)
    ensures x == Far(a, b, d, i) && k <= x && slid == Slid(a, b, d, i) <= |a|
  {
    hide Far, Entry, Holds;
    EntryFromBand(a, b, v[..], offset, d, i);
    EntryInQuadrant(a, b, d, i);
    FarFromEntry(a, b, d, i);
    if k == -d || (k != d && v[k - 1 + offset] < v[k + 1 + offset]) {
      x := v[k + 1 + offset];
    } else {
      x := v[k - 1 + offset] + 1;
    }
    x, slid := SlideDown(a, b, x, x - k);
  }

  /** The outcome of one round. */
  datatype Progress = Stopped | AtCorner | Continue

  /** One round of the forward pass over the diagonals `-d, -d + 2, .., d`. */
  method Round<T(==)>(a: seq<T>, b: seq<T>, v: array<int>, offset: int, d: int, stepCap: nat, steps0: nat)
    returns (r: Progress, steps: nat, ghost i: int)
    requires 0 <= d < offset && v.Length == 2 * offset + 1
    requires d == 0 ==> v[offset + 1] == 0
    requires Holds(a, b, v[..], offset, d - 1, d)
    requires steps0 == Steps(a, b, d, 0) <= stepCap
    modifies v
    ensures 0 <= i <= d + 1 && NoneAtEnd(a, b, d, i)
    ensures !r.Continue? ==> i <= d && steps == Steps(a, b, d, i + 1)
    ensures r.Stopped? ==> Steps(a, b, d, i) <= stepCap < steps <= stepCap + |a| + 1
    ensures r.AtCorner? ==> steps <= stepCap && AtEnd(a, b, d, i)
    ensures r.Continue? ==> i == d + 1 && steps == Steps(a, b, d, i) <= stepCap
    ensures r.Continue? ==> Holds(a, b, v[..], offset, d, d + 1)
  {
    hide Steps, Holds, Slid, Far;
    var n, m := |a|, |b|;
    steps := steps0;
    var k := -d;
    i := 0;
    ghost var vals := v[..];
    HoldsNone(a, b, vals, offset, d);
    while k <= d
      invariant 0 <= i <= d + 1 && k == Diagonal(d, i)
      invariant v[..] == vals
      invariant d == 0 && i == 0 ==> vals[offset + 1] == 0
      invariant Holds(a, b, vals, offset, d - 1, d)
      invariant Holds(a, b, vals, offset, d, i)
      invariant NoneAtEnd(a, b, d, i)
      invariant steps == Steps(a, b, d, i) <= stepCap
      decreases d - k
    {
      StepsOneMore(a, b, d, i);
      var x, slid := Visit(a, b, v, offset, d, k, i);
      steps := steps + slid + 1;
      if steps > stepCap {
        return Stopped, steps, i;
      }
      StoreFar(a, b, vals, offset, d, i);
      v[k + offset] := x;
      vals := vals[k + offset := x];
      if x >= n && x - k >= m {
        return AtCorner, steps, i;
      }
      k, i := k + 2, i + 1;
    }
    return Continue, steps, i;
  }

  lemma HoldsNone<T>(a: seq<T>, b: seq<T>, vals: seq<int>, offset: int, d: int)
    ensures Holds(a, b, vals, offset, d, 0)
  {
  }

  /** Save the live part of the band before round `d`. */
  method Save<T(==)>(a: seq<T>, b: seq<T>, v: array<int>, offset: int, d: int, trace: seq<Band>)
    returns (trace': seq<Band>)
    requires 0 <= d < offset && v.Length == 2 * offset + 1
    requires d == 0 ==> v[offset + 1] == 0
    requires Holds(a, b, v[..], offset, d - 1, d)
    requires |trace| == d && SavedTrace(a, b, trace)
    ensures |trace'| == d + 1 && SavedTrace(a, b, trace')
  {
    hide Holds, SavedTrace;
    SavedBand(a, b, v[..], offset, d);
    var band := Band(-(d + 1), v[offset - (d + 1)..offset + d + 2]);
    assert v[..][offset - (d + 1)..offset + d + 2] == v[offset - (d + 1)..offset + d + 2];
    SaveBand(a, b, trace, band);
    trace' := trace + [band];
  }

  lemma SearchStarts<T>(a: seq<T>, b: seq<T>, vals: seq<int>, offset: int, cancel: nat -> bool)
    ensures Searching(a, b, 0, 0) && Steps(a, b, 0, 0) == 0
    ensures Holds(a, b, vals, offset, -1, 0) && SavedTrace(a, b, []) && Uncancelled(cancel, 0)
  {
    hide EditDistance;
    CornerInRound(a, b);
  }

  lemma CancelledRound<T>(a: seq<T>, b: seq<T>, cancel: nat -> bool, d: nat)
    requires Searching(a, b, d, 0) && cancel(d)
    ensures !Uncancelled(cancel, EditDistance(a, b) + 1)
  {
    hide EditDistance;
  }

  /** Where a round leaves the search. */
  lemma RoundEnds<T>(a: seq<T>, b: seq<T>, d: int, i: int)
    requires Searching(a, b, d, 0) && 0 <= i <= d + 1 && NoneAtEnd(a, b, d, i)
    ensures i <= d ==> Steps(a, b, d, i + 1) <= SearchSteps(a, b)
    ensures i <= d && AtEnd(a, b, d, i) ==> d == EditDistance(a, b) && Steps(a, b, d, i + 1) == SearchSteps(a, b)
    ensures i == d + 1 ==> Searching(a, b, d + 1, 0) && Steps(a, b, d + 1, 0) == Steps(a, b, d, i)
  {
    hide EditDistance, NoneAtEnd, AtEnd, Steps, SearchSteps;
    assert Searching(a, b, d, i);
    hide Searching;
    if i == d + 1 {
      RoundWithoutEnd(a, b, d);
      StepsOfRound(a, b, d);
    } else {
      StepsUpToCorner(a, b, d, i);
      if AtEnd(a, b, d, i) {
        EndIsCorner(a, b, d, i);
      }
    }
  }

  lemma SearchOver<T>(a: seq<T>, b: seq<T>)
    requires Searching(a, b, LastRound(|a|, |b|) + 1, 0)
    ensures EditDistance(a, b) > MAX_EDIT_DISTANCE == LastRound(|a|, |b|)
  {
    hide EditDistance, NoneAtEnd;
    CornerInRound(a, b);
  }

  /** Round `d` is the first to find the cancellation flag set, and the rounds before it were within
      the step cap. */
  ghost predicate CancelledAt<T>(a: seq<T>, b: seq<T>, stepCap: nat, cancel: nat -> bool, d: int) {
    0 <= d <= LastRound(|a|, |b|) && cancel(d) && Uncancelled(cancel, d) && Steps(a, b, d, 0) <= stepCap
  }

  /** The `i`-th diagonal of round `d` is the one whose steps pass the cap. */
  ghost predicate OverCapAt<T>(a: seq<T>, b: seq<T>, stepCap: nat, cancel: nat -> bool, d: int, i: int) {
    0 <= i <= d <= LastRound(|a|, |b|) && Uncancelled(cancel, d + 1) && Steps(a, b, d, i) <= stepCap < Steps(a, b, d, i + 1)
  }

  lemma IsCancelledAt<T>(a: seq<T>, b: seq<T>, stepCap: nat, cancel: nat -> bool, d: int)
    requires 0 <= d <= LastRound(|a|, |b|) && cancel(d) && Uncancelled(cancel, d) && Steps(a, b, d, 0) <= stepCap
    ensures CancelledAt(a, b, stepCap, cancel, d)
  {
  }

  lemma IsOverCapAt<T>(a: seq<T>, b: seq<T>, stepCap: nat, cancel: nat -> bool, d: int, i: int)
    requires 0 <= i <= d <= LastRound(|a|, |b|) && Uncancelled(cancel, d + 1)
    requires Steps(a, b, d, i) <= stepCap < Steps(a, b, d, i + 1)
    ensures OverCapAt(a, b, stepCap, cancel, d, i)
  {
  }

  /** The forward pass. `cancel(d)` is what round `d` reads from the cancellation flag. */
  method Forward<T(==)>(a: seq<T>, b: seq<T>, stepCap: nat, cancel: nat -> bool)
    returns (r: Search, ghost last: int, ghost i: int)
    requires |a| <= MAX_LINES && |b| <= MAX_LINES
    ensures r.Found? ==>
      && EditDistance(a, b) <= MAX_EDIT_DISTANCE && Uncancelled(cancel, EditDistance(a, b) + 1)
      && r.steps == SearchSteps(a, b) <= stepCap
      && |r.trace| == EditDistance(a, b) + 1 && SavedTrace(a, b, r.trace)
    ensures r.Cancelled? ==> !Uncancelled(cancel, EditDistance(a, b) + 1) && CancelledAt(a, b, stepCap, cancel, last)
    ensures r.OverCap? ==>
      && stepCap < r.steps <= stepCap + MAX_LINES + 1 && r.steps <= SearchSteps(a, b)
      && OverCapAt(a, b, stepCap, cancel, last, i) && r.steps == Steps(a, b, last, i + 1)
    ensures r.Exhausted? ==>
      && EditDistance(a, b) > MAX_EDIT_DISTANCE && Uncancelled(cancel, MAX_EDIT_DISTANCE + 1)
      && r.steps == Steps(a, b, MAX_EDIT_DISTANCE + 1, 0) <= stepCap
  {
    hide *;
    var maxD := LastRound(|a|, |b|);
    var offset: int := maxD + 1;
    var v := new int[2 * offset + 1](_ => 0);
    var trace: seq<Band> := [];
    var steps := 0;
    var d: int := 0;
    last, i := 0, 0;
    SearchStarts(a, b, v[..], offset, cancel);
    while d <= maxD
      invariant 0 <= d <= maxD + 1 && Searching(a, b, d, 0)
      invariant d == 0 ==> v[offset + 1] == 0
      invariant Holds(a, b, v[..], offset, d - 1, d)
      invariant |trace| == d && SavedTrace(a, b, trace)
      invariant steps == Steps(a, b, d, 0) <= stepCap
      invariant Uncancelled(cancel, d)
    {
      if cancel(d) {
        CancelledRound(a, b, cancel, d);
        IsCancelledAt(a, b, stepCap, cancel, d);
        return Cancelled, d, i;
      }
      UncancelledRound(cancel, d);
      trace := Save(a, b, v, offset, d, trace);
      var progress;
      progress, steps, i := Round(a, b, v, offset, d, stepCap, steps);
      RoundEnds(a, b, d, i);
      if progress.Stopped? {
        IsOverCapAt(a, b, stepCap, cancel, d, i);
        return OverCap(steps), d, i;
      } else if progress.AtCorner? {
        return Found(steps, trace), d, i;
      }
      d := d + 1;
    }
    SearchOver(a, b);
    return Exhausted(steps), d, i;
  }

  function Reversed<T>(s: seq<T>): seq<T> {
    if s == [] then [] else [s[|s| - 1]] + Reversed(s[..|s| - 1])
  }

  /** The operations pushed so far, read backwards, are the canonical script after `(x, y)`. */
  ghost predicate Suffix<T>(ops: seq<Op>, a: seq<T>, b: seq<T>, x: int, y: int) {
    && 0 <= x <= |a| && 0 <= y <= |b|
    && Canonical(a, b, x, y) + Reversed(ops) == Canonical(a, b, |a|, |b|)
  }

  lemma PushOp<T>(ops: seq<Op>, op: Op, a: seq<T>, b: seq<T>, x: nat, y: nat, x': nat, y': nat)
    requires Suffix(ops, a, b, x, y) && x' <= |a| && y' <= |b|
    requires Canonical(a, b, x, y) == Canonical(a, b, x', y') + [op]
    ensures Suffix(ops + [op], a, b, x', y')
  {
    hide Canonical;
    assert (ops + [op])[..|ops|] == ops;
    assert Canonical(a, b, x', y') + ([op] + Reversed(ops)) == Canonical(a, b, x', y') + [op] + Reversed(ops);
  }

  /** Which neighbour the saved band names, and what it holds there. */
  lemma BackFromBand<T>(a: seq<T>, b: seq<T>, band: Band, d: int, i: int)
    requires 0 <= i <= d && Saved(a, b, band, d)
    ensures
      var k := Diagonal(d, i);
      if k == -d || (k != d && band.Get(k - 1) < band.Get(k + 1)) then
        && band.Get(k + 1) == Entry(a, b, d, i)
        && (d > 0 ==> i < d && band.Get(k + 1) == Far(a, b, d - 1, i))
      else
        && band.Get(k - 1) == Entry(a, b, d, i) - 1
        && 0 < i && band.Get(k - 1) == Far(a, b, d - 1, i - 1)
        && (i < d ==> Far(a, b, d - 1, i) <= band.Get(k - 1))
  {
    hide Far;
    EntryFromBand(a, b, band.vals, d + 1, d, i);
    assert i != 0 ==> HoldsAt(a, b, band.vals, d + 1, d - 1, i - 1);
    assert i != d ==> HoldsAt(a, b, band.vals, d + 1, d - 1, i);
  }

  /** The point `(prevX, prevX - prevK)` from which round `d` stepped onto its `i`-th diagonal: by a
      deletion only if the diagonal above reached less far. */
  ghost predicate CameFrom<T>(a: seq<T>, b: seq<T>, d: int, i: int, prevX: int, prevK: int) {
    var k := Diagonal(d, i);
    var j := if prevK == k + 1 then i else i - 1;
    && 0 <= i <= d && prevX == Entry(a, b, d, i) - (if prevK == k + 1 then 0 else 1)
    && (prevK == k + 1 || (prevK == k - 1 && d > 0))
    && (d > 0 ==> 0 <= j < d && 0 <= prevX == Far(a, b, d - 1, j) && prevK <= prevX)
    && (prevK == k - 1 && i < d ==> Far(a, b, d - 1, i) < Entry(a, b, d, i))
  }

  lemma BackStep<T>(a: seq<T>, b: seq<T>, band: Band, d: int, i: int, prevX: int, prevK: int)
    requires 0 <= i <= d && Saved(a, b, band, d)
    requires
      var k := Diagonal(d, i);
      prevK == (if k == -d || (k != d && band.Get(k - 1) < band.Get(k + 1)) then k + 1 else k - 1)
      && prevX == band.Get(prevK)
    ensures CameFrom(a, b, d, i, prevX, prevK)
  {
    hide Far, Entry, Holds, Saved;
    BackFromBand(a, b, band, d, i);
    if d > 0 {
      var j := if prevK == Diagonal(d, i) + 1 then i else i - 1;
      FarInQuadrant(a, b, d - 1, j);
    }
  }

  lemma FarInQuadrant<T>(a: seq<T>, b: seq<T>, d: int, i: int)
    requires 0 <= i <= d
    ensures 0 <= Far(a, b, d, i) && Diagonal(d, i) <= Far(a, b, d, i)
  {
    hide Far, Dist;
    FarIsFurthest(a, b, d, i);
  }

  /** The search is at `(x, y)`, somewhere on the slide of the `i`-th diagonal of round `d`. */
  ghost predicate OnSlide<T>(a: seq<T>, b: seq<T>, d: int, i: int, x: int, y: int) {
    && 0 <= i <= d && x - y == Diagonal(d, i) && 0 <= x <= |a| && 0 <= y <= |b|
    && Entry(a, b, d, i) <= x <= Far(a, b, d, i) && Dist(a, b, x, y) == d
  }

  lemma BackAlongSlide<T>(a: seq<T>, b: seq<T>, d: int, i: int, x: int, y: int)
    requires OnSlide(a, b, d, i, x, y)
    ensures Entry(a, b, d, i) < x ==>
      0 < x && 0 < y && Matches(a, b, x - 1, y - 1) && OnSlide(a, b, d, i, x - 1, y - 1)
  {
    hide Far, Entry, SlideEnd, Dist;
    FarFromEntry(a, b, d, i);
    EntryInQuadrant(a, b, d, i);
    if Entry(a, b, d, i) < x {
      SlideMatches(a, b, Entry(a, b, d, i), Entry(a, b, d, i) - Diagonal(d, i), x - 1);
      DistDiagonal(a, b, x - 1, y - 1);
    }
  }

  /** Beyond where the round before left the neighbouring diagonals, their points are farther than `d - 1`. */
  lemma AboveIsFarther<T>(a: seq<T>, b: seq<T>, d: int, i: int, x: nat, y: int)
    requires 0 <= i <= d && x - y == Diagonal(d, i) && 0 < y
    requires 0 < d && i < d ==> Far(a, b, d - 1, i) < x
    ensures Dist(a, b, x, y - 1) >= d
  {
    hide Far, Dist, Furthest;
    DistBounds(a, b, x, y - 1);
    if 0 < d && i < d {
      FarIsFurthest(a, b, d - 1, i);
      FurthestIsMaximal(a, b, d - 1, Diagonal(d - 1, i), Far(a, b, d - 1, i), x);
    }
  }

  lemma BelowIsFarther<T>(a: seq<T>, b: seq<T>, d: int, i: int, x: int, y: nat)
    requires 0 <= i <= d && x - y == Diagonal(d, i) && 0 < x
    requires 0 < d && 0 < i ==> Far(a, b, d - 1, i - 1) < x - 1
    ensures Dist(a, b, x - 1, y) >= d
  {
    hide Far, Dist, Furthest;
    DistBounds(a, b, x - 1, y);
    if 0 < d && 0 < i {
      FarIsFurthest(a, b, d - 1, i - 1);
      FurthestIsMaximal(a, b, d - 1, Diagonal(d - 1, i - 1), Far(a, b, d - 1, i - 1), x - 1);
    }
  }

  /** A diagonal is entered no nearer than either neighbour was left. */
  lemma EntryBeyond<T>(a: seq<T>, b: seq<T>, d: int, i: int)
    requires 0 <= i <= d && 0 < d
    ensures 0 < i ==> Far(a, b, d - 1, i - 1) < Entry(a, b, d, i)
    ensures i < d ==> Far(a, b, d - 1, i) <= Entry(a, b, d, i)
  {
    hide Row, Far, Furthest;
    if i != 0 {
      FarIsFurthest(a, b, d - 1, i - 1);
    }
    if i != d {
      FarIsFurthest(a, b, d - 1, i);
    }
  }

  /** On a slide no edit comes last. */
  lemma SlideIsCanonical<T>(a: seq<T>, b: seq<T>, d: int, i: int, x: int, y: int)
    requires OnSlide(a, b, d, i, x, y) && Entry(a, b, d, i) < x && 0 < x && 0 < y
    ensures Canonical(a, b, x, y) == Canonical(a, b, x - 1, y - 1) + [Equal(x - 1, y - 1)]
  {
    hide Far, Entry, Dist;
    if d > 0 {
      EntryBeyond(a, b, d, i);
    }
    AboveIsFarther(a, b, d, i, x, y);
    BelowIsFarther(a, b, d, i, x, y);
  }

  /** Back along the slide of round `d`, one equal line at a time. */
  method UndoSlide<T(==)>(a: seq<T>, b: seq<T>, x0: int, y0: int, prevX: int, prevK: int, ops0: seq<Op>,
      ghost d: int, ghost i: int)
    returns (x: int, y: int, ops: seq<Op>)
    requires CameFrom(a, b, d, i, prevX, prevK)
    requires OnSlide(a, b, d, i, x0, y0) && Suffix(ops0, a, b, x0, y0)
    ensures OnSlide(a, b, d, i, x, y) && Suffix(ops, a, b, x, y)
    ensures x == Entry(a, b, d, i)
  {
    hide *;
    x, y, ops := x0, y0, ops0;
    var prevY := prevX - prevK;
    SlideTest(a, b, d, i, x, y, prevX, prevK);
    while x > prevX && y > prevY
      invariant OnSlide(a, b, d, i, x, y) && Suffix(ops, a, b, x, y)
      invariant 0 <= i <= d && Entry(a, b, d, i) <= x <= |a| && y <= |b|
      invariant (x > prevX && y > prevY) <==> Entry(a, b, d, i) < x
      decreases x
    {
      BackAlongSlide(a, b, d, i, x, y);
      SlideIsCanonical(a, b, d, i, x, y);
      PushOp(ops, Equal(x - 1, y - 1), a, b, x, y, x - 1, y - 1);
      ops := ops + [Equal(x - 1, y - 1)];
      x, y := x - 1, y - 1;
      SlideTest(a, b, d, i, x, y, prevX, prevK);
    }
  }

  /** The loop's test tells whether some of the slide is left. */
  lemma SlideTest<T>(a: seq<T>, b: seq<T>, d: int, i: int, x: int, y: int, prevX: int, prevK: int)
    requires CameFrom(a, b, d, i, prevX, prevK) && OnSlide(a, b, d, i, x, y)
    ensures 0 <= i <= d && Entry(a, b, d, i) <= x <= |a| && y <= |b|
    ensures (x > prevX && y > prevX - prevK) <==> Entry(a, b, d, i) < x
  {
    hide Far, Entry, Dist;
  }

  /** The edit of round `d` leads back to where the round before left its diagonal. */
  lemma BackOverEdit<T>(a: seq<T>, b: seq<T>, d: int, i: int, x: int, y: int, prevX: int, prevK: int)
    requires d > 0 && CameFrom(a, b, d, i, prevX, prevK)
    requires OnSlide(a, b, d, i, x, y) && x == Entry(a, b, d, i)
    ensures
      var j := if prevK == x - y + 1 then i else i - 1;
      && 0 <= j < d && prevX == Far(a, b, d - 1, j) && OnSlide(a, b, d - 1, j, prevX, prevX - prevK)
      && (if x == prevX then 0 < y && prevX - prevK == y - 1 else 0 < x && prevX == x - 1 && prevX - prevK == y)
  {
    var j := if prevK == x - y + 1 then i else i - 1;
    hide Far, Entry, Dist;
    EntryBeforeFar(a, b, d - 1, j);
    OneEditBefore(a, b, d, j, prevX, prevX - prevK);
  }

  lemma EntryBeforeFar<T>(a: seq<T>, b: seq<T>, d: int, i: int)
    requires 0 <= i <= d
    ensures Entry(a, b, d, i) <= Far(a, b, d, i)
  {
    hide *;
    FarFromEntry(a, b, d, i);
  }

  lemma OneEditBefore<T>(a: seq<T>, b: seq<T>, d: int, j: int, x: nat, y: nat)
    requires 0 <= j < d && x == Far(a, b, d - 1, j) && x - y == Diagonal(d - 1, j)
    requires Dist(a, b, x, y + 1) == d || Dist(a, b, x + 1, y) == d
    ensures Dist(a, b, x, y) == d - 1
  {
    hide Far, Dist;
    FarIsFurthest(a, b, d - 1, j);
    DistNeighbours(a, b, x, y);
  }

  /** An insertion comes last where the diagonal above was left for this point, else a deletion. */
  lemma EditIsCanonical<T>(a: seq<T>, b: seq<T>, d: int, i: int, x: int, y: int, prevX: int, prevK: int)
    requires d > 0 && CameFrom(a, b, d, i, prevX, prevK)
    requires OnSlide(a, b, d, i, x, y) && x == Entry(a, b, d, i)
    ensures x == prevX ==> 0 < y && Canonical(a, b, x, y) == Canonical(a, b, x, y - 1) + [Insert(y - 1)]
    ensures x != prevX ==> 0 < x && Canonical(a, b, x, y) == Canonical(a, b, x - 1, y) + [Delete(x - 1)]
  {
    hide Far, Entry, Dist;
    BackOverEdit(a, b, d, i, x, y, prevX, prevK);
    if x != prevX && y > 0 {
      AboveIsFarther(a, b, d, i, x, y);
    }
  }

  /** Back over the edit that entered the diagonal. */
  method UndoEdit<T(==)>(a: seq<T>, b: seq<T>, x: int, y: int, prevX: int, ops0: seq<Op>,
      ghost prevK: int, ghost d: int, ghost i: int)
    returns (ops: seq<Op>)
    requires d > 0 && CameFrom(a, b, d, i, prevX, prevK)
    requires OnSlide(a, b, d, i, x, y) && x == Entry(a, b, d, i) && Suffix(ops0, a, b, x, y)
    ensures Suffix(ops, a, b, prevX, prevX - prevK)
  {
    hide *;
    BackOverEdit(a, b, d, i, x, y, prevX, prevK);
    EditIsCanonical(a, b, d, i, x, y, prevX, prevK);
    OnSlideShape(a, b, d, i, x, y);
    if x == prevX {
      PushOp(ops0, Insert(y - 1), a, b, x, y, x, y - 1);
      ops := ops0 + [Insert(y - 1)];
    } else {
      PushOp(ops0, Delete(x - 1), a, b, x, y, x - 1, y);
      ops := ops0 + [Delete(x - 1)];
    }
  }

  /** Undo round `d`: back along its slide, then back over its edit. */
  method UndoRound<T(==)>(a: seq<T>, b: seq<T>, band: Band, d: int, x0: int, y0: int, ops0: seq<Op>, ghost i: int)
    returns (x: int, y: int, ops: seq<Op>, ghost j: int)
    requires 0 <= i <= d && Saved(a, b, band, d)
    requires x0 == Far(a, b, d, i) && OnSlide(a, b, d, i, x0, y0)
    requires Suffix(ops0, a, b, x0, y0)
    ensures d == 0 ==> Suffix(ops, a, b, 0, 0)
    ensures d > 0 ==>
      && 0 <= j < d && x == Far(a, b, d - 1, j) && OnSlide(a, b, d - 1, j, x, y)
      && Suffix(ops, a, b, x, y)
  {
    hide *;
    BandInReach(a, b, band, d, i, x0, y0);
    var k := x0 - y0;
    var prevK := if k == -d || (k != d && band.Get(k - 1) < band.Get(k + 1)) then k + 1 else k - 1;
    j := if prevK == k + 1 then i else i - 1;
    var prevX := band.Get(prevK);
    BackStep(a, b, band, d, i, prevX, prevK);
    x, y, ops := UndoSlide(a, b, x0, y0, prevX, prevK, ops0, d, i);
    BandInReach(a, b, band, d, i, x, y);
    if d > 0 {
      BackOverEdit(a, b, d, i, x, y, prevX, prevK);
      ops := UndoEdit(a, b, x, y, prevX, ops, prevK, d, i);
    }
    x, y := prevX, prevX - prevK;
  }

  lemma BandInReach<T>(a: seq<T>, b: seq<T>, band: Band, d: int, i: int, x: int, y: int)
    requires Saved(a, b, band, d) && OnSlide(a, b, d, i, x, y)
    ensures band.lo == -(d + 1) && |band.vals| == 2 * d + 3
    ensures x - y == Diagonal(d, i) && -d <= x - y <= d
    ensures d == 0 && x == Entry(a, b, d, i) ==> x == 0 && y == 0
  {
    hide Far, OnSlide;
    assert x - y == Diagonal(d, i) && 0 <= i <= d by {
      OnSlideShape(a, b, d, i, x, y);
    }
  }

  lemma OnSlideShape<T>(a: seq<T>, b: seq<T>, d: int, i: int, x: int, y: int)
    requires OnSlide(a, b, d, i, x, y)
    ensures x - y == Diagonal(d, i) && 0 <= i <= d && 0 <= x <= |a| && 0 <= y <= |b|
  {
  }

  /** From the far corner back to the start, one saved band at a time. Of all the shortest scripts it
      yields the canonical one. */
  method Backtrack<T(==)>(a: seq<T>, b: seq<T>, trace: seq<Band>) returns (script: seq<Op>)
    requires |trace| == EditDistance(a, b) + 1 && SavedTrace(a, b, trace)
    ensures script == Canonical(a, b, |a|, |b|)
    ensures Script(script, a, b) && Cost(script) == EditDistance(a, b)
  {
    hide *;
    var ops: seq<Op> := [];
    var x, y := |a|, |b|;
    var d := |trace|;
    ghost var i := CornerIndex(a, b);
    StartBacktrack(a, b);
    assert trace[..d] == trace;
    while d > 0
      invariant 0 <= d <= |trace| && SavedTrace(a, b, trace[..d])
      invariant d > 0 ==>
        && 0 <= i < d && x == Far(a, b, d - 1, i) && OnSlide(a, b, d - 1, i, x, y)
        && Suffix(ops, a, b, x, y)
      invariant d == 0 ==> Suffix(ops, a, b, 0, 0)
    {
      d := d - 1;
      LastSaved(a, b, trace, d);
      x, y, ops, i := UndoRound(a, b, trace[d], d, x, y, ops, i);
    }
    script := Reversed(ops);
    SuffixIsScript(ops, a, b);
    CanonicalIsShortest(a, b);
  }

  lemma StartBacktrack<T>(a: seq<T>, b: seq<T>)
    ensures
      var d, i := EditDistance(a, b), CornerIndex(a, b);
      0 <= i <= d && Far(a, b, d, i) == |a| && OnSlide(a, b, d, i, |a|, |b|) && Suffix([], a, b, |a|, |b|)
  {
    var d, i := EditDistance(a, b), CornerIndex(a, b);
    CornerInRound(a, b);
    StopsAtCorner(a, b, d, i);
    hide Far, Lcs, CornerIndex, Canonical;
    FarFromEntry(a, b, d, i);
    assert Canonical(a, b, |a|, |b|) + [] == Canonical(a, b, |a|, |b|);
  }

  lemma LastSaved<T>(a: seq<T>, b: seq<T>, trace: seq<Band>, d: nat)
    requires d < |trace| && SavedTrace(a, b, trace[..d + 1])
    ensures SavedTrace(a, b, trace[..d]) && Saved(a, b, trace[d], d)
  {
    assert trace[..d + 1][..d] == trace[..d];
  }

  lemma SuffixIsScript<T>(ops: seq<Op>, a: seq<T>, b: seq<T>)
    requires Suffix(ops, a, b, 0, 0)
    ensures Reversed(ops) == Canonical(a, b, |a|, |b|)
  {
    assert [] + Reversed(ops) == Reversed(ops);
  }

  function StepCap(stepsLeft: nat): nat {
    Min(MAX_STEPS_PER_FILE, stepsLeft)
  }

  /** The exact condition for a line diff: both sides and the edit distance within bounds, no
      cancellation seen by any round, and the step budget lasting to the corner. */
  ghost predicate Accepted<T>(a: seq<T>, b: seq<T>, stepsLeft: nat, cancel: nat -> bool) {
    && |a| <= MAX_LINES && |b| <= MAX_LINES
    && EditDistance(a, b) <= MAX_EDIT_DISTANCE
    && Uncancelled(cancel, EditDistance(a, b) + 1)
    && SearchSteps(a, b) <= StepCap(stepsLeft)
  }

  /** The same in numbers. */
  lemma AcceptedMeans<T>(a: seq<T>, b: seq<T>, stepsLeft: nat, cancel: nat -> bool)
    ensures Accepted(a, b, stepsLeft, cancel) <==>
      && |a| <= 20_000 && |b| <= 20_000 && EditDistance(a, b) <= 1_000
      && (forall d: nat :: d <= EditDistance(a, b) ==> !cancel(d))
      && SearchSteps(a, b) <= 20_000_000 && SearchSteps(a, b) <= stepsLeft
  {
    hide EditDistance, SearchSteps;
  }

  /** What a file without a line diff is charged: nothing if it has too many lines or is cancelled,
      else the steps up to the diagonal that passed the cap, or those of every round allowed. */
  ghost predicate Charge<T>(a: seq<T>, b: seq<T>, stepCap: nat, cancel: nat -> bool, spent: nat) {
    if |a| > MAX_LINES || |b| > MAX_LINES then spent == 0
    else
      || (spent == 0 && exists d :: CancelledAt(a, b, stepCap, cancel, d))
      || (exists d, i :: OverCapAt(a, b, stepCap, cancel, d, i) && spent == Steps(a, b, d, i + 1))
      || (AllRoundsRun(a, b, stepCap, cancel) && spent == Steps(a, b, MAX_EDIT_DISTANCE + 1, 0))
  }

  /** Every round allowed runs to its end without reaching the far corner. */
  ghost predicate AllRoundsRun<T>(a: seq<T>, b: seq<T>, stepCap: nat, cancel: nat -> bool) {
    && EditDistance(a, b) > MAX_EDIT_DISTANCE && Uncancelled(cancel, MAX_EDIT_DISTANCE + 1)
    && Steps(a, b, MAX_EDIT_DISTANCE + 1, 0) <= stepCap
  }

  lemma CancelledOnlyEnding<T>(a: seq<T>, b: seq<T>, stepCap: nat, cancel: nat -> bool, d: int)
    requires CancelledAt(a, b, stepCap, cancel, d)
    ensures !AllRoundsRun(a, b, stepCap, cancel)
    ensures forall e, i :: !OverCapAt(a, b, stepCap, cancel, e, i)
  {
    hide Steps, EditDistance;
    forall e, i
      ensures !OverCapAt(a, b, stepCap, cancel, e, i)
    {
      if 0 <= i <= e < d {
        StepsGrow(a, b, e, i + 1, d, 0);
      }
    }
  }

  lemma OverCapOnlyEnding<T>(a: seq<T>, b: seq<T>, stepCap: nat, cancel: nat -> bool, d: int, i: int)
    requires OverCapAt(a, b, stepCap, cancel, d, i)
    ensures !AllRoundsRun(a, b, stepCap, cancel)
    ensures forall e, j :: OverCapAt(a, b, stepCap, cancel, e, j) ==> e == d && j == i
  {
    hide Steps, EditDistance, Uncancelled;
    StepsGrow(a, b, d, i + 1, MAX_EDIT_DISTANCE + 1, 0);
    forall e, j | OverCapAt(a, b, stepCap, cancel, e, j)
      ensures e == d && j == i
    {
      if e < d || (e == d && j < i) {
        StepsGrow(a, b, e, j + 1, d, i);
      } else if e > d || j > i {
        StepsGrow(a, b, d, i + 1, e, j);
      }
    }
  }

  /** The charge is fixed by the two sides, the step cap and the cancellation. */
  lemma ChargeIsUnique<T>(a: seq<T>, b: seq<T>, stepCap: nat, cancel: nat -> bool, spent: nat, spent': nat)
    requires Charge(a, b, stepCap, cancel, spent) && Charge(a, b, stepCap, cancel, spent')
    ensures spent == spent'
  {
    hide CancelledAt, OverCapAt, AllRoundsRun, Steps;
    if |a| <= MAX_LINES && |b| <= MAX_LINES {
      if d :| CancelledAt(a, b, stepCap, cancel, d) {
        CancelledOnlyEnding(a, b, stepCap, cancel, d);
      } else if d, i :| OverCapAt(a, b, stepCap, cancel, d, i) {
        OverCapOnlyEnding(a, b, stepCap, cancel, d, i);
      }
    }
  }

  /** A search that is not cancelled and stays within the lines allowed is charged when it fails: more than
      the cap if the steps do not last, and else every diagonal of the rounds allowed at least. */
  lemma FailureIsCharged<T>(a: seq<T>, b: seq<T>, stepCap: nat, cancel: nat -> bool, spent: nat)
    requires Charge(a, b, stepCap, cancel, spent)
    requires |a| <= 20_000 && |b| <= 20_000 && forall d: nat :: d <= 1_000 ==> !cancel(d)
    ensures spent > stepCap || (EditDistance(a, b) > 1_000 && spent >= 501_501)
  {
    hide Steps, EditDistance;
    assert forall d :: !CancelledAt(a, b, stepCap, cancel, d);
    if AllRoundsRun(a, b, stepCap, cancel) {
      StepsPerDiagonal(a, b, 1_001, 0);
      TriangleIsHalfProduct(1_001);
    }
  }

  /** One that is cancelled before its first round, or has too many lines, costs nothing. */
  lemma NothingIsCharged<T>(a: seq<T>, b: seq<T>, stepCap: nat, cancel: nat -> bool, spent: nat)
    requires Charge(a, b, stepCap, cancel, spent)
    requires |a| > 20_000 || |b| > 20_000 || cancel(0)
    ensures spent == 0
  {
    hide Steps, EditDistance;
  }

  /** The bounded line diff: the canonical script, which is a shortest one, or nothing past any bound.
      `spent` is what the capture's step budget is charged. */
  method Myers<T(==)>(a: seq<T>, b: seq<T>, budget: RenderBudget, cancel: nat -> bool)
    returns (r: Option<seq<Op>>, ghost spent: nat)
    modifies budget`stepsLeft
    ensures r.Some? <==> Accepted(a, b, old(budget.stepsLeft), cancel)
    ensures r.Some? ==> r.value == Canonical(a, b, |a|, |b|)
    ensures r.Some? ==> Script(r.value, a, b) && Cost(r.value) == EditDistance(a, b)
    ensures r.Some? ==> spent == SearchSteps(a, b)
    ensures budget.stepsLeft == SaturatingSub(old(budget.stepsLeft), spent)
    ensures spent <= StepCap(old(budget.stepsLeft)) + MAX_LINES + 1
    ensures r.None? ==> Charge(a, b, StepCap(old(budget.stepsLeft)), cancel, spent)
  {
    if |a| > MAX_LINES || |b| > MAX_LINES {
      spent := 0;
      return None, spent;
    }
    hide Script, Canonical, SearchSteps, EditDistance, Uncancelled, SavedTrace, Steps, CancelledAt, OverCapAt;
    ghost var d, i := 0, 0;
    var search;
    search, d, i := Forward(a, b, StepCap(budget.stepsLeft), cancel);
    match search {
      case Cancelled =>
        spent := 0;
        r := None;
      case OverCap(steps) =>
        spent := steps;
        budget.stepsLeft := SaturatingSub(budget.stepsLeft, steps);
        r := None;
      case Exhausted(steps) =>
        spent := steps;
        budget.stepsLeft := SaturatingSub(budget.stepsLeft, steps);
        r := None;
      case Found(steps, trace) =>
        spent := steps;
        budget.stepsLeft := SaturatingSub(budget.stepsLeft, steps);
        var script := Backtrack(a, b, trace);
        r := Some(script);
    }
  }

  /** Among all edit scripts a returned one is shortest, and it keeps a longest common subsequence. */
  lemma ShortestScript<T>(a: seq<T>, b: seq<T>, script: seq<Op>, other: seq<Op>)
    requires Script(script, a, b) && Cost(script) == EditDistance(a, b) && Script(other, a, b)
    ensures Cost(script) <= Cost(other)
    ensures |script| - Cost(script) == Lcs(a, b, |a|, |b|) >= |other| - Cost(other)
  {
    ScriptCostsAtLeast(other, a, b);
    WalkLength(script, a, b, 0, 0);
    WalkLength(other, a, b, 0, 0);
  }

  /** With at most 9744 lines on the shorter side the step cap of one file never decides. */
  lemma StepCapNeverDecides<T>(a: seq<T>, b: seq<T>)
    requires Min(|a|, |b|) <= 9744 && EditDistance(a, b) <= MAX_EDIT_DISTANCE
    ensures SearchSteps(a, b) <= MAX_STEPS_PER_FILE
  {
    hide SearchSteps, EditDistance;
    var d, n := EditDistance(a, b), Min(|a|, |b|);
    SearchStepsBound(a, b, d);
    CapArithmetic(d, n);
  }

  lemma CapArithmetic(d: nat, n: nat)
    requires d <= 1000 && n <= 9744
    ensures (d + 1) * (d + 2) / 2 + (2 * d + 1) * n <= 20_000_000
  {
    MulMonotone(d + 1, d + 2, 1001, 1002);
    MulMonotone(2 * d + 1, n, 2001, 9744);
  }

  lemma MulMonotone(x: nat, y: nat, x': nat, y': nat)
    requires x <= x' && y <= y'
    ensures x * y <= x' * y'
  {
    assert x * y <= x * y';
    assert x * y' <= x' * y';
  }
}
