/** Hunks of an edit script and the strict applier: both positions and both lengths of every header
    must be right, and every context or removed line must equal the base line it stands for. */
module Patch {
  import opened Wrappers
  import opened EditGraph

  /** Context lines around each change. */
  const CONTEXT: nat := 3

  datatype Kind = Context | Removed | Added

  datatype Entry<T> = Entry(kind: Kind, line: T)

  /** One hunk: how many base and modified lines precede it, how many it spans, and its body. */
  datatype Hunk<T> = Hunk(aPos: nat, aLen: nat, bPos: nat, bLen: nat, body: seq<Entry<T>>)

  // ----- positions in a script -----

  /** Base lines consumed by the first `k` operations. */
  function CountA(ops: seq<Op>, k: nat): nat
    requires k <= |ops|
  {
    if k == 0 then 0 else CountA(ops, k - 1) + (if ops[k - 1].Insert? then 0 else 1)
  }

  function CountB(ops: seq<Op>, k: nat): nat
    requires k <= |ops|
  {
    if k == 0 then 0 else CountB(ops, k - 1) + (if ops[k - 1].Delete? then 0 else 1)
  }

  /** Operation `k` names exactly the lines its position in the script stands for. */
  ghost predicate InPlace(ops: seq<Op>, n: nat, m: nat, k: nat)
    requires k < |ops|
  {
    match ops[k]
    case Equal(i, j) => i == CountA(ops, k) < n && j == CountB(ops, k) < m
    case Delete(i) => i == CountA(ops, k) < n
    case Insert(j) => j == CountB(ops, k) < m
  }

  /** `ops` runs through `n` base lines and `m` modified lines, each once and in order. */
  ghost predicate Ordered(ops: seq<Op>, n: nat, m: nat) {
    && (forall k :: 0 <= k < |ops| ==> InPlace(ops, n, m, k))
    && CountA(ops, |ops|) == n && CountB(ops, |ops|) == m
  }

  /** A complete edit script is ordered, and its `Equal`s pair equal lines. */
  lemma {:induction false} ScriptIsOrdered<T>(ops: seq<Op>, a: seq<T>, b: seq<T>, k: nat)
    requires k <= |ops| && Walk(ops[k..], a, b, CountA(ops, k), CountB(ops, k))
    ensures forall l :: k <= l < |ops| ==> InPlace(ops, |a|, |b|, l)
    ensures forall l :: k <= l < |ops| && ops[l].Equal? ==> Matches(a, b, ops[l].base, ops[l].modified)
    ensures CountA(ops, |ops|) == |a| && CountB(ops, |ops|) == |b|
    decreases |ops| - k
  {
    if k < |ops| {
      assert ops[k..][1..] == ops[k + 1..];
      ScriptIsOrdered(ops, a, b, k + 1);
    }
  }

  // ----- the hunks of a script -----

  /** The line an operation prints; an `Equal` prints the base side's. */
  function EntryOf<T>(op: Op, a: seq<T>, b: seq<T>): Entry<T>
    requires if op.Insert? then op.modified < |b| else op.base < |a|
  {
    match op
    case Equal(i, _) => Entry(Context, a[i])
    case Delete(i) => Entry(Removed, a[i])
    case Insert(j) => Entry(Added, b[j])
  }

  ghost function BodyOf<T>(ops: seq<Op>, a: seq<T>, b: seq<T>, start: nat, end: nat): seq<Entry<T>>
    requires start <= end <= |ops| && Ordered(ops, |a|, |b|)
    decreases end - start
  {
    if start == end then []
    else assert InPlace(ops, |a|, |b|, start); [EntryOf(ops[start], a, b)] + BodyOf(ops, a, b, start + 1, end)
  }

  /** The hunk of the operations `start .. end - 1`. */
  ghost function HunkOf<T>(ops: seq<Op>, a: seq<T>, b: seq<T>, start: nat, end: nat): Hunk<T>
    requires start <= end <= |ops| && Ordered(ops, |a|, |b|)
  {
    CountsGrow(ops, start, end);
    Hunk(CountA(ops, start), CountA(ops, end) - CountA(ops, start),
         CountB(ops, start), CountB(ops, end) - CountB(ops, start),
         BodyOf(ops, a, b, start, end))
  }

  lemma {:induction false} CountsGrow(ops: seq<Op>, start: nat, end: nat)
    requires start <= end <= |ops|
    ensures CountA(ops, start) <= CountA(ops, end) <= CountA(ops, start) + (end - start)
    ensures CountB(ops, start) <= CountB(ops, end) <= CountB(ops, start) + (end - start)
    decreases end - start
  {
    if start < end {
      CountsGrow(ops, start, end - 1);
    }
  }

  /** The first and last change of a group, as positions in the script. */
  datatype Group = Group(first: nat, last: nat)

  predicate Changed(ops: seq<Op>, k: int) {
    0 <= k < |ops| && !ops[k].Equal?
  }

  function StartOf(g: Group): nat {
    if g.first < CONTEXT then 0 else g.first - CONTEXT
  }

  /** One past the last operation of the group's hunk. */
  function EndOf(g: Group, n: nat): nat {
    if g.last + CONTEXT < n - 1 then g.last + CONTEXT + 1 else n
  }

  /** Another change follows operation `k`, no later than `last` and so close that the contexts touch. */
  ghost predicate Follows(ops: seq<Op>, k: int, last: int) {
    exists l :: k < l <= last && l <= k + 2 * CONTEXT + 1 && Changed(ops, l)
  }

  /** A group begins and ends with a change, and its changes lie close enough that their contexts
      touch. */
  ghost predicate IsGroup(ops: seq<Op>, g: Group) {
    && g.first <= g.last && Changed(ops, g.first) && Changed(ops, g.last)
    && forall k {:trigger Changed(ops, k)} :: g.first <= k < g.last && Changed(ops, k) ==>
         Follows(ops, k, g.last)
  }

  /** `groups` covers every change from `from` on exactly once, in order, and neighbouring groups are
      so far apart that their contexts do not touch. */
  ghost predicate Grouping(ops: seq<Op>, groups: seq<Group>, from: nat) {
    if groups == [] then forall k {:trigger Changed(ops, k)} :: from <= k ==> !Changed(ops, k)
    else
      && IsGroup(ops, groups[0]) && from <= groups[0].first
      && (forall k {:trigger Changed(ops, k)} :: from <= k < groups[0].first ==> !Changed(ops, k))
      && (|groups| > 1 ==> groups[0].last + 2 * CONTEXT + 1 < groups[1].first)
      && Grouping(ops, groups[1..], groups[0].last + 1)
  }

  ghost function HunksOf<T>(ops: seq<Op>, a: seq<T>, b: seq<T>, groups: seq<Group>, from: nat): seq<Hunk<T>>
    requires Ordered(ops, |a|, |b|) && Grouping(ops, groups, from)
    decreases |groups|
  {
    if groups == [] then []
    else
      var g := groups[0];
      assert Changed(ops, g.first) && Changed(ops, g.last);
      [HunkOf(ops, a, b, StartOf(g), EndOf(g, |ops|))] + HunksOf(ops, a, b, groups[1..], g.last + 1)
  }

  // ----- applying -----

  /** Apply a body at base position `pos`: the position after it and the lines it yields. */
  function ApplyBody<T(==)>(base: seq<T>, pos: nat, body: seq<Entry<T>>): Option<(nat, seq<T>)>
    decreases |body|
  {
    if body == [] then Some((pos, []))
    else
      var e := body[0];
      if e.kind.Added? then
        match ApplyBody(base, pos, body[1..])
        case None => None
        case Some((end, lines)) => Some((end, [e.line] + lines))
      else if pos < |base| && base[pos] == e.line then
        match ApplyBody(base, pos + 1, body[1..])
        case None => None
        case Some((end, lines)) => Some((end, (if e.kind.Context? then [e.line] else []) + lines))
      else None
  }

  /** Apply one hunk when base position `pos` is reached after `done` lines of output: the position
      after it, and the lines copied before it and yielded by it. */
  function ApplyHunk<T(==)>(base: seq<T>, h: Hunk<T>, pos: nat, done: nat): Option<(nat, seq<T>)> {
    if !(pos <= h.aPos <= |base|) || h.bPos != done + (h.aPos - pos) then None
    else
      match ApplyBody(base, h.aPos, h.body)
      case None => None
      case Some((end, lines)) =>
        if end != h.aPos + h.aLen || |lines| != h.bLen || end > |base| then None
        else Some((end, base[pos..h.aPos] + lines))
  }

  /** Apply hunks from base position `pos` on, after `done` lines of output. */
  function ApplyFrom<T(==)>(base: seq<T>, hunks: seq<Hunk<T>>, pos: nat, done: nat): Option<seq<T>>
    decreases |hunks|
  {
    if hunks == [] then (if pos <= |base| then Some(base[pos..]) else None)
    else
      match ApplyHunk(base, hunks[0], pos, done)
      case None => None
      case Some((end, lines)) =>
        match ApplyFrom(base, hunks[1..], end, done + |lines|)
        case None => None
        case Some(rest) => Some(lines + rest)
  }

  function Apply<T(==)>(base: seq<T>, hunks: seq<Hunk<T>>): Option<seq<T>> {
    ApplyFrom(base, hunks, 0, 0)
  }

  /** What the operations `start .. end - 1` leave behind. */
  ghost function Output<T>(ops: seq<Op>, a: seq<T>, b: seq<T>, start: nat, end: nat): seq<T>
    requires start <= end <= |ops| && Ordered(ops, |a|, |b|)
    decreases end - start
  {
    if start == end then []
    else
      assert InPlace(ops, |a|, |b|, start);
      (match ops[start]
       case Equal(i, _) => [a[i]]
       case Delete(_) => []
       case Insert(j) => [b[j]]) + Output(ops, a, b, start + 1, end)
  }

  lemma {:induction false} OutputSplits<T>(ops: seq<Op>, a: seq<T>, b: seq<T>, start: nat, mid: nat, end: nat)
    requires start <= mid <= end <= |ops| && Ordered(ops, |a|, |b|)
    ensures Output(ops, a, b, start, end) == Output(ops, a, b, start, mid) + Output(ops, a, b, mid, end)
    decreases mid - start
  {
    hide Ordered;
    if start < mid {
      OutputSplits(ops, a, b, start + 1, mid, end);
    }
  }

  /** What one operation consumes and leaves behind. */
  lemma OneOperation<T>(ops: seq<Op>, a: seq<T>, b: seq<T>, k: nat, end: nat)
    requires k < end <= |ops| && Ordered(ops, |a|, |b|)
    ensures
      var op, x, y, rest := ops[k], CountA(ops, k), CountB(ops, k), Output(ops, a, b, k + 1, end);
      && CountA(ops, k + 1) == (if op.Insert? then x else x + 1) <= |a|
      && CountB(ops, k + 1) == (if op.Delete? then y else y + 1) <= |b|
      && (op.Equal? ==> op.base == x && op.modified == y)
      && Output(ops, a, b, k, end) ==
        (match op case Equal(_, _) => [a[x]] case Delete(_) => [] case Insert(_) => [b[y]]) + rest
  {
    assert InPlace(ops, |a|, |b|, k);
    CountsGrow(ops, k + 1, |ops|);
  }

  lemma AllConsumed(ops: seq<Op>, n: nat, m: nat, k: nat)
    requires k <= |ops| && Ordered(ops, n, m)
    ensures CountA(ops, k) <= CountA(ops, |ops|) == n && CountB(ops, k) <= CountB(ops, |ops|) == m
  {
    CountsGrow(ops, k, |ops|);
  }

  /** Unchanged operations copy base lines and advance both sides alike. */
  lemma {:induction false} OutputUnchanged<T>(ops: seq<Op>, a: seq<T>, b: seq<T>, start: nat, end: nat)
    requires start <= end <= |ops| && Ordered(ops, |a|, |b|)
    requires forall k {:trigger Changed(ops, k)} :: start <= k < end ==> !Changed(ops, k)
    ensures CountA(ops, start) <= CountA(ops, end) == CountA(ops, start) + (end - start) <= |a|
    ensures CountB(ops, end) == CountB(ops, start) + (end - start)
    ensures Output(ops, a, b, start, end) == a[CountA(ops, start)..CountA(ops, end)]
    decreases end - start
  {
    hide Ordered, CountA, CountB;
    AllConsumed(ops, |a|, |b|, end);
    if start < end {
      assert !Changed(ops, start);
      OneOperation(ops, a, b, start, end);
      OutputUnchanged(ops, a, b, start + 1, end);
    }
  }

  lemma {:induction false} BodyApplies<T>(ops: seq<Op>, a: seq<T>, b: seq<T>, start: nat, end: nat)
    requires start <= end <= |ops| && Ordered(ops, |a|, |b|)
    ensures ApplyBody(a, CountA(ops, start), BodyOf(ops, a, b, start, end))
         == Some((CountA(ops, end), Output(ops, a, b, start, end)))
    ensures |Output(ops, a, b, start, end)| == CountB(ops, end) - CountB(ops, start)
    decreases end - start
  {
    if start < end {
      assert InPlace(ops, |a|, |b|, start);
      var body := BodyOf(ops, a, b, start, end);
      assert body[1..] == BodyOf(ops, a, b, start + 1, end);
      BodyApplies(ops, a, b, start + 1, end);
    }
  }

  /** The cursor stands between two hunks: nothing from `from` to the next group is changed. */
  ghost predicate BetweenHunks(ops: seq<Op>, groups: seq<Group>, from: nat, cursor: nat) {
    && Grouping(ops, groups, from) && from <= cursor <= |ops|
    && (groups != [] ==> cursor <= StartOf(groups[0]))
  }

  lemma NextHunk(ops: seq<Op>, groups: seq<Group>, from: nat, cursor: nat)
    requires groups != [] && BetweenHunks(ops, groups, from, cursor)
    ensures
      var g := groups[0];
      && Grouping(ops, groups, from)
      && cursor <= StartOf(g) <= g.first <= g.last < EndOf(g, |ops|) <= |ops|
      && BetweenHunks(ops, groups[1..], g.last + 1, EndOf(g, |ops|))
      && forall k {:trigger Changed(ops, k)} :: cursor <= k < StartOf(g) ==> !Changed(ops, k)
  {
    var g := groups[0];
    assert Changed(ops, g.first) && Changed(ops, g.last);
  }

  lemma HunkApplies<T>(ops: seq<Op>, a: seq<T>, b: seq<T>, cursor: nat, start: nat, end: nat)
    requires cursor <= start <= end <= |ops| && Ordered(ops, |a|, |b|)
    requires forall k {:trigger Changed(ops, k)} :: cursor <= k < start ==> !Changed(ops, k)
    ensures ApplyHunk(a, HunkOf(ops, a, b, start, end), CountA(ops, cursor), CountB(ops, cursor))
         == Some((CountA(ops, end), Output(ops, a, b, cursor, end)))
    ensures |Output(ops, a, b, cursor, end)| == CountB(ops, end) - CountB(ops, cursor)
  {
    OutputUnchanged(ops, a, b, cursor, start);
    BodyApplies(ops, a, b, start, end);
    CountsGrow(ops, start, end);
    CountsGrow(ops, end, |ops|);
    assert CountA(ops, |ops|) == |a|;
    OutputSplits(ops, a, b, cursor, start, end);
    hide Output, BodyOf, ApplyBody, Ordered, CountA, CountB;
  }

  /** The hunks from the cursor on turn the rest of the base into the rest of the output: every
      header is right, and every line between hunks is copied. */
  lemma {:induction false} HunksApply<T>(ops: seq<Op>, a: seq<T>, b: seq<T>, groups: seq<Group>, from: nat, cursor: nat)
    requires Ordered(ops, |a|, |b|) && BetweenHunks(ops, groups, from, cursor)
    ensures ApplyFrom(a, HunksOf(ops, a, b, groups, from), CountA(ops, cursor), CountB(ops, cursor))
         == Some(Output(ops, a, b, cursor, |ops|))
    decreases |groups|
  {
    hide Output, Ordered, BetweenHunks, Grouping, CountA, CountB, HunksOf, ApplyHunk, HunkOf, StartOf, EndOf;
    if groups == [] {
      TailApplies(ops, a, b, from, cursor);
    } else {
      var g := groups[0];
      var start, end := StartOf(g), EndOf(g, |ops|);
      NextHunk(ops, groups, from, cursor);
      HunkApplies(ops, a, b, cursor, start, end);
      HunksApply(ops, a, b, groups[1..], g.last + 1, end);
      OutputSplits(ops, a, b, cursor, end, |ops|);
      HunksOfCons(ops, a, b, groups, from);
    }
  }

  lemma TailApplies<T>(ops: seq<Op>, a: seq<T>, b: seq<T>, from: nat, cursor: nat)
    requires Ordered(ops, |a|, |b|) && BetweenHunks(ops, [], from, cursor)
    ensures HunksOf(ops, a, b, [], from) == []
    ensures CountA(ops, cursor) <= |a| && a[CountA(ops, cursor)..] == Output(ops, a, b, cursor, |ops|)
  {
    hide Output, InPlace;
    OutputUnchanged(ops, a, b, cursor, |ops|);
    assert a[CountA(ops, cursor)..CountA(ops, |ops|)] == a[CountA(ops, cursor)..];
  }

  lemma HunksOfCons<T>(ops: seq<Op>, a: seq<T>, b: seq<T>, groups: seq<Group>, from: nat)
    requires Ordered(ops, |a|, |b|) && Grouping(ops, groups, from) && groups != []
    ensures
      var g, hunks := groups[0], HunksOf(ops, a, b, groups, from);
      && StartOf(g) <= EndOf(g, |ops|) <= |ops| && |hunks| == |groups|
      && hunks[0] == HunkOf(ops, a, b, StartOf(g), EndOf(g, |ops|))
      && hunks[1..] == HunksOf(ops, a, b, groups[1..], g.last + 1)
  {
    hide Ordered, HunkOf;
    assert Changed(ops, groups[0].first) && Changed(ops, groups[0].last);
    HunksOfLength(ops, a, b, groups[1..], groups[0].last + 1);
  }

  lemma {:induction false} HunksOfLength<T>(ops: seq<Op>, a: seq<T>, b: seq<T>, groups: seq<Group>, from: nat)
    requires Ordered(ops, |a|, |b|) && Grouping(ops, groups, from)
    ensures |HunksOf(ops, a, b, groups, from)| == |groups|
    decreases |groups|
  {
    hide Ordered, HunkOf;
    if groups != [] {
      HunksOfLength(ops, a, b, groups[1..], groups[0].last + 1);
    }
  }

  /** Operations that copy a base line may only do so where the modified side has the same line. */
  ghost predicate CopiesAgree<T>(ops: seq<Op>, a: seq<T>, b: seq<T>)
    requires Ordered(ops, |a|, |b|)
  {
    forall k :: 0 <= k < |ops| && ops[k].Equal? ==> InPlace(ops, |a|, |b|, k) && a[ops[k].base] == b[ops[k].modified]
  }

  lemma CopyAgrees<T>(ops: seq<Op>, a: seq<T>, b: seq<T>, k: nat)
    requires k < |ops| && Ordered(ops, |a|, |b|) && CopiesAgree(ops, a, b)
    ensures InPlace(ops, |a|, |b|, k)
    ensures ops[k].Equal? ==> a[ops[k].base] == b[ops[k].modified]
  {
    assert InPlace(ops, |a|, |b|, k);
  }

  lemma {:induction false} OutputIsModified<T>(ops: seq<Op>, a: seq<T>, b: seq<T>, start: nat)
    requires start <= |ops| && Ordered(ops, |a|, |b|) && CopiesAgree(ops, a, b)
    ensures CountB(ops, start) <= |b|
    ensures Output(ops, a, b, start, |ops|) == b[CountB(ops, start)..]
    decreases |ops| - start
  {
    hide Ordered, CopiesAgree, CountA, CountB, InPlace;
    AllConsumed(ops, |a|, |b|, start);
    if start < |ops| {
      CopyAgrees(ops, a, b, start);
      OneOperation(ops, a, b, start, |ops|);
      OutputIsModified(ops, a, b, start + 1);
    }
  }

  /** Applying the hunks of an ordered script turns the base into the script's output. */
  lemma ApplyGivesOutput<T>(ops: seq<Op>, a: seq<T>, b: seq<T>, groups: seq<Group>)
    requires Ordered(ops, |a|, |b|) && Grouping(ops, groups, 0)
    ensures Apply(a, HunksOf(ops, a, b, groups, 0)) == Some(Output(ops, a, b, 0, |ops|))
  {
    HunksApply(ops, a, b, groups, 0, 0);
  }

  /** The hunks of an edit script, applied to the base, give the modified side. */
  lemma ApplyGivesModified<T>(ops: seq<Op>, a: seq<T>, b: seq<T>, groups: seq<Group>)
    requires Script(ops, a, b)
    ensures Ordered(ops, |a|, |b|)
    ensures Grouping(ops, groups, 0) ==> Apply(a, HunksOf(ops, a, b, groups, 0)) == Some(b)
  {
    assert ops[0..] == ops;
    ScriptIsOrdered(ops, a, b, 0);
    if Grouping(ops, groups, 0) {
      ApplyGivesOutput(ops, a, b, groups);
      OutputIsModified(ops, a, b, 0);
    }
  }

  // ----- reversing -----

  function SwapOp(op: Op): Op {
    match op
    case Equal(i, j) => Equal(j, i)
    case Delete(i) => Insert(i)
    case Insert(j) => Delete(j)
  }

  function SwapOps(ops: seq<Op>): seq<Op> {
    seq(|ops|, k requires 0 <= k < |ops| => SwapOp(ops[k]))
  }

  function SwapEntry<T>(e: Entry<T>): Entry<T> {
    match e.kind
    case Context => e
    case Removed => Entry(Added, e.line)
    case Added => Entry(Removed, e.line)
  }

  function SwapEntries<T>(body: seq<Entry<T>>): seq<Entry<T>> {
    if body == [] then [] else [SwapEntry(body[0])] + SwapEntries(body[1..])
  }

  function SwapHunk<T>(h: Hunk<T>): Hunk<T> {
    Hunk(h.bPos, h.bLen, h.aPos, h.aLen, SwapEntries(h.body))
  }

  /** The same hunks with the two sides exchanged. */
  function ReverseHunks<T>(hunks: seq<Hunk<T>>): seq<Hunk<T>> {
    seq(|hunks|, k requires 0 <= k < |hunks| => SwapHunk(hunks[k]))
  }

  lemma {:induction false} SwapCounts(ops: seq<Op>, k: nat)
    requires k <= |ops|
    ensures CountA(SwapOps(ops), k) == CountB(ops, k) && CountB(SwapOps(ops), k) == CountA(ops, k)
  {
    if k > 0 {
      SwapCounts(ops, k - 1);
    }
  }

  lemma SwapIsOrdered(ops: seq<Op>, n: nat, m: nat)
    requires Ordered(ops, n, m)
    ensures Ordered(SwapOps(ops), m, n)
  {
    var swapped := SwapOps(ops);
    SwapCounts(ops, |ops|);
    forall k | 0 <= k < |swapped|
      ensures InPlace(swapped, m, n, k)
    {
      assert InPlace(ops, n, m, k);
      SwapCounts(ops, k);
    }
  }

  lemma {:induction false} SwapGrouping(ops: seq<Op>, groups: seq<Group>, from: nat)
    requires Grouping(ops, groups, from)
    ensures Grouping(SwapOps(ops), groups, from)
    decreases |groups|
  {
    var swapped := SwapOps(ops);
    assert forall k {:trigger Changed(swapped, k)} :: Changed(swapped, k) == Changed(ops, k);
    if groups != [] {
      SwapGrouping(ops, groups[1..], groups[0].last + 1);
      SwapGroup(ops, groups[0]);
    }
  }

  lemma SwapFollows(ops: seq<Op>, k: int, last: int)
    requires Follows(ops, k, last)
    ensures Follows(SwapOps(ops), k, last)
  {
    var l :| k < l <= last && l <= k + 2 * CONTEXT + 1 && Changed(ops, l);
    assert Changed(SwapOps(ops), l);
  }

  lemma SwapGroup(ops: seq<Op>, g: Group)
    requires IsGroup(ops, g)
    ensures IsGroup(SwapOps(ops), g)
  {
    hide Follows;
    var swapped := SwapOps(ops);
    forall k {:trigger Changed(swapped, k)} | g.first <= k < g.last && Changed(swapped, k)
      ensures Follows(swapped, k, g.last)
    {
      assert Changed(ops, k);
      SwapFollows(ops, k, g.last);
    }
    assert Changed(ops, g.first) && Changed(ops, g.last);
  }

  /** Exchanging the sides of a script exchanges the sides of its hunks, where copied lines agree. */
  lemma {:induction false} SwapBody<T>(ops: seq<Op>, a: seq<T>, b: seq<T>, start: nat, end: nat)
    requires start <= end <= |ops| && Ordered(ops, |a|, |b|) && CopiesAgree(ops, a, b)
    ensures Ordered(SwapOps(ops), |b|, |a|)
    ensures end <= |SwapOps(ops)|
    ensures BodyOf(SwapOps(ops), b, a, start, end) == SwapEntries(BodyOf(ops, a, b, start, end))
    decreases end - start
  {
    SwapIsOrdered(ops, |a|, |b|);
    assert |SwapOps(ops)| == |ops|;
    hide Ordered, CopiesAgree, InPlace, SwapOps, EntryOf, SwapEntry;
    if start < end {
      SwapEntryOf(ops, a, b, start);
      SwapBody(ops, a, b, start + 1, end);
      assert BodyOf(ops, a, b, start, end)[1..] == BodyOf(ops, a, b, start + 1, end);
    }
  }

  lemma SwapEntryOf<T>(ops: seq<Op>, a: seq<T>, b: seq<T>, k: nat)
    requires k < |ops| && Ordered(ops, |a|, |b|) && CopiesAgree(ops, a, b) && Ordered(SwapOps(ops), |b|, |a|)
    ensures InPlace(ops, |a|, |b|, k) && |SwapOps(ops)| == |ops| && InPlace(SwapOps(ops), |b|, |a|, k)
    ensures EntryOf(SwapOps(ops)[k], b, a) == SwapEntry(EntryOf(ops[k], a, b))
  {
    CopyAgrees(ops, a, b, k);
    assert InPlace(SwapOps(ops), |b|, |a|, k);
  }

  lemma SwapHunkOf<T>(ops: seq<Op>, a: seq<T>, b: seq<T>, start: nat, end: nat)
    requires start <= end <= |ops| && Ordered(ops, |a|, |b|) && CopiesAgree(ops, a, b)
    ensures Ordered(SwapOps(ops), |b|, |a|)
    ensures HunkOf(SwapOps(ops), b, a, start, end) == SwapHunk(HunkOf(ops, a, b, start, end))
  {
    SwapBody(ops, a, b, start, end);
    SwapCounts(ops, start);
    SwapCounts(ops, end);
    hide Ordered, CopiesAgree, CountA, CountB, BodyOf;
  }

  lemma {:induction false} SwapHunks<T>(ops: seq<Op>, a: seq<T>, b: seq<T>, groups: seq<Group>, from: nat)
    requires Ordered(ops, |a|, |b|) && CopiesAgree(ops, a, b) && Grouping(ops, groups, from)
    ensures Ordered(SwapOps(ops), |b|, |a|) && Grouping(SwapOps(ops), groups, from)
    ensures HunksOf(SwapOps(ops), b, a, groups, from) == ReverseHunks(HunksOf(ops, a, b, groups, from))
    decreases |groups|
  {
    SwapIsOrdered(ops, |a|, |b|);
    SwapGrouping(ops, groups, from);
    if groups != [] {
      var g := groups[0];
      HunksOfCons(ops, a, b, groups, from);
      HunksOfCons(SwapOps(ops), b, a, groups, from);
      SwapHunkOf(ops, a, b, StartOf(g), EndOf(g, |ops|));
      SwapHunks(ops, a, b, groups[1..], g.last + 1);
      hide Ordered, CopiesAgree, HunkOf, StartOf, EndOf, HunksOf, Grouping, SwapHunk, SwapOps;
      ReverseHunksCons(HunksOf(ops, a, b, groups, from));
    }
  }

  lemma ReverseHunksCons<T>(hunks: seq<Hunk<T>>)
    requires hunks != []
    ensures ReverseHunks(hunks) == [SwapHunk(hunks[0])] + ReverseHunks(hunks[1..])
  {
    hide SwapHunk;
  }

  /** The hunks of an edit script, applied in reverse to the modified side, give the base. */
  lemma ReverseApplyGivesBase<T>(ops: seq<Op>, a: seq<T>, b: seq<T>, groups: seq<Group>)
    requires Script(ops, a, b)
    ensures Ordered(ops, |a|, |b|)
    ensures Grouping(ops, groups, 0) ==> Apply(b, ReverseHunks(HunksOf(ops, a, b, groups, 0))) == Some(a)
  {
    assert ops[0..] == ops;
    ScriptIsOrdered(ops, a, b, 0);
    if Grouping(ops, groups, 0) {
      var swapped := SwapOps(ops);
      SwapHunks(ops, a, b, groups, 0);
      ApplyGivesOutput(swapped, b, a, groups);
      SwapCopiesAgree(ops, a, b);
      OutputIsModified(swapped, b, a, 0);
    }
  }

  lemma SwapCopiesAgree<T>(ops: seq<Op>, a: seq<T>, b: seq<T>)
    requires Ordered(ops, |a|, |b|) && CopiesAgree(ops, a, b)
    ensures Ordered(SwapOps(ops), |b|, |a|) && CopiesAgree(SwapOps(ops), b, a)
  {
    SwapIsOrdered(ops, |a|, |b|);
    var swapped := SwapOps(ops);
    forall k | 0 <= k < |swapped| && swapped[k].Equal?
      ensures InPlace(swapped, |b|, |a|, k) && b[swapped[k].base] == a[swapped[k].modified]
    {
      assert InPlace(ops, |a|, |b|, k) && InPlace(swapped, |b|, |a|, k);
    }
  }
}
