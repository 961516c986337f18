/** What the hunks show: every change with up to three unchanged lines on either side, and nothing else. */
module HunkContext {
  import opened EditGraph
  import opened Patch
  import opened Hunks

  /** A change lies no more than three operations away. */
  ghost predicate Near(ops: seq<Op>, k: int) {
    exists l :: k - 3 <= l <= k + 3 && Changed(ops, l)
  }

  /** The lines of the operations `start .. end - 1` that are near a change. */
  ghost function Shown<T>(ops: seq<Op>, a: seq<T>, b: seq<T>, start: nat, end: nat): seq<Entry<T>>
    requires start <= end <= |ops| && Ordered(ops, |a|, |b|)
    decreases end - start
  {
    if start == end then []
    else
      assert InPlace(ops, |a|, |b|, start);
      (if Near(ops, start) then [EntryOf(ops[start], a, b)] else []) + Shown(ops, a, b, start + 1, end)
  }

  /** The bodies of hunks, one after the other. */
  function Bodies<T>(hunks: seq<Hunk<T>>): seq<Entry<T>> {
    if hunks == [] then [] else hunks[0].body + Bodies(hunks[1..])
  }

  lemma {:induction false} ShownSplits<T>(ops: seq<Op>, a: seq<T>, b: seq<T>, start: nat, mid: nat, end: nat)
    requires start <= mid <= end <= |ops| && Ordered(ops, |a|, |b|)
    ensures Shown(ops, a, b, start, end) == Shown(ops, a, b, start, mid) + Shown(ops, a, b, mid, end)
    decreases mid - start
  {
    hide Ordered, Near, EntryOf;
    if start < mid {
      ShownSplits(ops, a, b, start + 1, mid, end);
    }
  }

  lemma {:induction false} NoneShown<T>(ops: seq<Op>, a: seq<T>, b: seq<T>, start: nat, end: nat)
    requires start <= end <= |ops| && Ordered(ops, |a|, |b|)
    requires forall k :: start <= k < end ==> !Near(ops, k)
    ensures Shown(ops, a, b, start, end) == []
    decreases end - start
  {
    hide Ordered, Near, EntryOf;
    if start < end {
      NoneShown(ops, a, b, start + 1, end);
    }
  }

  lemma {:induction false} AllShown<T>(ops: seq<Op>, a: seq<T>, b: seq<T>, start: nat, end: nat)
    requires start <= end <= |ops| && Ordered(ops, |a|, |b|)
    requires forall k :: start <= k < end ==> Near(ops, k)
    ensures Shown(ops, a, b, start, end) == BodyOf(ops, a, b, start, end)
    decreases end - start
  {
    hide Ordered, Near, EntryOf;
    if start < end {
      AllShown(ops, a, b, start + 1, end);
    }
  }

  /** The last change up to `k`. */
  lemma {:induction false} LastChange(ops: seq<Op>, first: nat, k: nat) returns (l: nat)
    requires first <= k && Changed(ops, first)
    ensures first <= l <= k && Changed(ops, l)
    ensures forall j {:trigger Changed(ops, j)} :: l < j <= k ==> !Changed(ops, j)
    decreases k - first
  {
    if Changed(ops, k) {
      l := k;
    } else {
      l := LastChange(ops, first, k - 1);
    }
  }

  /** Every operation of a group's hunk is near a change. */
  lemma GroupIsNear(ops: seq<Op>, g: Group, k: nat)
    requires IsGroup(ops, g) && StartOf(g) <= k < EndOf(g, |ops|)
    ensures Near(ops, k)
  {
    if k <= g.first {
      assert k - 3 <= g.first <= k + 3 && Changed(ops, g.first);
    } else if k >= g.last {
      assert k - 3 <= g.last <= k + 3 && Changed(ops, g.last);
    } else {
      var l := LastChange(ops, g.first, k);
      assert Follows(ops, l, g.last);
      var next :| l < next <= g.last && next <= l + 7 && Changed(ops, next);
      assert k < next;
      assert if k - l <= 3 then k - 3 <= l <= k + 3 else k - 3 <= next <= k + 3;
    }
  }

  /** The changes before `from` are out of reach of the operations from `start` on. */
  ghost predicate OutOfReach(ops: seq<Op>, from: nat, start: nat) {
    forall l {:trigger Changed(ops, l)} :: l < from && Changed(ops, l) ==> l + 3 < start
  }

  lemma GapIsFar(ops: seq<Op>, groups: seq<Group>, from: nat, start: nat, k: nat)
    requires Grouping(ops, groups, from) && OutOfReach(ops, from, start) && start <= k
    requires groups != [] ==> k < StartOf(groups[0])
    ensures !Near(ops, k)
  {
  }

  /** One group further: its hunk ends before the next one starts. */
  lemma NextGroup(ops: seq<Op>, groups: seq<Group>, from: nat)
    requires Grouping(ops, groups, from) && groups != []
    ensures
      var g := groups[0];
      && IsGroup(ops, g) && Grouping(ops, groups[1..], g.last + 1) && StartOf(g) < EndOf(g, |ops|) <= |ops|
      && (EndOf(g, |ops|) < |ops| ==> OutOfReach(ops, g.last + 1, EndOf(g, |ops|)))
      && (|groups| > 1 ==> EndOf(g, |ops|) < StartOf(groups[1]) && EndOf(g, |ops|) < |ops| && !Changed(ops, EndOf(g, |ops|)))
      && (EndOf(g, |ops|) == |ops| ==> groups[1..] == [])
  {
    var g := groups[0];
    GroupBounds(ops, g);
    if |groups| > 1 {
      assert groups[1..][0] == groups[1];
      assert Changed(ops, groups[1].first);
    }
  }

  lemma {:induction false} GroupsShow<T>(ops: seq<Op>, a: seq<T>, b: seq<T>, groups: seq<Group>, from: nat, start: nat)
    requires Ordered(ops, |a|, |b|) && Grouping(ops, groups, from) && start <= |ops|
    requires start < |ops| ==> OutOfReach(ops, from, start)
    requires groups != [] ==> start <= StartOf(groups[0])
    ensures Bodies(HunksOf(ops, a, b, groups, from)) == Shown(ops, a, b, start, |ops|)
    decreases |groups|
  {
    if groups == [] {
      NoneLeft(ops, a, b, from, start);
    } else {
      NextGroup(ops, groups, from);
      hide *;
      FirstGroupShows(ops, a, b, groups, from, start);
      GroupsShow(ops, a, b, groups[1..], groups[0].last + 1, EndOf(groups[0], |ops|));
      HunksOfCons(ops, a, b, groups, from);
      BodiesCons(HunksOf(ops, a, b, groups, from));
      BodyIsShown(ops, a, b, StartOf(groups[0]), EndOf(groups[0], |ops|));
    }
  }

  lemma NoneLeft<T>(ops: seq<Op>, a: seq<T>, b: seq<T>, from: nat, start: nat)
    requires Ordered(ops, |a|, |b|) && Grouping(ops, [], from) && start <= |ops|
    requires start < |ops| ==> OutOfReach(ops, from, start)
    ensures Bodies(HunksOf(ops, a, b, [], from)) == Shown(ops, a, b, start, |ops|)
  {
    forall k | start <= k < |ops|
      ensures !Near(ops, k)
    {
      GapIsFar(ops, [], from, start, k);
    }
    hide Ordered, Near, Grouping, Shown, OutOfReach;
    NoneShown(ops, a, b, start, |ops|);
  }

  lemma BodiesCons<T>(hunks: seq<Hunk<T>>)
    requires hunks != []
    ensures Bodies(hunks) == hunks[0].body + Bodies(hunks[1..])
  {
  }

  lemma BodyIsShown<T>(ops: seq<Op>, a: seq<T>, b: seq<T>, start: nat, end: nat)
    requires start <= end <= |ops| && Ordered(ops, |a|, |b|)
    ensures HunkOf(ops, a, b, start, end).body == BodyOf(ops, a, b, start, end)
  {
    hide Ordered, BodyOf, CountA, CountB;
  }

  /** From `start` the first group's hunk is shown, and then what follows it. */
  lemma FirstGroupShows<T>(ops: seq<Op>, a: seq<T>, b: seq<T>, groups: seq<Group>, from: nat, start: nat)
    requires Ordered(ops, |a|, |b|) && Grouping(ops, groups, from) && groups != [] && start <= StartOf(groups[0])
    requires start < |ops| ==> OutOfReach(ops, from, start)
    ensures StartOf(groups[0]) <= EndOf(groups[0], |ops|) <= |ops|
    ensures
      var first, end := StartOf(groups[0]), EndOf(groups[0], |ops|);
      Shown(ops, a, b, start, |ops|) == BodyOf(ops, a, b, first, end) + Shown(ops, a, b, end, |ops|)
  {
    var g, first, end := groups[0], StartOf(groups[0]), EndOf(groups[0], |ops|);
    NextGroup(ops, groups, from);
    hide *;
    forall k | start <= k < first
      ensures !Near(ops, k)
    {
      GapIsFar(ops, groups, from, start, k);
    }
    forall k | first <= k < end
      ensures Near(ops, k)
    {
      GroupIsNear(ops, g, k);
    }
    NoneShown(ops, a, b, start, first);
    AllShown(ops, a, b, first, end);
    ShownSplits(ops, a, b, start, first, |ops|);
    ShownSplits(ops, a, b, first, end, |ops|);
  }

  /** The hunks of a script show, in order, exactly the lines that are changes or no more than three
      operations from one: three lines of context, fewer only at the ends of the file. */
  lemma HunksShowContext<T>(ops: seq<Op>, a: seq<T>, b: seq<T>, groups: seq<Group>)
    requires Ordered(ops, |a|, |b|) && Grouping(ops, groups, 0)
    ensures Bodies(HunksOf(ops, a, b, groups, 0)) == Shown(ops, a, b, 0, |ops|)
  {
    GroupsShow(ops, a, b, groups, 0, 0);
  }

  /** At least one line of either side lies between two hunks. */
  predicate Apart<T>(g: Hunk<T>, h: Hunk<T>) {
    g.aPos + g.aLen < h.aPos && g.bPos + g.bLen < h.bPos
  }

  predicate ShowsChange<T>(h: Hunk<T>) {
    exists j :: 0 <= j < |h.body| && !h.body[j].kind.Context?
  }

  lemma FirstHunk<T>(ops: seq<Op>, a: seq<T>, b: seq<T>, groups: seq<Group>, from: nat)
    requires Ordered(ops, |a|, |b|) && Grouping(ops, groups, from) && groups != []
    ensures
      var hunks := HunksOf(ops, a, b, groups, from);
      |hunks| == |groups| && ShowsChange(hunks[0]) && (|hunks| > 1 ==> Apart(hunks[0], hunks[1]))
  {
    var g := groups[0];
    NextGroup(ops, groups, from);
    GroupBounds(ops, g);
    assert Changed(ops, g.first);
    hide Ordered, Grouping, IsGroup, BodyOf, StartOf, EndOf, OutOfReach, Changed;
    HunksOfCons(ops, a, b, groups, from);
    ChangeInBody(ops, a, b, StartOf(g), EndOf(g, |ops|), g.first);
    if |groups| > 1 {
      HunksOfCons(ops, a, b, groups[1..], g.last + 1);
      GapBetween(ops, EndOf(g, |ops|), StartOf(groups[1]));
      hide HunksOf, CountA, CountB;
      assert HunksOf(ops, a, b, groups, from)[1] == HunksOf(ops, a, b, groups, from)[1..][0];
    }
  }

  /** Between two hunks at least one line of either side is left out: lines shown next to each other are in
      one hunk. And every hunk shows a change. */
  lemma {:induction false} HunksAreApart<T>(ops: seq<Op>, a: seq<T>, b: seq<T>, groups: seq<Group>, from: nat)
    requires Ordered(ops, |a|, |b|) && Grouping(ops, groups, from)
    ensures
      var hunks := HunksOf(ops, a, b, groups, from);
      && (forall i :: 0 < i < |hunks| ==> Apart(hunks[i - 1], hunks[i]))
      && (forall i :: 0 <= i < |hunks| ==> ShowsChange(hunks[i]))
    decreases |groups|
  {
    if groups != [] {
      var g := groups[0];
      NextGroup(ops, groups, from);
      hide *;
      FirstHunk(ops, a, b, groups, from);
      HunksOfCons(ops, a, b, groups, from);
      HunksAreApart(ops, a, b, groups[1..], g.last + 1);
      var hunks, rest := HunksOf(ops, a, b, groups, from), HunksOf(ops, a, b, groups[1..], g.last + 1);
      assert hunks == [hunks[0]] + rest;
    } else {
      NoHunks(ops, a, b, from);
    }
  }

  lemma NoHunks<T>(ops: seq<Op>, a: seq<T>, b: seq<T>, from: nat)
    requires Ordered(ops, |a|, |b|) && Grouping(ops, [], from)
    ensures HunksOf(ops, a, b, [], from) == []
  {
  }

  lemma GapBetween(ops: seq<Op>, end: nat, start: nat)
    requires end < start <= |ops| && end < |ops| && !Changed(ops, end)
    ensures CountA(ops, end) < CountA(ops, start) && CountB(ops, end) < CountB(ops, start)
  {
    CountsGrow(ops, end + 1, start);
  }

  lemma {:induction false} ChangeInBody<T>(ops: seq<Op>, a: seq<T>, b: seq<T>, start: nat, end: nat, k: nat)
    requires start <= k < end <= |ops| && Ordered(ops, |a|, |b|) && Changed(ops, k)
    ensures exists j :: 0 <= j < |BodyOf(ops, a, b, start, end)| && !BodyOf(ops, a, b, start, end)[j].kind.Context?
    decreases k - start
  {
    var body, rest := BodyOf(ops, a, b, start, end), BodyOf(ops, a, b, start + 1, end);
    assert InPlace(ops, |a|, |b|, start);
    hide Ordered;
    if start == k {
      assert !body[0].kind.Context?;
    } else {
      ChangeInBody(ops, a, b, start + 1, end, k);
      var j :| 0 <= j < |rest| && !rest[j].kind.Context?;
      assert body[j + 1] == rest[j];
    }
  }
}
