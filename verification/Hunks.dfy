/** The hunk printer: changes are collected, grouped and printed with their context. */
module Hunks {
  import opened EditGraph
  import opened TextLines
  import opened Patch
  import opened PatchText

  /** Positions of the changes among the first `limit` operations, in order. */
  ghost predicate ChangesBefore(ops: seq<Op>, changed: seq<nat>, limit: int) {
    && (forall t :: 0 <= t < |changed| ==> Changed(ops, changed[t]) && changed[t] < limit)
    && (forall t, u :: 0 <= t < u < |changed| ==> changed[t] < changed[u])
    && (forall k {:trigger Changed(ops, k)} :: k < limit && Changed(ops, k) ==> k in changed)
  }

  method CollectChanges(ops: seq<Op>) returns (changed: seq<nat>)
    ensures ChangesBefore(ops, changed, |ops|)
  {
    changed := [];
    for i := 0 to |ops|
      invariant ChangesBefore(ops, changed, i)
    {
      ghost var before := changed;
      if !ops[i].Equal? {
        assert Changed(ops, i);
        changed := changed + [i];
        assert changed[|changed| - 1] == i;
      }
      assert forall t :: 0 <= t < |before| ==> changed[t] == before[t];
    }
  }

  // ----- grouping a longer and longer prefix -----

  /** `q` is `p`, then unchanged operations, then one change. */
  ghost predicate OneMoreChange(p: seq<Op>, q: seq<Op>) {
    && p < q && Changed(q, |q| - 1)
    && (forall k {:trigger Changed(q, k)} :: |p| <= k < |q| - 1 ==> !Changed(q, k))
  }

  lemma FollowsInLonger(p: seq<Op>, q: seq<Op>, k: int, last: int, last': int)
    requires p <= q && last <= last' && Follows(p, k, last)
    ensures Follows(q, k, last')
  {
    var l :| k < l <= last && l <= k + 2 * CONTEXT + 1 && Changed(p, l);
    assert Changed(q, l);
  }

  lemma FollowsWithin(q: seq<Op>, k: int, l: int)
    requires k < l <= k + 2 * CONTEXT + 1 && Changed(q, l)
    ensures Follows(q, k, l)
  {
  }

  lemma GroupInLonger(p: seq<Op>, q: seq<Op>, g: Group)
    requires p <= q && IsGroup(p, g)
    ensures IsGroup(q, g)
  {
    hide Follows;
    assert Changed(p, g.first) && Changed(p, g.last);
    assert Changed(q, g.first) && Changed(q, g.last);
    forall k {:trigger Changed(q, k)} | g.first <= k < g.last && Changed(q, k)
      ensures Follows(q, k, g.last)
    {
      assert Changed(p, k);
      FollowsInLonger(p, q, k, g.last, g.last);
    }
  }

  lemma GroupGrows(p: seq<Op>, q: seq<Op>, g: Group)
    requires OneMoreChange(p, q) && IsGroup(p, g)
    requires forall k {:trigger Changed(p, k)} :: g.last < k ==> !Changed(p, k)
    requires |q| - 1 <= g.last + 2 * CONTEXT + 1
    ensures IsGroup(q, Group(g.first, |q| - 1))
  {
    hide Follows;
    assert Changed(p, g.first) && Changed(p, g.last);
    assert Changed(q, g.first) && Changed(q, g.last);
    forall k {:trigger Changed(q, k)} | g.first <= k < |q| - 1 && Changed(q, k)
      ensures Follows(q, k, |q| - 1)
    {
      assert Changed(p, k);
      if k < g.last {
        FollowsInLonger(p, q, k, g.last, |q| - 1);
      } else {
        FollowsWithin(q, k, |q| - 1);
      }
    }
  }

  /** A change near the last group joins it; one further away begins a group of its own. */
  function AddChange(groups: seq<Group>, i: nat): seq<Group> {
    if groups != [] && i <= groups[|groups| - 1].last + 2 * CONTEXT + 1
    then groups[..|groups| - 1] + [groups[|groups| - 1].(last := i)]
    else groups + [Group(i, i)]
  }

  lemma SingleGroup(p: seq<Op>, q: seq<Op>, from: nat)
    requires OneMoreChange(p, q) && Grouping(p, [], from) && from <= |p|
    ensures Grouping(q, [Group(|q| - 1, |q| - 1)], from)
  {
    var g := Group(|q| - 1, |q| - 1);
    forall k {:trigger Changed(q, k)} | from <= k < g.first
      ensures !Changed(q, k)
    {
      if k < |p| {
        assert !Changed(p, k);
      }
    }
    assert [g][1..] == [];
  }

  lemma {:induction false} GroupingGrows(p: seq<Op>, q: seq<Op>, groups: seq<Group>, from: nat)
    requires OneMoreChange(p, q) && Grouping(p, groups, from) && from <= |p|
    ensures Grouping(q, AddChange(groups, |q| - 1), from)
    decreases |groups|
  {
    hide OneMoreChange, IsGroup;
    var i := |q| - 1;
    if groups == [] {
      SingleGroup(p, q, from);
    } else {
      var g := groups[0];
      GroupParts(p, q, groups, from);
      hide Grouping;
      if |groups| == 1 && i <= g.last + 2 * CONTEXT + 1 {
        GroupGrows(p, q, g);
        NothingAfter(q, i + 1);
        GroupingCons(q, Group(g.first, i), [], from);
      } else {
        GroupingGrows(p, q, groups[1..], g.last + 1);
        AddedFirst(p, groups[1..], i, g.last + 1);
        GroupingCons(q, g, AddChange(groups[1..], i), from);
        assert AddChange(groups, i) == [g] + AddChange(groups[1..], i);
      }
    }
  }

  lemma NothingAfter(q: seq<Op>, from: nat)
    requires from >= |q|
    ensures Grouping(q, [], from)
  {
  }

  lemma GroupParts(p: seq<Op>, q: seq<Op>, groups: seq<Group>, from: nat)
    requires OneMoreChange(p, q) && Grouping(p, groups, from) && groups != []
    ensures
      var g := groups[0];
      && IsGroup(p, g) && IsGroup(q, g) && from <= g.first && g.last < |p| < |q|
      && (forall k {:trigger Changed(q, k)} :: from <= k < g.first ==> !Changed(q, k))
      && Grouping(p, groups[1..], g.last + 1)
      && (|groups| > 1 ==> g.last + 2 * CONTEXT + 1 < groups[1].first)
      && (|groups| == 1 ==> forall k {:trigger Changed(p, k)} :: g.last < k ==> !Changed(p, k))
  {
    var g := groups[0];
    assert Changed(p, g.first) && Changed(p, g.last);
    GroupInLonger(p, q, g);
    SameBefore(p, q, from, g.first);
  }

  lemma GroupingCons(q: seq<Op>, g: Group, rest: seq<Group>, from: nat)
    requires IsGroup(q, g) && from <= g.first && Grouping(q, rest, g.last + 1)
    requires forall k {:trigger Changed(q, k)} :: from <= k < g.first ==> !Changed(q, k)
    requires rest != [] ==> g.last + 2 * CONTEXT + 1 < rest[0].first
    ensures Grouping(q, [g] + rest, from)
  {
    hide IsGroup;
    assert ([g] + rest)[1..] == rest;
  }

  lemma SameBefore(p: seq<Op>, q: seq<Op>, from: nat, first: nat)
    requires p <= q && first < |p|
    requires forall k {:trigger Changed(p, k)} :: from <= k < first ==> !Changed(p, k)
    ensures forall k {:trigger Changed(q, k)} :: from <= k < first ==> !Changed(q, k)
  {
    forall k {:trigger Changed(q, k)} | from <= k < first
      ensures !Changed(q, k)
    {
      assert !Changed(p, k);
    }
  }

  lemma AddedFirst(p: seq<Op>, groups: seq<Group>, i: nat, from: nat)
    requires Grouping(p, groups, from)
    ensures AddChange(groups, i) != []
    ensures AddChange(groups, i)[0].first == if groups == [] then i else groups[0].first
  {
  }

  /** The groups of a script's changes, told from one operation after the other. */
  function GroupsOf(ops: seq<Op>): seq<Group> {
    if ops == [] then []
    else
      var n := |ops| - 1;
      if ops[n].Equal? then GroupsOf(ops[..n]) else AddChange(GroupsOf(ops[..n]), n)
  }

  /** Every script's changes can be grouped. */
  lemma {:induction false} GroupsOfIsGrouping(ops: seq<Op>)
    ensures Grouping(ops, GroupsOf(ops), 0)
    decreases |ops|
  {
    hide Grouping;
    if ops == [] {
      NothingAfter(ops, 0);
    } else {
      var n := |ops| - 1;
      GroupsOfIsGrouping(ops[..n]);
      if ops[n].Equal? {
        GroupingOfAll(ops, GroupsOf(ops[..n]), 0, n);
      } else {
        GroupingGrows(ops[..n], ops, GroupsOf(ops[..n]), 0);
      }
    }
  }

  method GroupChanges(ops: seq<Op>, changed: seq<nat>) returns (groups: seq<Group>)
    requires ChangesBefore(ops, changed, |ops|)
    ensures Grouping(ops, groups, 0)
  {
    hide Grouping, ChangesBefore, OneMoreChange;
    groups := [];
    ghost var done := 0;
    NothingAfter(ops[..0], 0);
    for t := 0 to |changed|
      invariant done == (if t == 0 then 0 else changed[t - 1] + 1) && done <= |ops|
      invariant Grouping(ops[..done], groups, 0)
    {
      var i := changed[t];
      NextChange(ops, changed, t);
      GroupingGrows(ops[..done], ops[..i + 1], groups, 0);
      if groups != [] && i <= groups[|groups| - 1].last + 2 * CONTEXT + 1 {
        groups := groups[..|groups| - 1] + [groups[|groups| - 1].(last := i)];
      } else {
        groups := groups + [Group(i, i)];
      }
      done := i + 1;
    }
    NoMoreChanges(ops, changed, done);
    GroupingOfAll(ops, groups, 0, done);
  }

  lemma NextChange(ops: seq<Op>, changed: seq<nat>, t: nat)
    requires ChangesBefore(ops, changed, |ops|) && t < |changed|
    ensures
      var done := if t == 0 then 0 else changed[t - 1] + 1;
      done <= changed[t] < |ops| && OneMoreChange(ops[..done], ops[..changed[t] + 1])
  {
    var done := if t == 0 then 0 else changed[t - 1] + 1;
    var q := ops[..changed[t] + 1];
    assert Changed(ops, changed[t]);
    forall k {:trigger Changed(q, k)} | done <= k < |q| - 1
      ensures !Changed(q, k)
    {
      assert Changed(q, k) ==> Changed(ops, k) && k in changed;
    }
  }

  lemma NoMoreChanges(ops: seq<Op>, changed: seq<nat>, done: nat)
    requires ChangesBefore(ops, changed, |ops|)
    requires done == if changed == [] then 0 else changed[|changed| - 1] + 1
    ensures forall k {:trigger Changed(ops, k)} :: done <= k ==> !Changed(ops, k)
  {
    forall k {:trigger Changed(ops, k)} | done <= k
      ensures !Changed(ops, k)
    {
      assert Changed(ops, k) ==> k in changed;
    }
  }

  lemma {:induction false} GroupingOfAll(ops: seq<Op>, groups: seq<Group>, from: nat, done: nat)
    requires done <= |ops| && Grouping(ops[..done], groups, from)
    requires forall k {:trigger Changed(ops, k)} :: done <= k ==> !Changed(ops, k)
    ensures Grouping(ops, groups, from)
    decreases |groups|
  {
    var p := ops[..done];
    if groups == [] {
      forall k {:trigger Changed(ops, k)} | from <= k
        ensures !Changed(ops, k)
      {
        if k < done {
          assert !Changed(p, k);
        }
      }
    } else {
      var g := groups[0];
      assert Changed(p, g.first) && Changed(p, g.last);
      GroupInLonger(p, ops, g);
      SameBefore(p, ops, from, g.first);
      GroupingOfAll(ops, groups[1..], g.last + 1, done);
    }
  }

  // ----- printing -----

  lemma {:induction false} ShowBodySnoc(body: seq<Entry<Line>>, e: Entry<Line>)
    ensures ShowBody(body + [e]) == ShowBody(body) + ShowEntry(e)
    decreases |body|
  {
    hide ShowEntry;
    if body == [] {
      assert body + [e] == [e] && [e][1..] == [];
    } else {
      assert (body + [e])[1..] == body[1..] + [e];
      ShowBodySnoc(body[1..], e);
    }
  }

  lemma {:induction false} ShowHunksSnoc(hunks: seq<Hunk<Line>>, h: Hunk<Line>)
    ensures ShowHunks(hunks + [h]) == ShowHunks(hunks) + ShowHunk(h)
    decreases |hunks|
  {
    hide ShowHunk;
    if hunks == [] {
      assert hunks + [h] == [h] && [h][1..] == [];
    } else {
      assert (hunks + [h])[1..] == hunks[1..] + [h];
      ShowHunksSnoc(hunks[1..], h);
    }
  }

  lemma {:induction false} BodySnoc<T>(ops: seq<Op>, a: seq<T>, b: seq<T>, start: nat, end: nat)
    requires start <= end < |ops| && Ordered(ops, |a|, |b|)
    ensures InPlace(ops, |a|, |b|, end)
    ensures BodyOf(ops, a, b, start, end + 1) == BodyOf(ops, a, b, start, end) + [EntryOf(ops[end], a, b)]
    decreases end - start
  {
    assert InPlace(ops, |a|, |b|, end);
    hide Ordered, EntryOf, InPlace;
    if start < end {
      BodySnoc(ops, a, b, start + 1, end);
    }
  }

  /** Lines of both sides before operation `start`. */
  method Positions(ops: seq<Op>, start: nat) returns (aPos: nat, bPos: nat)
    requires start <= |ops|
    ensures aPos == CountA(ops, start) && bPos == CountB(ops, start)
  {
    aPos, bPos := 0, 0;
    for i := 0 to start
      invariant aPos == CountA(ops, i) && bPos == CountB(ops, i)
    {
      match ops[i]
      case Equal(_, _) => aPos, bPos := aPos + 1, bPos + 1;
      case Delete(_) => aPos := aPos + 1;
      case Insert(_) => bPos := bPos + 1;
    }
  }

  /** The lines of both sides that the operations `start .. end - 1` span. */
  method Lengths(ops: seq<Op>, start: nat, end: nat) returns (aLen: nat, bLen: nat)
    requires start <= end <= |ops|
    ensures aLen == CountA(ops, end) - CountA(ops, start) && bLen == CountB(ops, end) - CountB(ops, start)
  {
    aLen, bLen := 0, 0;
    for i := start to end
      invariant aLen == CountA(ops, i) - CountA(ops, start) && bLen == CountB(ops, i) - CountB(ops, start)
    {
      aLen := aLen + if ops[i].Insert? then 0 else 1;
      bLen := bLen + if ops[i].Delete? then 0 else 1;
    }
  }

  /** Append the body lines of one hunk. An `Equal` takes its line and its newline mark from the
      base side alone. */
  method AppendBody(ops: seq<Op>, a: Lines, b: Lines, start: nat, end: nat, out0: string) returns (out: string)
    requires start <= end <= |ops| && Ordered(ops, |a.lines|, |b.lines|)
    ensures out == out0 + ShowBody(BodyOf(ops, Marked(a), Marked(b), start, end))
  {
    hide Ordered, ShowBody, BodyOf, EntryOf, ShowEntry, CountA, CountB;
    out := out0;
    EmptyBody(ops, Marked(a), Marked(b), start);
    for i := start to end
      invariant out == out0 + ShowBody(BodyOf(ops, Marked(a), Marked(b), start, i))
    {
      BodySnoc(ops, Marked(a), Marked(b), start, i);
      ShowBodySnoc(BodyOf(ops, Marked(a), Marked(b), start, i), EntryOf(ops[i], Marked(a), Marked(b)));
      var text := EntryText(ops, a, b, i);
      out := out + text;
    }
  }

  lemma EmptyBody<T>(ops: seq<Op>, a: seq<T>, b: seq<T>, start: nat)
    requires start <= |ops| && Ordered(ops, |a|, |b|)
    ensures BodyOf(ops, a, b, start, start) == [] && ShowBody([]) == []
  {
  }

  method EntryText(ops: seq<Op>, a: Lines, b: Lines, i: nat) returns (text: string)
    requires i < |ops| && InPlace(ops, |a.lines|, |b.lines|, i)
    ensures text == ShowEntry(EntryOf(ops[i], Marked(a), Marked(b)))
  {
    var prefix, line, last, newline;
    match ops[i] {
      case Equal(p, _) =>
        prefix, line, last, newline := ' ', a.lines[p], p + 1 == |a.lines|, a.trailingNewline;
      case Delete(p) =>
        prefix, line, last, newline := '-', a.lines[p], p + 1 == |a.lines|, a.trailingNewline;
      case Insert(q) =>
        prefix, line, last, newline := '+', b.lines[q], q + 1 == |b.lines|, b.trailingNewline;
    }
    text := [prefix] + line + "\n";
    if last && !newline {
      text := text + MARKER;
    }
  }

  method AppendHunk(ops: seq<Op>, a: Lines, b: Lines, g: Group, out0: string) returns (out: string)
    requires Ordered(ops, |a.lines|, |b.lines|) && IsGroup(ops, g)
    ensures StartOf(g) <= EndOf(g, |ops|) <= |ops|
    ensures out == out0 + ShowHunk(HunkOf(ops, Marked(a), Marked(b), StartOf(g), EndOf(g, |ops|)))
  {
    hide Ordered, IsGroup, ShowBody, ShowHeader, BodyOf, CountA, CountB, HunkOf, ShowHunk;
    GroupBounds(ops, g);
    var start := if g.first < CONTEXT then 0 else g.first - CONTEXT;
    var end := (if g.last + CONTEXT < |ops| - 1 then g.last + CONTEXT else |ops| - 1) + 1;
    CountsGrow(ops, start, end);
    var aPos, bPos := Positions(ops, start);
    var aLen, bLen := Lengths(ops, start, end);
    var header := ShowHeader(aPos, aLen, bPos, bLen);
    out := AppendBody(ops, a, b, start, end, out0 + header);
    ShowHunkOf(ops, a, b, start, end, header);
    ghost var body := ShowBody(BodyOf(ops, Marked(a), Marked(b), start, end));
    assert out0 + header + body == out0 + (header + body);
  }

  lemma GroupBounds(ops: seq<Op>, g: Group)
    requires IsGroup(ops, g)
    ensures StartOf(g) <= g.first <= g.last < EndOf(g, |ops|) <= |ops|
  {
    assert Changed(ops, g.first) && Changed(ops, g.last);
  }

  lemma ShowHunkOf(ops: seq<Op>, a: Lines, b: Lines, start: nat, end: nat, header: string)
    requires start <= end <= |ops| && Ordered(ops, |a.lines|, |b.lines|)
    requires CountA(ops, start) <= CountA(ops, end) && CountB(ops, start) <= CountB(ops, end)
    requires header == ShowHeader(CountA(ops, start), CountA(ops, end) - CountA(ops, start),
                                  CountB(ops, start), CountB(ops, end) - CountB(ops, start))
    ensures ShowHunk(HunkOf(ops, Marked(a), Marked(b), start, end))
         == header + ShowBody(BodyOf(ops, Marked(a), Marked(b), start, end))
  {
    hide Ordered, ShowBody, ShowHeader, BodyOf, CountA, CountB;
  }

  lemma NoChange(ops: seq<Op>, groups: seq<Group>, from: nat)
    requires Grouping(ops, [], from) && Grouping(ops, groups, from)
    ensures groups == []
  {
  }

  /** A group cannot stop short of another that begins with it: the other would hold a change too far
      from its last one. */
  lemma LastIsNoLater(ops: seq<Op>, g: Group, groups: seq<Group>, from: nat)
    requires Grouping(ops, groups, from) && groups != [] && IsGroup(ops, g) && g.first == groups[0].first
    ensures g.last <= groups[0].last
  {
    hide StartOf, EndOf;
    var h := groups[0];
    assert Changed(ops, h.last) && Grouping(ops, groups[1..], h.last + 1);
    assert |groups| > 1 ==> groups[1..][0] == groups[1];
    assert h.last < g.last ==> Follows(ops, h.last, g.last);
  }

  lemma SameFirst(ops: seq<Op>, groups: seq<Group>, groups': seq<Group>, from: nat)
    requires Grouping(ops, groups, from) && Grouping(ops, groups', from) && groups != [] && groups' != []
    ensures groups[0].first == groups'[0].first && IsGroup(ops, groups[0]) && IsGroup(ops, groups'[0])
    ensures Grouping(ops, groups[1..], groups[0].last + 1) && Grouping(ops, groups'[1..], groups'[0].last + 1)
  {
    assert Changed(ops, groups[0].first) && Changed(ops, groups'[0].first);
  }

  /** A script's changes can be grouped in one way only, so the printed text depends on the script
      alone. */
  lemma {:induction false} GroupingIsUnique(ops: seq<Op>, groups: seq<Group>, groups': seq<Group>, from: nat)
    requires Grouping(ops, groups, from) && Grouping(ops, groups', from)
    ensures groups == groups'
    decreases |groups|
  {
    hide *;
    if groups == [] {
      NoChange(ops, groups', from);
    } else if groups' == [] {
      NoChange(ops, groups, from);
    } else {
      SameFirst(ops, groups, groups', from);
      LastIsNoLater(ops, groups[0], groups', from);
      LastIsNoLater(ops, groups'[0], groups, from);
      assert groups[0] == groups'[0];
      GroupingIsUnique(ops, groups[1..], groups'[1..], groups[0].last + 1);
      assert groups == [groups[0]] + groups[1..] && groups' == [groups'[0]] + groups'[1..];
    }
  }

  /** Append the unified hunks of a script. */
  method AppendHunks(ops: seq<Op>, a: Lines, b: Lines, out0: string)
    returns (out: string)
    requires Ordered(ops, |a.lines|, |b.lines|)
    ensures Grouping(ops, GroupsOf(ops), 0)
    ensures out == out0 + ShowHunks(HunksOf(ops, Marked(a), Marked(b), GroupsOf(ops), 0))
    ensures forall gs :: Grouping(ops, gs, 0) ==> gs == GroupsOf(ops)
  {
    hide Ordered, Grouping, GroupsOf, HunksOf, ShowHunks, ShowHunk, HunkOf, IsGroup;
    out := out0;
    var changed := CollectChanges(ops);
    var groups := GroupChanges(ops, changed);
    GroupsOfIsGrouping(ops);
    ghost var hunks := HunksOf(ops, Marked(a), Marked(b), groups, 0);
    HunksOfLength(ops, Marked(a), Marked(b), groups, 0);
    ShowNothing();
    for t := 0 to |groups|
      invariant out == out0 + ShowHunks(hunks[..t])
    {
      HunkAt(ops, Marked(a), Marked(b), groups, 0, t);
      ShowHunksSnoc(hunks[..t], hunks[t]);
      assert hunks[..t + 1] == hunks[..t] + [hunks[t]];
      out := AppendHunk(ops, a, b, groups[t], out);
    }
    assert hunks[..|groups|] == hunks;
    forall other | Grouping(ops, other, 0)
      ensures other == groups
    {
      GroupingIsUnique(ops, groups, other, 0);
    }
  }

  lemma ShowNothing()
    ensures ShowHunks([]) == []
  {
  }

  lemma {:induction false} HunkAt<T>(ops: seq<Op>, a: seq<T>, b: seq<T>, groups: seq<Group>, from: nat, t: nat)
    requires Ordered(ops, |a|, |b|) && Grouping(ops, groups, from) && t < |groups|
    ensures IsGroup(ops, groups[t]) && StartOf(groups[t]) <= EndOf(groups[t], |ops|) <= |ops|
    ensures |HunksOf(ops, a, b, groups, from)| == |groups|
    ensures HunksOf(ops, a, b, groups, from)[t] == HunkOf(ops, a, b, StartOf(groups[t]), EndOf(groups[t], |ops|))
    decreases t
  {
    hide Ordered, HunksOf, HunkOf, StartOf, EndOf, IsGroup;
    HunksOfCons(ops, a, b, groups, from);
    if t > 0 {
      HunkAt(ops, a, b, groups[1..], groups[0].last + 1, t - 1);
      assert HunksOf(ops, a, b, groups, from)[t] == HunksOf(ops, a, b, groups, from)[1..][t - 1];
    }
  }
}
