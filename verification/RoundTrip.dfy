/** When exactly a printed diff reproduces a text, told from the two texts alone, and in both directions. */
module RoundTrip {
  import opened Wrappers
  import opened EditGraph
  import opened TextLines
  import opened Patch
  import opened PatchText
  import opened Hunks
  import opened Render
  import opened DiffReader

  // ----- from the texts alone -----

  predicate Unmarked(l: Lines, i: nat)
    requires i < |l.lines|
  {
    MarkedLine(l, i).unterminated
  }

  /** No line of one side has the text of a line of the other but not its newline. */
  predicate MarksAgree(a: Lines, b: Lines) {
    forall i, j {:trigger Unmarked(a, i), Unmarked(b, j)} ::
      0 <= i < |a.lines| && 0 <= j < |b.lines| && a.lines[i] == b.lines[j] ==> Unmarked(a, i) == Unmarked(b, j)
  }

  ghost predicate Reproduces(ops: seq<Op>, s: string, t: string, groups: seq<Group>) {
    Script(ops, LinesOf(s).lines, LinesOf(t).lines) && Grouping(ops, groups, 0) ==>
      ApplyText(Printed(ops, s, t, groups), s) == Some(t)
  }

  lemma CopiesMatch<T>(ops: seq<Op>, a: seq<T>, b: seq<T>, k: nat)
    requires Script(ops, a, b) && k < |ops| && ops[k].Equal?
    ensures Matches(a, b, ops[k].base, ops[k].modified)
  {
    assert ops[0..] == ops;
    ScriptIsOrdered(ops, a, b, 0);
  }

  lemma AgreeingMarks(ops: seq<Op>, a: Lines, b: Lines)
    requires Script(ops, a.lines, b.lines) && MarksAgree(a, b)
    ensures NewlinesAgree(ops, a, b)
  {
    hide Script, MarksAgree;
    forall k | 0 <= k < |ops| && ops[k].Equal?
      ensures (ops[k].base + 1 == |a.lines| && !a.trailingNewline) <==>
              (ops[k].modified + 1 == |b.lines| && !b.trailingNewline)
    {
      CopiesMatch(ops, a.lines, b.lines, k);
      SameMark(a, b, ops[k].base, ops[k].modified);
    }
  }

  lemma SameMark(a: Lines, b: Lines, i: nat, j: nat)
    requires MarksAgree(a, b) && Matches(a.lines, b.lines, i, j)
    ensures Unmarked(a, i) == Unmarked(b, j)
  {
  }

  // A script that copies one given pair of lines and nothing else.

  function Deletes(i: nat, n: nat): seq<Op>
    decreases n - i
  {
    if i >= n then [] else [Delete(i)] + Deletes(i + 1, n)
  }

  function Inserts(j: nat, m: nat): seq<Op>
    decreases m - j
  {
    if j >= m then [] else [Insert(j)] + Inserts(j + 1, m)
  }

  lemma DeletesStep(i: nat, n: nat)
    ensures Deletes(i, n) == if i >= n then [] else [Delete(i)] + Deletes(i + 1, n)
  {
  }

  lemma InsertsStep(j: nat, m: nat)
    ensures Inserts(j, m) == if j >= m then [] else [Insert(j)] + Inserts(j + 1, m)
  {
  }

  lemma {:induction false} WalkDeletes<T>(a: seq<T>, b: seq<T>, i: nat, n: nat, j: nat, rest: seq<Op>)
    requires i <= n <= |a| && Walk(rest, a, b, n, j)
    ensures Walk(Deletes(i, n) + rest, a, b, i, j)
    decreases n - i
  {
    DeletesStep(i, n);
    hide Walk, Deletes;
    if i == n {
      assert Deletes(i, n) + rest == rest;
    } else {
      WalkDeletes(a, b, i + 1, n, j, rest);
      WalkCons(Delete(i), Deletes(i + 1, n) + rest, a, b, i, j);
      assert Deletes(i, n) + rest == [Delete(i)] + (Deletes(i + 1, n) + rest);
    }
  }

  lemma {:induction false} WalkInserts<T>(a: seq<T>, b: seq<T>, i: nat, j: nat, m: nat, rest: seq<Op>)
    requires j <= m <= |b| && Walk(rest, a, b, i, m)
    ensures Walk(Inserts(j, m) + rest, a, b, i, j)
    decreases m - j
  {
    InsertsStep(j, m);
    hide Walk, Inserts;
    if j == m {
      assert Inserts(j, m) + rest == rest;
    } else {
      WalkInserts(a, b, i, j + 1, m, rest);
      WalkCons(Insert(j), Inserts(j + 1, m) + rest, a, b, i, j);
      assert Inserts(j, m) + rest == [Insert(j)] + (Inserts(j + 1, m) + rest);
    }
  }

  lemma CopyOnePair<T>(a: seq<T>, b: seq<T>, i: nat, j: nat) returns (ops: seq<Op>, k: nat)
    requires Matches(a, b, i, j)
    ensures Script(ops, a, b) && k < |ops| && ops[k] == Equal(i, j)
  {
    var after := Deletes(i + 1, |a|) + (Inserts(j + 1, |b|) + []);
    WalkInserts(a, b, |a|, j + 1, |b|, []);
    WalkDeletes(a, b, i + 1, |a|, j + 1, Inserts(j + 1, |b|) + []);
    WalkCons(Equal(i, j), after, a, b, i, j);
    hide Walk, Deletes, Inserts;
    var copy := [Equal(i, j)] + after;
    WalkInserts(a, b, i, 0, j, copy);
    WalkDeletes(a, b, 0, i, 0, Inserts(0, j) + copy);
    ops := Deletes(0, i) + (Inserts(0, j) + copy);
    k := |Deletes(0, i)| + |Inserts(0, j)|;
    assert copy[0] == Equal(i, j);
    assert ops[k] == (Inserts(0, j) + copy)[|Inserts(0, j)|];
  }

  /** Every diff of two texts, whatever its script, gives the modified text byte for byte if and only if
      no base line and modified line have the same text and different newline marks. */
  lemma RoundTripOfTexts(s: string, t: string)
    ensures MarksAgree(LinesOf(s), LinesOf(t)) <==> forall ops, groups :: Reproduces(ops, s, t, groups)
  {
    var a, b := LinesOf(s), LinesOf(t);
    if MarksAgree(a, b) {
      forall ops, groups
        ensures Reproduces(ops, s, t, groups)
      {
        RightWhereMarksAgree(ops, s, t, groups);
      }
    } else {
      var i: nat, j: nat :| i < |a.lines| && j < |b.lines| && a.lines[i] == b.lines[j] && Unmarked(a, i) != Unmarked(b, j);
      var script, grouped := WrongWhereMarksDiffer(s, t, i, j);
      assert !Reproduces(script, s, t, grouped);
    }
  }

  lemma RightWhereMarksAgree(ops: seq<Op>, s: string, t: string, groups: seq<Group>)
    requires MarksAgree(LinesOf(s), LinesOf(t))
    ensures Reproduces(ops, s, t, groups)
  {
    hide Script, Grouping, MarksAgree, NewlinesAgree, ApplyText, Printed, LinesOf;
    if Script(ops, LinesOf(s).lines, LinesOf(t).lines) && Grouping(ops, groups, 0) {
      AgreeingMarks(ops, LinesOf(s), LinesOf(t));
      TextRoundTrip(ops, s, t, groups);
    }
  }

  lemma WrongWhereMarksDiffer(s: string, t: string, i: nat, j: nat) returns (ops: seq<Op>, groups: seq<Group>)
    requires
      var a, b := LinesOf(s), LinesOf(t);
      Matches(a.lines, b.lines, i, j) && Unmarked(a, i) != Unmarked(b, j)
    ensures !Reproduces(ops, s, t, groups)
  {
    hide Script, Grouping, ApplyText, Printed, LinesOf;
    var k;
    ops, k := CopyOnePair(LinesOf(s).lines, LinesOf(t).lines, i, j);
    groups := GroupsOf(ops);
    GroupsOfIsGrouping(ops);
    TextRoundTrip(ops, s, t, groups);
  }

  // ----- shortest scripts -----

  /** As before, but only of pairs that a shortest script can copy. */
  ghost predicate ShortestMarksAgree(a: Lines, b: Lines) {
    forall i: nat, j: nat :: OnShortest(a.lines, b.lines, i, j) ==> Unmarked(a, i) == Unmarked(b, j)
  }

  lemma AgreeingMarksOnShortest(ops: seq<Op>, a: Lines, b: Lines)
    requires Script(ops, a.lines, b.lines) && Cost(ops) == EditDistance(a.lines, b.lines)
    requires ShortestMarksAgree(a, b)
    ensures NewlinesAgree(ops, a, b)
  {
    hide Script, EditDistance, ShortestMarksAgree, Cost;
    forall k | 0 <= k < |ops| && ops[k].Equal?
      ensures (ops[k].base + 1 == |a.lines| && !a.trailingNewline) <==>
              (ops[k].modified + 1 == |b.lines| && !b.trailingNewline)
    {
      CopiesOnShortest(ops, a.lines, b.lines, k);
      SameMarkOnShortest(a, b, ops[k].base, ops[k].modified);
    }
  }

  lemma SameMarkOnShortest(a: Lines, b: Lines, i: nat, j: nat)
    requires ShortestMarksAgree(a, b) && OnShortest(a.lines, b.lines, i, j)
    ensures i < |a.lines| && j < |b.lines| && Unmarked(a, i) == Unmarked(b, j)
  {
    hide EditDistance, CostFrom, Dist;
  }

  /** All shortest diffs of two texts give the modified text byte for byte if and only if no pair of lines
      that some shortest script copies has different newline marks. */
  lemma RoundTripOfShortest(s: string, t: string)
    ensures ShortestMarksAgree(LinesOf(s), LinesOf(t)) <==>
      forall ops, groups :: Cost(ops) == EditDistance(LinesOf(s).lines, LinesOf(t).lines) ==> Reproduces(ops, s, t, groups)
  {
    hide Reproduces, EditDistance, CostFrom, Dist, Cost, LinesOf;
    var a, b := LinesOf(s), LinesOf(t);
    if ShortestMarksAgree(a, b) {
      forall ops, groups | Cost(ops) == EditDistance(a.lines, b.lines)
        ensures Reproduces(ops, s, t, groups)
      {
        RightOnShortest(ops, s, t, groups);
      }
    } else {
      var i: nat, j: nat :| OnShortest(a.lines, b.lines, i, j) && Unmarked(a, i) != Unmarked(b, j);
      var script, grouped := WrongOnShortest(s, t, i, j);
      assert Cost(script) == EditDistance(a.lines, b.lines) && !Reproduces(script, s, t, grouped);
    }
  }

  lemma RightOnShortest(ops: seq<Op>, s: string, t: string, groups: seq<Group>)
    requires ShortestMarksAgree(LinesOf(s), LinesOf(t))
    requires Cost(ops) == EditDistance(LinesOf(s).lines, LinesOf(t).lines)
    ensures Reproduces(ops, s, t, groups)
  {
    hide Script, Grouping, ShortestMarksAgree, NewlinesAgree, ApplyText, Printed, LinesOf, Cost, EditDistance;
    if Script(ops, LinesOf(s).lines, LinesOf(t).lines) && Grouping(ops, groups, 0) {
      AgreeingMarksOnShortest(ops, LinesOf(s), LinesOf(t));
      TextRoundTrip(ops, s, t, groups);
    }
  }

  lemma WrongOnShortest(s: string, t: string, i: nat, j: nat) returns (ops: seq<Op>, groups: seq<Group>)
    requires
      var a, b := LinesOf(s), LinesOf(t);
      OnShortest(a.lines, b.lines, i, j) && Unmarked(a, i) != Unmarked(b, j)
    ensures Cost(ops) == EditDistance(LinesOf(s).lines, LinesOf(t).lines) && !Reproduces(ops, s, t, groups)
  {
    hide Script, Grouping, ApplyText, Printed, LinesOf, Cost, EditDistance, CostFrom, Dist;
    var k;
    ops, k := ShortestThrough(LinesOf(s).lines, LinesOf(t).lines, i, j);
    groups := GroupsOf(ops);
    GroupsOfIsGrouping(ops);
    TextRoundTrip(ops, s, t, groups);
  }

  // ----- the rendered script -----

  /** The canonical script copies the lines before `(x, y)`: both its neighbours are one edit farther. */
  ghost predicate CopyLast<T>(a: seq<T>, b: seq<T>, x: nat, y: nat) {
    x > 0 && y > 0 && Dist(a, b, x, y - 1) > Dist(a, b, x, y) && Dist(a, b, x - 1, y) > Dist(a, b, x, y)
  }

  /** The last base line is copied to modified line `j`: the modified lines after `j` are inserted. */
  ghost predicate LastBaseCopied<T>(a: seq<T>, b: seq<T>, j: nat) {
    && j < |b| && CopyLast(a, b, |a|, j + 1)
    && EditDistance(a, b) == Dist(a, b, |a|, j + 1) + |b| - j - 1
  }

  /** The canonical script deletes the base line before `(x, y)`, nothing being inserted there. */
  ghost predicate DropLast<T>(a: seq<T>, b: seq<T>, x: nat, y: nat) {
    x > 0 && y > 0 && Dist(a, b, x, y - 1) > Dist(a, b, x, y) > Dist(a, b, x - 1, y)
  }

  /** The base lines from `i` on are, before the modified line. */
  ghost predicate Dropped<T>(a: seq<T>, b: seq<T>, i: nat, x: nat, y: nat) {
    forall p :: i < p <= x ==> DropLast(a, b, p, y)
  }

  /** The last modified line is copied from base line `i`: the base lines after `i` are deleted. */
  ghost predicate LastModifiedCopied<T>(a: seq<T>, b: seq<T>, i: nat) {
    i < |a| && CopyLast(a, b, i + 1, |b|) && Dropped(a, b, i + 1, |a|, |b|)
  }

  /** Which of the three operations comes last. */
  lemma LastOperation<T>(a: seq<T>, b: seq<T>, x: nat, y: nat)
    requires x > 0 || y > 0
    ensures InsertLast(a, b, x, y) ==> y > 0 && Canonical(a, b, x, y) == Canonical(a, b, x, y - 1) + [Insert(y - 1)]
    ensures DeleteLast(a, b, x, y) ==> x > 0 && Canonical(a, b, x, y) == Canonical(a, b, x - 1, y) + [Delete(x - 1)]
    ensures CopyLast(a, b, x, y) ==>
      x > 0 && y > 0 && Canonical(a, b, x, y) == Canonical(a, b, x - 1, y - 1) + [Equal(x - 1, y - 1)]
  {
    hide Dist;
  }

  lemma OneComesLast<T>(a: seq<T>, b: seq<T>, x: nat, y: nat)
    requires x > 0 || y > 0
    ensures CopyLast(a, b, x, y) <==> !InsertLast(a, b, x, y) && !DeleteLast(a, b, x, y)
    ensures DropLast(a, b, x, y) <==> DeleteLast(a, b, x, y) && y > 0
    ensures DeleteLast(a, b, x, y) ==> !InsertLast(a, b, x, y)
  {
    if !InsertLast(a, b, x, y) && !DeleteLast(a, b, x, y) {
      EqualLast(a, b, x, y);
    }
    hide Dist;
    if y > 0 {
      DistNeighbours(a, b, x, y - 1);
    }
    if x > 0 {
      DistNeighbours(a, b, x - 1, y);
    }
  }

  /** A canonical script copies only lines before its point. */
  lemma {:induction false} CopiesBefore<T>(a: seq<T>, b: seq<T>, x: nat, y: nat, i: nat, j: nat)
    requires Equal(i, j) in Canonical(a, b, x, y)
    ensures i < x && j < y
    decreases x + y
  {
    var op, x', y' := CanonicalLast(a, b, x, y);
    hide Canonical, Dist;
    if op != Equal(i, j) {
      CopiesBefore(a, b, x', y', i, j);
    }
  }

  lemma {:induction false} DistAlongRow<T>(a: seq<T>, b: seq<T>, x: nat, y: nat, t: nat)
    ensures Dist(a, b, x, y + t) <= Dist(a, b, x, y) + t
    decreases t
  {
    if t > 0 {
      DistAlongRow(a, b, x, y, t - 1);
      DistNeighbours(a, b, x, y + t - 1);
    }
  }

  /** A script copies a pair. */
  predicate Copying(ops: seq<Op>, i: nat, j: nat) {
    Equal(i, j) in ops
  }

  lemma CopyingOneMore(ops: seq<Op>, op: Op, i: nat, j: nat)
    ensures Copying(ops + [op], i, j) <==> Copying(ops, i, j) || op == Equal(i, j)
  {
  }

  lemma NotBeyond<T>(a: seq<T>, b: seq<T>, x: nat, y: nat, i: nat, j: nat)
    requires i >= x || j >= y
    ensures !Copying(Canonical(a, b, x, y), i, j)
  {
    hide Canonical;
    if Equal(i, j) in Canonical(a, b, x, y) {
      CopiesBefore(a, b, x, y, i, j);
    }
  }

  /** Where no modified line is inserted last, no run of insertions has led there. */
  lemma NotByInsertions<T>(a: seq<T>, b: seq<T>, x: nat, y: nat, j: nat)
    requires !InsertLast(a, b, x, y) && j + 1 < y
    ensures Dist(a, b, x, y) != Dist(a, b, x, j + 1) + y - j - 1
  {
    hide Dist;
    DistAlongRow(a, b, x, j + 1, y - j - 2);
  }

  lemma {:induction false} BaseCopied<T>(a: seq<T>, b: seq<T>, x: nat, y: nat, j: nat)
    requires x > 0
    ensures Copying(Canonical(a, b, x, y), x - 1, j) <==>
      j < y && CopyLast(a, b, x, j + 1) && Dist(a, b, x, y) == Dist(a, b, x, j + 1) + y - j - 1
    decreases y
  {
    hide *;
    LastOperation(a, b, x, y);
    OneComesLast(a, b, x, y);
    if InsertLast(a, b, x, y) {
      OneEditLess(a, b, x, y);
      CopyingOneMore(Canonical(a, b, x, y - 1), Insert(y - 1), x - 1, j);
      BaseCopied(a, b, x, y - 1, j);
    } else {
      NoCopyOfLast(a, b, x, y, j);
      if j + 1 < y {
        NotByInsertions(a, b, x, y, j);
      }
    }
  }

  /** Where no modified line is inserted last, the base line is copied last or not at all. */
  lemma NoCopyOfLast<T>(a: seq<T>, b: seq<T>, x: nat, y: nat, j: nat)
    requires x > 0 && !InsertLast(a, b, x, y)
    ensures Copying(Canonical(a, b, x, y), x - 1, j) <==> CopyLast(a, b, x, y) && j + 1 == y
  {
    hide *;
    LastOperation(a, b, x, y);
    OneComesLast(a, b, x, y);
    if DeleteLast(a, b, x, y) {
      CopyingOneMore(Canonical(a, b, x - 1, y), Delete(x - 1), x - 1, j);
      NotBeyond(a, b, x - 1, y, x - 1, j);
    } else {
      CopyingOneMore(Canonical(a, b, x - 1, y - 1), Equal(x - 1, y - 1), x - 1, j);
      NotBeyond(a, b, x - 1, y - 1, x - 1, j);
    }
  }

  lemma DroppedStep<T>(a: seq<T>, b: seq<T>, i: nat, x: nat, y: nat)
    requires i < x
    ensures Dropped(a, b, i, x, y) <==> Dropped(a, b, i, x - 1, y) && DropLast(a, b, x, y)
  {
    hide DropLast;
  }

  lemma {:induction false} ModifiedCopied<T>(a: seq<T>, b: seq<T>, x: nat, y: nat, i: nat)
    requires y > 0
    ensures Copying(Canonical(a, b, x, y), i, y - 1) <==>
      i < x && CopyLast(a, b, i + 1, y) && Dropped(a, b, i + 1, x, y)
    decreases x
  {
    hide *;
    LastOperation(a, b, x, y);
    OneComesLast(a, b, x, y);
    if i + 1 < x {
      DroppedStep(a, b, i + 1, x, y);
    }
    if DeleteLast(a, b, x, y) {
      CopyingOneMore(Canonical(a, b, x - 1, y), Delete(x - 1), i, y - 1);
      ModifiedCopied(a, b, x - 1, y, i);
    } else {
      NoCopyBefore(a, b, x, y, i);
      if i < x {
        DroppedNone(a, b, x, y);
      }
    }
  }

  lemma DroppedNone<T>(a: seq<T>, b: seq<T>, x: nat, y: nat)
    ensures Dropped(a, b, x, x, y)
  {
  }

  /** Where no base line is deleted last, the modified line is copied last or not at all. */
  lemma NoCopyBefore<T>(a: seq<T>, b: seq<T>, x: nat, y: nat, i: nat)
    requires y > 0 && !DeleteLast(a, b, x, y)
    ensures Copying(Canonical(a, b, x, y), i, y - 1) <==> CopyLast(a, b, x, y) && i + 1 == x
  {
    hide *;
    LastOperation(a, b, x, y);
    OneComesLast(a, b, x, y);
    if InsertLast(a, b, x, y) {
      CopyingOneMore(Canonical(a, b, x, y - 1), Insert(y - 1), i, y - 1);
      NotBeyond(a, b, x, y - 1, i, y - 1);
    } else {
      CopyingOneMore(Canonical(a, b, x - 1, y - 1), Equal(x - 1, y - 1), i, y - 1);
      NotBeyond(a, b, x - 1, y - 1, i, y - 1);
    }
  }

  // ----- in reverse -----

  /** Apply a printed diff to the modified text in reverse. */
  function ReverseApplyText(patch: string, modified: string): Option<string> {
    match ReadHunks(patch)
    case None => None
    case Some(hunks) => ApplyHunks(ReverseHunks(hunks), modified)
  }

  /** The same entries but for the lines given as context. */
  ghost predicate SimilarEntries<T>(x: seq<Entry<T>>, y: seq<Entry<T>>) {
    |x| == |y| && forall i :: 0 <= i < |x| ==> x[i].kind == y[i].kind && (x[i].kind.Context? || x[i] == y[i])
  }

  ghost predicate SimilarHunk<T>(g: Hunk<T>, h: Hunk<T>) {
    g.aPos == h.aPos && g.aLen == h.aLen && g.bPos == h.bPos && g.bLen == h.bLen && SimilarEntries(g.body, h.body)
  }

  ghost predicate SimilarHunks<T>(x: seq<Hunk<T>>, y: seq<Hunk<T>>) {
    |x| == |y| && forall i :: 0 <= i < |x| ==> SimilarHunk(x[i], y[i])
  }

  /** Where both apply, both are checked against the same base, so they yield the same. */
  lemma {:induction false} SimilarBodiesYield<T>(base: seq<T>, pos: nat, x: seq<Entry<T>>, y: seq<Entry<T>>)
    requires SimilarEntries(x, y) && ApplyBody(base, pos, x).Some? && ApplyBody(base, pos, y).Some?
    ensures ApplyBody(base, pos, x) == ApplyBody(base, pos, y)
    decreases |x|
  {
    if x != [] {
      assert x[0].kind == y[0].kind;
      SimilarBodiesYield(base, if x[0].kind.Added? then pos else pos + 1, x[1..], y[1..]);
    }
  }

  lemma SimilarHunkYields<T>(base: seq<T>, x: Hunk<T>, y: Hunk<T>, pos: nat, done: nat)
    requires SimilarHunk(x, y) && ApplyHunk(base, x, pos, done).Some? && ApplyHunk(base, y, pos, done).Some?
    ensures ApplyHunk(base, x, pos, done) == ApplyHunk(base, y, pos, done)
  {
    SimilarBodiesYield(base, x.aPos, x.body, y.body);
    hide ApplyBody, SimilarEntries;
  }

  lemma {:induction false} SimilarHunksYield<T>(base: seq<T>, x: seq<Hunk<T>>, y: seq<Hunk<T>>, pos: nat, done: nat)
    requires SimilarHunks(x, y) && ApplyFrom(base, x, pos, done).Some? && ApplyFrom(base, y, pos, done).Some?
    ensures ApplyFrom(base, x, pos, done) == ApplyFrom(base, y, pos, done)
    decreases |x|
  {
    hide ApplyHunk, SimilarHunk;
    if x != [] {
      SimilarHunkYields(base, x[0], y[0], pos, done);
      var (end, lines) := ApplyHunk(base, x[0], pos, done).value;
      SimilarHunksYield(base, x[1..], y[1..], end, done + |lines|);
    }
  }

  lemma SwapEntrySimilar<T>(ops: seq<Op>, a: seq<T>, b: seq<T>, k: nat)
    requires k < |ops| && Ordered(ops, |a|, |b|) && Ordered(SwapOps(ops), |b|, |a|)
    ensures InPlace(ops, |a|, |b|, k) && |SwapOps(ops)| == |ops| && InPlace(SwapOps(ops), |b|, |a|, k)
    ensures
      var x, y := EntryOf(SwapOps(ops)[k], b, a), SwapEntry(EntryOf(ops[k], a, b));
      x.kind == y.kind && (x.kind.Context? || x == y)
  {
    assert InPlace(ops, |a|, |b|, k) && InPlace(SwapOps(ops), |b|, |a|, k);
  }

  lemma SimilarCons<T>(x: Entry<T>, xs: seq<Entry<T>>, y: Entry<T>, ys: seq<Entry<T>>)
    requires x.kind == y.kind && (x.kind.Context? || x == y) && SimilarEntries(xs, ys)
    ensures SimilarEntries([x] + xs, [y] + ys)
  {
  }

  lemma {:induction false} SwapBodySimilar<T>(ops: seq<Op>, a: seq<T>, b: seq<T>, start: nat, end: nat)
    requires start <= end <= |ops| && Ordered(ops, |a|, |b|)
    ensures Ordered(SwapOps(ops), |b|, |a|) && end <= |SwapOps(ops)|
    ensures SimilarEntries(BodyOf(SwapOps(ops), b, a, start, end), SwapEntries(BodyOf(ops, a, b, start, end)))
    decreases end - start
  {
    SwapIsOrdered(ops, |a|, |b|);
    assert |SwapOps(ops)| == |ops|;
    hide Ordered, InPlace, SwapOps, EntryOf, SwapEntry;
    if start < end {
      SwapEntrySimilar(ops, a, b, start);
      SwapBodySimilar(ops, a, b, start + 1, end);
      var x, y := EntryOf(SwapOps(ops)[start], b, a), EntryOf(ops[start], a, b);
      var xs, ys := BodyOf(SwapOps(ops), b, a, start + 1, end), BodyOf(ops, a, b, start + 1, end);
      assert ([y] + ys)[1..] == ys;
      assert SwapEntries([y] + ys) == [SwapEntry(y)] + SwapEntries(ys);
      SimilarCons(x, xs, SwapEntry(y), SwapEntries(ys));
    }
  }

  lemma SwapHunkSimilar<T>(ops: seq<Op>, a: seq<T>, b: seq<T>, start: nat, end: nat)
    requires start <= end <= |ops| && Ordered(ops, |a|, |b|)
    ensures Ordered(SwapOps(ops), |b|, |a|) && end <= |SwapOps(ops)|
    ensures SimilarHunk(HunkOf(SwapOps(ops), b, a, start, end), SwapHunk(HunkOf(ops, a, b, start, end)))
  {
    SwapBodySimilar(ops, a, b, start, end);
    SwapCounts(ops, start);
    SwapCounts(ops, end);
    hide Ordered, CountA, CountB, BodyOf, SimilarEntries;
  }

  lemma {:induction false} SwapHunksSimilar<T>(ops: seq<Op>, a: seq<T>, b: seq<T>, groups: seq<Group>, from: nat)
    requires Ordered(ops, |a|, |b|) && Grouping(ops, groups, from)
    ensures Ordered(SwapOps(ops), |b|, |a|) && Grouping(SwapOps(ops), groups, from)
    ensures SimilarHunks(HunksOf(SwapOps(ops), b, a, groups, from), ReverseHunks(HunksOf(ops, a, b, groups, from)))
    decreases |groups|
  {
    SwapIsOrdered(ops, |a|, |b|);
    SwapGrouping(ops, groups, from);
    if groups != [] {
      var g := groups[0];
      HunksOfCons(ops, a, b, groups, from);
      HunksOfCons(SwapOps(ops), b, a, groups, from);
      SwapHunkSimilar(ops, a, b, StartOf(g), EndOf(g, |ops|));
      SwapHunksSimilar(ops, a, b, groups[1..], g.last + 1);
      assert |SwapOps(ops)| == |ops|;
      hide Ordered, HunkOf, StartOf, EndOf, HunksOf, Grouping, SwapHunk, SwapOps, SimilarHunk;
      ReverseHunksCons(HunksOf(ops, a, b, groups, from));
      SimilarHunksCons(HunksOf(SwapOps(ops), b, a, groups, from), ReverseHunks(HunksOf(ops, a, b, groups, from)));
    }
  }

  lemma SimilarHunksCons<T>(x: seq<Hunk<T>>, y: seq<Hunk<T>>)
    requires x != [] && y != [] && SimilarHunk(x[0], y[0]) && SimilarHunks(x[1..], y[1..])
    ensures SimilarHunks(x, y)
  {
    hide SimilarHunk;
    forall i | 0 <= i < |x|
      ensures SimilarHunk(x[i], y[i])
    {
      if i > 0 {
        assert x[i] == x[1..][i - 1] && y[i] == y[1..][i - 1];
      }
    }
  }

  /** Applied in reverse at all, the hunks leave what the exchanged script leaves. */
  lemma ReverseGives<T>(ops: seq<Op>, a: seq<T>, b: seq<T>, groups: seq<Group>)
    requires Ordered(ops, |a|, |b|) && Grouping(ops, groups, 0)
    ensures Ordered(SwapOps(ops), |b|, |a|)
    ensures
      var reversed := Apply(b, ReverseHunks(HunksOf(ops, a, b, groups, 0)));
      reversed.Some? ==> reversed.value == Output(SwapOps(ops), b, a, 0, |SwapOps(ops)|)
  {
    SwapHunksSimilar(ops, a, b, groups, 0);
    ApplyGivesOutput(SwapOps(ops), b, a, groups);
    var x, y := HunksOf(SwapOps(ops), b, a, groups, 0), ReverseHunks(HunksOf(ops, a, b, groups, 0));
    hide Ordered, Grouping, HunksOf, ReverseHunks, SimilarHunks, Output, ApplyFrom;
    if Apply(b, y).Some? {
      SimilarHunksYield(b, x, y, 0, 0);
    }
  }

  lemma ReverseIsExact<T>(ops: seq<Op>, a: seq<T>, b: seq<T>, groups: seq<Group>)
    requires Ordered(ops, |a|, |b|) && Grouping(ops, groups, 0) && CopiesAgree(ops, a, b)
    ensures Apply(b, ReverseHunks(HunksOf(ops, a, b, groups, 0))) == Some(a)
  {
    SwapHunks(ops, a, b, groups, 0);
    ApplyGivesOutput(SwapOps(ops), b, a, groups);
    SwapCopiesAgree(ops, a, b);
    StartOfOutput(SwapOps(ops), a);
    OutputIsModified(SwapOps(ops), b, a, 0);
  }

  lemma SwapAgreesBack<T>(ops: seq<Op>, a: seq<T>, b: seq<T>)
    requires Ordered(ops, |a|, |b|) && Ordered(SwapOps(ops), |b|, |a|)
    requires Output(SwapOps(ops), b, a, 0, |SwapOps(ops)|) == a
    ensures CopiesAgree(ops, a, b)
  {
    var swapped := SwapOps(ops);
    StartOfOutput(swapped, a);
    OutputShowsAgreement(swapped, b, a, 0);
    forall k | 0 <= k < |ops| && ops[k].Equal?
      ensures InPlace(ops, |a|, |b|, k) && a[ops[k].base] == b[ops[k].modified]
    {
      assert swapped[k].Equal? && InPlace(ops, |a|, |b|, k);
    }
  }

  /** What the exchanged script leaves has the base's line texts. */
  lemma SwapOutputTexts(ops: seq<Op>, a: Lines, b: Lines)
    requires Ordered(ops, |a.lines|, |b.lines|) && CopiesAgree(ops, a.lines, b.lines)
    ensures Ordered(SwapOps(ops), |b.lines|, |a.lines|)
    ensures SameTexts(Output(SwapOps(ops), Marked(b), Marked(a), 0, |SwapOps(ops)|), Marked(a))
  {
    SwapCopiesAgree(ops, a.lines, b.lines);
    OutputTexts(SwapOps(ops), b, a, 0);
    StartOfOutput(SwapOps(ops), Marked(a));
  }

  /** The printed diff, applied in reverse, turns the modified text back into the base text, byte for
      byte, under exactly the same condition as forwards. */
  lemma ReverseTextRoundTrip(ops: seq<Op>, s: string, t: string, groups: seq<Group>)
    requires Script(ops, LinesOf(s).lines, LinesOf(t).lines) && Grouping(ops, groups, 0)
    ensures ReverseApplyText(Printed(ops, s, t, groups), t) == Some(s) <==> NewlinesAgree(ops, LinesOf(s), LinesOf(t))
  {
    var a, b := LinesOf(s), LinesOf(t);
    var A, B := Marked(a), Marked(b);
    assert |A| == |a.lines| && |B| == |b.lines|;
    LinesRoundTrip(s);
    RawIsStandard(s);
    hide Script, Grouping, HunksOf, ShowHunks, ReadHunks, Ordered, LinesOf, Marked, Apply, TextOf, Printed,
      Standard, RawLines, NewlinesAgree, SameTexts, Output, NoNewlines, CopiesAgree, SwapOps, ReverseHunks;
    PrintedIsReadable(ops, s, t, groups);
    AgreeingCopies(ops, a, b);
    ScriptCopiesAgree(ops, a.lines, b.lines);
    SwapOutputTexts(ops, a, b);
    ReverseGives(ops, A, B, groups);
    if CopiesAgree(ops, A, B) {
      ReverseIsExact(ops, A, B, groups);
    } else if ReverseApplyText(Printed(ops, s, t, groups), t) == Some(s) {
      TextDeterminesLines(Output(SwapOps(ops), B, A, 0, |SwapOps(ops)|), A);
      SwapAgreesBack(ops, A, B);
    }
  }

  // ----- the diff that is rendered -----

  /** A last line without its newline, if the script that is found copies it, is copied to the other
      side's last line, which has none either. */
  ghost predicate LastLinesAgree(a: Lines, b: Lines) {
    && (a.lines != [] && !a.trailingNewline ==>
      forall j: nat :: LastBaseCopied(a.lines, b.lines, j) ==> j + 1 == |b.lines| && !b.trailingNewline)
    && (b.lines != [] && !b.trailingNewline ==>
      forall i: nat :: LastModifiedCopied(a.lines, b.lines, i) ==> i + 1 == |a.lines| && !a.trailingNewline)
  }

  lemma CopiedLastLinesAgree(a: Lines, b: Lines, ops: seq<Op>, k: nat)
    requires ops == Canonical(a.lines, b.lines, |a.lines|, |b.lines|)
    requires LastLinesAgree(a, b) && k < |ops| && ops[k].Equal?
    ensures (ops[k].base + 1 == |a.lines| && !a.trailingNewline) <==>
            (ops[k].modified + 1 == |b.lines| && !b.trailingNewline)
  {
    hide Canonical, Dist, CopyLast, Dropped;
    var n, m, i, j := |a.lines|, |b.lines|, ops[k].base, ops[k].modified;
    assert Copying(ops, i, j);
    CopiesBefore(a.lines, b.lines, n, m, i, j);
    if i + 1 == n {
      BaseCopied(a.lines, b.lines, n, m, j);
      assert LastBaseCopied(a.lines, b.lines, j);
    }
    if j + 1 == m {
      ModifiedCopied(a.lines, b.lines, n, m, i);
      assert LastModifiedCopied(a.lines, b.lines, i);
    }
  }

  lemma CopiedAgrees(a: Lines, b: Lines, ops: seq<Op>, i: nat, j: nat)
    requires NewlinesAgree(ops, a, b) && Copying(ops, i, j)
    ensures (i + 1 == |a.lines| && !a.trailingNewline) <==> (j + 1 == |b.lines| && !b.trailingNewline)
  {
  }

  /** The closed form of the condition for the script that is found. */
  lemma AgreeingLastLines(a: Lines, b: Lines)
    ensures NewlinesAgree(Canonical(a.lines, b.lines, |a.lines|, |b.lines|), a, b) <==> LastLinesAgree(a, b)
  {
    hide Canonical, Dist, CopyLast, Dropped;
    var n, m := |a.lines|, |b.lines|;
    var ops := Canonical(a.lines, b.lines, n, m);
    if NewlinesAgree(ops, a, b) {
      hide NewlinesAgree;
      forall j: nat | n > 0 && !a.trailingNewline && LastBaseCopied(a.lines, b.lines, j)
        ensures j + 1 == m && !b.trailingNewline
      {
        BaseCopied(a.lines, b.lines, n, m, j);
        CopiedAgrees(a, b, ops, n - 1, j);
      }
      forall i: nat | m > 0 && !b.trailingNewline && LastModifiedCopied(a.lines, b.lines, i)
        ensures i + 1 == n && !a.trailingNewline
      {
        ModifiedCopied(a.lines, b.lines, n, m, i);
        CopiedAgrees(a, b, ops, i, m - 1);
      }
    }
    if LastLinesAgree(a, b) {
      forall k | 0 <= k < |ops| && ops[k].Equal?
        ensures (ops[k].base + 1 == n && !a.trailingNewline) <==> (ops[k].modified + 1 == m && !b.trailingNewline)
      {
        CopiedLastLinesAgree(a, b, ops, k);
      }
    }
  }

  /** Weaker than agreement on all shortest scripts: of the two equal base lines the first is copied here,
      and another shortest script copies the second, which has no newline. */
  lemma OtherShortestScriptsCanBeWrong()
    ensures LastLinesAgree(LinesOf("a\na"), LinesOf("a\n")) && !ShortestMarksAgree(LinesOf("a\na"), LinesOf("a\n"))
  {
    TwoLinesAndOne();
    var a, b := LinesOf("a\na"), LinesOf("a\n");
    hide LinesOf, Dist, EditDistance, CopyLast, Dropped, ShortestMarksAgree;
    SmallDistances(a.lines, b.lines);
    assert !LastBaseCopied(a.lines, b.lines, 0);
    SecondOnShortest(a, b);
  }

  lemma TwoLinesAndOne()
    ensures
      var a, b := LinesOf("a\na"), LinesOf("a\n");
      && a.lines == ["a", "a"] && b.lines == ["a"] && !a.trailingNewline && b.trailingNewline
  {
    var s, t := "a\na", "a\n";
    SplitCons("a", "a");
    SplitCons("a", "");
    SplitOne("a");
    hide SplitLines;
    assert "a" + "\n" + "a" == s && "a" + "\n" + "" == t;
  }

  lemma SecondOnShortest(a: Lines, b: Lines)
    requires |a.lines| == 2 && |b.lines| == 1 && a.lines[0] == a.lines[1] == b.lines[0]
    requires !a.trailingNewline && b.trailingNewline
    ensures !ShortestMarksAgree(a, b)
  {
    SmallDistances(a.lines, b.lines);
    hide Dist;
    assert OnShortest(a.lines, b.lines, 1, 0);
    hide OnShortest;
    assert Unmarked(a, 1) && !Unmarked(b, 0);
  }

  lemma SmallDistances<T>(a: seq<T>, b: seq<T>)
    requires |a| == 2 && |b| == 1 && a[0] == b[0]
    ensures Dist(a, b, 1, 0) == 1 == EditDistance(a, b) && Dist(a, b, 1, 1) == 0 && !CopyLast(a, b, 2, 1)
  {
    assert Lcs(a, b, 1, 0) == 0 && Lcs(a, b, 1, 1) == 1;
    LcsNeighbours(a, b, 1, 1);
    DistBounds(a, b, 2, 1);
  }

  /** What comes out of a computed diff is right unless the line diff is the one rendered and the newlines
      of the last lines it copies differ. */
  ghost predicate RendersRight(sides: Sides, stepsLeft: nat, cancel: nat -> bool) {
    sides.base.Some? && sides.modified.Some? && !FallsBack(sides, stepsLeft, cancel) ==>
      LastLinesAgree(LinesOf(sides.base.value), LinesOf(sides.modified.value))
  }

  /** The hunks that are printed turn the base text into the modified text, byte for byte, and back, if
      and only if the newlines of the last lines agree. */
  lemma HunksRoundTrip(sides: Sides, stepsLeft: nat, cancel: nat -> bool)
    ensures
      var s, t := TextOrEmpty(sides.base), TextOrEmpty(sides.modified);
      var ops := RenderedScript(sides, stepsLeft, cancel);
      && Script(ops, LinesOf(s).lines, LinesOf(t).lines) && Grouping(ops, GroupsOf(ops), 0)
      && (ApplyText(Printed(ops, s, t, GroupsOf(ops)), s) == Some(t) <==> RendersRight(sides, stepsLeft, cancel))
      && (ReverseApplyText(Printed(ops, s, t, GroupsOf(ops)), t) == Some(s) <==> RendersRight(sides, stepsLeft, cancel))
  {
    hide Script, Canonical, Replacement, GroupsOf, Grouping, Printed, ApplyText, ReverseApplyText, LinesOf,
      NewlinesAgree, LastLinesAgree, FallsBack;
    var s, t := TextOrEmpty(sides.base), TextOrEmpty(sides.modified);
    var ops := RenderedScript(sides, stepsLeft, cancel);
    RenderedScriptIsScript(sides, stepsLeft, cancel);
    TextRoundTrip(ops, s, t, GroupsOf(ops));
    ReverseTextRoundTrip(ops, s, t, GroupsOf(ops));
    ReplacementIsScript(LinesOf(s), LinesOf(t));
    AgreeingLastLines(LinesOf(s), LinesOf(t));
  }

  /** The whole text that is rendered, read and applied to the base text, gives the modified text, byte for
      byte, and in reverse the base text, if and only if the newlines of the last lines agree. */
  lemma RenderedRoundTrip(sides: Sides, bytesLeft: nat, stepsLeft: nat, cancel: nat -> bool)
    requires PlainNames(sides) && Computed(sides, bytesLeft)
    ensures Rendering(sides, bytesLeft, stepsLeft, cancel).Text?
    ensures
      var text := Rendering(sides, bytesLeft, stepsLeft, cancel).text;
      var s, t := TextOrEmpty(sides.base), TextOrEmpty(sides.modified);
      && (ApplyRendered(text, s) == Some(t) <==> RendersRight(sides, stepsLeft, cancel))
      && (ReverseApplyRendered(text, t) == Some(s) <==> RendersRight(sides, stepsLeft, cancel))
  {
    var s, t := TextOrEmpty(sides.base), TextOrEmpty(sides.modified);
    var ops := RenderedScript(sides, stepsLeft, cancel);
    HunksRoundTrip(sides, stepsLeft, cancel);
    ReadRendering(sides, bytesLeft, stepsLeft, cancel);
    hide InputBytes, PlainNames, Rendering, RendersRight, RenderedScript, ReadFile, ApplyHunks, ReverseHunks, Printed, ReadHunks,
      Script, Grouping, GroupsOf, HunksOf, LinesOf, Marked, Ordered, FallsBack, SideOf;
    PrintedIsReadable(ops, s, t, GroupsOf(ops));
  }

  // ----- a line appended to an unterminated text -----

  /** Printing and applying gives the text of what the script leaves behind. */
  lemma PrintedGives(ops: seq<Op>, s: string, t: string, groups: seq<Group>)
    requires Script(ops, LinesOf(s).lines, LinesOf(t).lines) && Grouping(ops, groups, 0)
    ensures Ordered(ops, |Marked(LinesOf(s))|, |Marked(LinesOf(t))|)
    ensures ApplyText(Printed(ops, s, t, groups), s)
         == Some(TextOf(Output(ops, Marked(LinesOf(s)), Marked(LinesOf(t)), 0, |ops|)))
  {
    hide Script, Grouping, HunksOf, ShowHunks, ReadHunks, LinesOf, Apply, TextOf, Printed, Output;
    PrintedIsReadable(ops, s, t, groups);
    ApplyGivesOutput(ops, Marked(LinesOf(s)), Marked(LinesOf(t)), groups);
  }

  lemma {:induction false} TextOfConcat(x: seq<Line>, y: seq<Line>)
    ensures TextOf(x + y) == TextOf(x) + TextOf(y)
    decreases |x|
  {
    if x == [] {
      assert x + y == y;
    } else {
      assert (x + y)[1..] == x[1..] + y;
      TextOfConcat(x[1..], y);
    }
  }

  lemma {:induction false} SplitAppended(s: string, u: string)
    requires s != [] && !EndsInNewline(s) && u != [] && '\n' !in u
    ensures SplitLines(s + "\n" + u) == SplitLines(s) + [u]
    decreases |s|
  {
    hide LineLength, SplitLines, EndsInNewline;
    var n := LineLength(s);
    WholeLine(u);
    SplitOne(u);
    if n == |s| {
      SplitCons(s, u);
      SplitOne(s);
    } else {
      var line, rest := s[..n], s[n + 1..];
      SplitAtNewline(s, n);
      assert s + "\n" + u == line + "\n" + (rest + "\n" + u);
      SplitCons(line, rest);
      SplitCons(line, rest + "\n" + u);
      SplitAppended(rest, u);
      assert [line] + (SplitLines(rest) + [u]) == [line] + SplitLines(rest) + [u];
    }
  }

  lemma WholeLine(u: string)
    requires '\n' !in u
    ensures LineLength(u) == |u|
  {
  }

  /** Every base line copied, then one line inserted. */
  function AppendScript(n: nat): seq<Op> {
    Copies(n) + [Insert(n)]
  }

  lemma AppendShape(n: nat)
    ensures |AppendScript(n)| == n + 1 && AppendScript(n)[n] == Insert(n)
    ensures forall k {:trigger Changed(AppendScript(n), k)} :: 0 <= k < n ==> !Changed(AppendScript(n), k)
  {
  }

  lemma OutputOfNothing<T>(ops: seq<Op>, a: seq<T>, b: seq<T>, k: nat)
    requires k <= |ops| && Ordered(ops, |a|, |b|)
    ensures Output(ops, a, b, k, k) == [] && CountA(ops, 0) == 0 == CountB(ops, 0)
  {
  }

  lemma AppendOutput<T>(a: seq<T>, b: seq<T>)
    requires |b| == |a| + 1 && |AppendScript(|a|)| == |a| + 1 && Ordered(AppendScript(|a|), |a|, |b|)
    ensures Output(AppendScript(|a|), a, b, 0, |a| + 1) == a + [b[|a|]]
  {
    hide *;
    var ops, n := AppendScript(|a|), |a|;
    AppendShape(n);
    OutputSplits(ops, a, b, 0, n, n + 1);
    OutputUnchanged(ops, a, b, 0, n);
    OutputOfNothing(ops, a, b, n + 1);
    OneOperation(ops, a, b, n, n + 1);
    assert a[0..n] == a;
  }

  /** A line appended to a text without a last newline is glued to its last line: the script that is
      found copies every line and inserts one, and its diff loses the newline between. */
  lemma AppendedLineIsGlued(s: string, u: string)
    requires s != [] && !EndsInNewline(s) && u != [] && '\n' !in u
    ensures
      var t := s + "\n" + u;
      var a, b := LinesOf(s).lines, LinesOf(t).lines;
      var ops := AppendScript(|a|);
      && ops == Canonical(a, b, |a|, |b|) && Script(ops, a, b) && Grouping(ops, GroupsOf(ops), 0)
      && ApplyText(Printed(ops, s, t, GroupsOf(ops)), s) == Some(s + u)
      && s + u != t
  {
    var t := s + "\n" + u;
    var a, b := LinesOf(s), LinesOf(t);
    AppendIsCanonical(s, u);
    GroupsOfIsGrouping(AppendScript(|a.lines|));
    assert s + u != t;
    hide SplitLines, Script, Canonical, ApplyText, Printed, AppendScript, Grouping, GroupsOf, TextOf, Output, Ordered;
    PrintedGives(AppendScript(|a.lines|), s, t, GroupsOf(AppendScript(|a.lines|)));
    var A, B := Marked(a), Marked(b);
    AppendShape(|a.lines|);
    AppendOutput(A, B);
    assert B[|A|] == Line(u, true);
    hide Marked, LinesOf;
    LinesRoundTrip(s);
    TextOfConcat(A, [Line(u, true)]);
    UnterminatedText(u);
  }

  lemma AppendIsCanonical(s: string, u: string)
    requires s != [] && !EndsInNewline(s) && u != [] && '\n' !in u
    ensures
      var t := s + "\n" + u;
      var a, b := LinesOf(s), LinesOf(t);
      var ops := AppendScript(|a.lines|);
      && b.lines == a.lines + [u] && !b.trailingNewline
      && ops == Canonical(a.lines, b.lines, |a.lines|, |b.lines|) && Script(ops, a.lines, b.lines)
  {
    var t := s + "\n" + u;
    var a, b := LinesOf(s).lines, LinesOf(t).lines;
    SplitAppended(s, u);
    assert t[|t| - 1] == u[|u| - 1];
    hide SplitLines, Script, Dist;
    CanonicalOfEqual(a, b, |a|);
    DistBounds(a, b, |a|, |b|);
    CanonicalIsShortest(a, b);
  }

  lemma UnterminatedText(u: string)
    ensures TextOf([Line(u, true)]) == u
  {
    assert [Line(u, true)][1..] == [];
  }
}
