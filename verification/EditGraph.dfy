/** The edit graph of two line sequences: edit scripts, their cost, and the edit distance.

    A point `(x, y)` stands for "the first `x` base lines and the first `y` modified lines are
    consumed". The greedy search may step past the far edges of the grid, so every notion here is
    defined on the whole quadrant: beyond an edge no line matches. */
module EditGraph {

  /** One step of a script: line `base` equals line `modified`, or one line goes or comes. */
  datatype Op =
    | Equal(base: nat, modified: nat)
    | Delete(base: nat)
    | Insert(modified: nat)

  predicate Matches<T(==)>(a: seq<T>, b: seq<T>, x: int, y: int) {
    0 <= x < |a| && 0 <= y < |b| && a[x] == b[y]
  }

  /** `ops` leads from `(i, j)` to the far corner: base indices `i, i+1, ..` and modified indices
      `j, j+1, ..` are each used exactly once and in order, and every `Equal` pairs equal lines. */
  ghost predicate Walk<T>(ops: seq<Op>, a: seq<T>, b: seq<T>, i: nat, j: nat) {
    if ops == [] then i == |a| && j == |b|
    else match ops[0]
      case Equal(p, q) => p == i && q == j && Matches(a, b, i, j) && Walk(ops[1..], a, b, i + 1, j + 1)
      case Delete(p) => p == i && i < |a| && Walk(ops[1..], a, b, i + 1, j)
      case Insert(q) => q == j && j < |b| && Walk(ops[1..], a, b, i, j + 1)
  }

  /** A complete edit script from `a` to `b`. */
  ghost predicate Script<T>(ops: seq<Op>, a: seq<T>, b: seq<T>) {
    Walk(ops, a, b, 0, 0)
  }

  /** The number of deletions and insertions. */
  function Cost(ops: seq<Op>): nat {
    if ops == [] then 0 else (if ops[0].Equal? then 0 else 1) + Cost(ops[1..])
  }

  /** Length of a longest common subsequence of the first `x` lines of `a` and first `y` of `b`. */
  ghost function Lcs<T>(a: seq<T>, b: seq<T>, x: nat, y: nat): nat {
    if x == 0 || y == 0 then 0
    else if Matches(a, b, x - 1, y - 1) then Lcs(a, b, x - 1, y - 1) + 1
    else
      var left, up := Lcs(a, b, x - 1, y), Lcs(a, b, x, y - 1);
      if left < up then up else left
  }

  /** The edit distance of those two prefixes. */
  ghost function Dist<T>(a: seq<T>, b: seq<T>, x: nat, y: nat): int {
    x + y - 2 * Lcs(a, b, x, y)
  }

  ghost function EditDistance<T>(a: seq<T>, b: seq<T>): int {
    Dist(a, b, |a|, |b|)
  }

  /** Neighbouring points differ by at most one common line. */
  lemma {:induction false} LcsNeighbours<T>(a: seq<T>, b: seq<T>, x: nat, y: nat)
    ensures Lcs(a, b, x, y) <= Lcs(a, b, x + 1, y) <= Lcs(a, b, x, y) + 1
    ensures Lcs(a, b, x, y) <= Lcs(a, b, x, y + 1) <= Lcs(a, b, x, y) + 1
    decreases x + y
  {
    if y > 0 {
      LcsNeighbours(a, b, x, y - 1);
    }
    if x > 0 {
      LcsNeighbours(a, b, x - 1, y);
    }
  }

  /** One step right or down costs one edit more or one edit less. */
  lemma DistNeighbours<T>(a: seq<T>, b: seq<T>, x: nat, y: nat)
    ensures Dist(a, b, x + 1, y) == Dist(a, b, x, y) + 1 || Dist(a, b, x + 1, y) == Dist(a, b, x, y) - 1
    ensures Dist(a, b, x, y + 1) == Dist(a, b, x, y) + 1 || Dist(a, b, x, y + 1) == Dist(a, b, x, y) - 1
  {
    LcsNeighbours(a, b, x, y);
  }

  /** A diagonal step is free on a match; otherwise the cheaper neighbour plus one edit. */
  lemma DistDiagonal<T>(a: seq<T>, b: seq<T>, x: nat, y: nat)
    ensures Dist(a, b, x, y) <= Dist(a, b, x + 1, y + 1)
    ensures Matches(a, b, x, y) ==> Dist(a, b, x + 1, y + 1) == Dist(a, b, x, y)
    ensures !Matches(a, b, x, y) ==>
      || Dist(a, b, x + 1, y + 1) == Dist(a, b, x, y + 1) + 1
      || Dist(a, b, x + 1, y + 1) == Dist(a, b, x + 1, y) + 1
  {
    LcsNeighbours(a, b, x, y);
  }

  lemma {:induction false} DistAlongDiagonal<T>(a: seq<T>, b: seq<T>, x: nat, y: nat, t: nat)
    ensures Dist(a, b, x, y) <= Dist(a, b, x + t, y + t)
    decreases t
  {
    if t > 0 {
      DistAlongDiagonal(a, b, x, y, t - 1);
      DistDiagonal(a, b, x + t - 1, y + t - 1);
    }
  }

  /** A point is at least as far as its diagonal, and no farther than deleting and inserting all. */
  lemma {:induction false} DistBounds<T>(a: seq<T>, b: seq<T>, x: nat, y: nat)
    ensures Lcs(a, b, x, y) <= x && Lcs(a, b, x, y) <= y
    ensures x - y <= Dist(a, b, x, y) && y - x <= Dist(a, b, x, y) <= x + y
    decreases x + y
  {
    if x > 0 && y > 0 {
      DistBounds(a, b, x - 1, y - 1);
      DistBounds(a, b, x - 1, y);
      DistBounds(a, b, x, y - 1);
    }
  }

  /** Past the far corner every step is an edit. */
  lemma {:induction false} LcsPastBase<T>(a: seq<T>, b: seq<T>, x: nat, y: nat)
    requires x >= |a|
    ensures Lcs(a, b, x, y) == Lcs(a, b, |a|, y)
    decreases x + y
  {
    if x > |a| && y > 0 {
      LcsPastBase(a, b, x - 1, y);
      LcsPastBase(a, b, x, y - 1);
      LcsNeighbours(a, b, |a|, y - 1);
    }
  }

  lemma {:induction false} LcsPastModified<T>(a: seq<T>, b: seq<T>, x: nat, y: nat)
    requires y >= |b|
    ensures Lcs(a, b, x, y) == Lcs(a, b, x, |b|)
    decreases x + y
  {
    if x > 0 && y > |b| {
      LcsPastModified(a, b, x - 1, y);
      LcsPastModified(a, b, x, y - 1);
      LcsNeighbours(a, b, x - 1, |b|);
    }
  }

  lemma DistPastCorner<T>(a: seq<T>, b: seq<T>, x: nat, y: nat)
    requires x >= |a| && y >= |b|
    ensures Dist(a, b, x, y) == EditDistance(a, b) + (x - |a|) + (y - |b|)
  {
    hide Lcs;
    LcsPastBase(a, b, x, y);
    LcsPastModified(a, b, |a|, y);
  }

  /** Every script costs at least the distance it covers. */
  lemma {:induction false} WalkCostsAtLeast<T>(ops: seq<Op>, a: seq<T>, b: seq<T>, i: nat, j: nat)
    requires Walk(ops, a, b, i, j)
    ensures EditDistance(a, b) <= Dist(a, b, i, j) + Cost(ops)
    decreases |ops|
  {
    if ops != [] {
      DistNeighbours(a, b, i, j);
      DistDiagonal(a, b, i, j);
      match ops[0]
      case Equal(p, q) => WalkCostsAtLeast(ops[1..], a, b, i + 1, j + 1);
      case Delete(p) => WalkCostsAtLeast(ops[1..], a, b, i + 1, j);
      case Insert(q) => WalkCostsAtLeast(ops[1..], a, b, i, j + 1);
    }
  }

  /** No edit script is cheaper than the edit distance. */
  lemma ScriptCostsAtLeast<T>(ops: seq<Op>, a: seq<T>, b: seq<T>)
    requires Script(ops, a, b)
    ensures Cost(ops) >= EditDistance(a, b)
  {
    WalkCostsAtLeast(ops, a, b, 0, 0);
  }

  /** Every line is deleted, inserted or kept: twice the script's length is the lines of both sides
      plus its edits. */
  lemma {:induction false} WalkLength<T>(ops: seq<Op>, a: seq<T>, b: seq<T>, i: nat, j: nat)
    requires Walk(ops, a, b, i, j)
    ensures 2 * |ops| == (|a| - i) + (|b| - j) + Cost(ops)
    decreases |ops|
  {
    if ops != [] {
      match ops[0]
      case Equal(p, q) => WalkLength(ops[1..], a, b, i + 1, j + 1);
      case Delete(p) => WalkLength(ops[1..], a, b, i + 1, j);
      case Insert(q) => WalkLength(ops[1..], a, b, i, j + 1);
    }
  }

  // ----- shortest scripts through a point -----

  lemma WalkCons<T>(op: Op, rest: seq<Op>, a: seq<T>, b: seq<T>, i: nat, j: nat)
    requires op.Equal? ==> op == Equal(i, j) && Matches(a, b, i, j) && Walk(rest, a, b, i + 1, j + 1)
    requires op.Delete? ==> op == Delete(i) && i < |a| && Walk(rest, a, b, i + 1, j)
    requires op.Insert? ==> op == Insert(j) && j < |b| && Walk(rest, a, b, i, j + 1)
    ensures Walk([op] + rest, a, b, i, j) && Cost([op] + rest) == (if op.Equal? then 0 else 1) + Cost(rest)
  {
    assert ([op] + rest)[1..] == rest;
  }

  /** The cost of the cheapest way from `(i, j)` to the far corner: the best of all first steps. */
  ghost function CostFrom<T>(a: seq<T>, b: seq<T>, i: nat, j: nat): int
    requires i <= |a| && j <= |b|
    decreases |a| - i + |b| - j
  {
    if i == |a| then |b| - j
    else if j == |b| then |a| - i
    else
      var right, down := CostFrom(a, b, i + 1, j), CostFrom(a, b, i, j + 1);
      var edit := 1 + if right < down then right else down;
      if Matches(a, b, i, j) && CostFrom(a, b, i + 1, j + 1) < edit then CostFrom(a, b, i + 1, j + 1) else edit
  }

  lemma {:induction false} WalkCostsFrom<T>(ops: seq<Op>, a: seq<T>, b: seq<T>, i: nat, j: nat)
    requires Walk(ops, a, b, i, j)
    ensures i <= |a| && j <= |b| && CostFrom(a, b, i, j) <= Cost(ops)
    decreases |ops|
  {
    if ops != [] {
      match ops[0]
      case Equal(_, _) => WalkCostsFrom(ops[1..], a, b, i + 1, j + 1);
      case Delete(_) => WalkCostsFrom(ops[1..], a, b, i + 1, j);
      case Insert(_) => WalkCostsFrom(ops[1..], a, b, i, j + 1);
    }
  }

  lemma {:induction false} CheapestWalk<T>(a: seq<T>, b: seq<T>, i: nat, j: nat) returns (ops: seq<Op>)
    requires i <= |a| && j <= |b|
    ensures Walk(ops, a, b, i, j) && Cost(ops) == CostFrom(a, b, i, j)
    decreases |a| - i + |b| - j
  {
    ops := [];
    if i < |a| && j < |b| && Matches(a, b, i, j) && CostFrom(a, b, i + 1, j + 1) == CostFrom(a, b, i, j) {
      ops := CheapestWalk(a, b, i + 1, j + 1);
      WalkCons(Equal(i, j), ops, a, b, i, j);
      ops := [Equal(i, j)] + ops;
    } else if i < |a| && (j == |b| || CostFrom(a, b, i, j) == 1 + CostFrom(a, b, i + 1, j)) {
      ops := CheapestWalk(a, b, i + 1, j);
      WalkCons(Delete(i), ops, a, b, i, j);
      ops := [Delete(i)] + ops;
    } else if j < |b| {
      ops := CheapestWalk(a, b, i, j + 1);
      WalkCons(Insert(j), ops, a, b, i, j);
      ops := [Insert(j)] + ops;
    }
  }

  /** The script the search finds for the first `x` base lines and the first `y` modified lines: told
      from its end, an insertion wherever one brings the distance down, else a deletion wherever one
      does, and else a copied line. */
  ghost function Canonical<T>(a: seq<T>, b: seq<T>, x: nat, y: nat): seq<Op>
    decreases x + y
  {
    if x == 0 && y == 0 then []
    else if InsertLast(a, b, x, y) then Canonical(a, b, x, y - 1) + [Insert(y - 1)]
    else if DeleteLast(a, b, x, y) then Canonical(a, b, x - 1, y) + [Delete(x - 1)]
    else EqualLast(a, b, x, y); Canonical(a, b, x - 1, y - 1) + [Equal(x - 1, y - 1)]
  }

  ghost predicate InsertLast<T>(a: seq<T>, b: seq<T>, x: nat, y: nat) {
    y > 0 && Dist(a, b, x, y - 1) < Dist(a, b, x, y)
  }

  ghost predicate DeleteLast<T>(a: seq<T>, b: seq<T>, x: nat, y: nat) {
    x > 0 && Dist(a, b, x - 1, y) < Dist(a, b, x, y) && !InsertLast(a, b, x, y)
  }

  lemma EqualLast<T>(a: seq<T>, b: seq<T>, x: nat, y: nat)
    requires (x > 0 || y > 0) && !InsertLast(a, b, x, y) && !DeleteLast(a, b, x, y)
    ensures x > 0 && y > 0 && Matches(a, b, x - 1, y - 1) && Dist(a, b, x - 1, y - 1) == Dist(a, b, x, y)
  {
  }

  lemma OneEditLess<T>(a: seq<T>, b: seq<T>, x: nat, y: nat)
    ensures InsertLast(a, b, x, y) ==> Dist(a, b, x, y - 1) == Dist(a, b, x, y) - 1
    ensures DeleteLast(a, b, x, y) ==> Dist(a, b, x - 1, y) == Dist(a, b, x, y) - 1
  {
    hide Dist;
    if y > 0 {
      DistNeighbours(a, b, x, y - 1);
    }
    if x > 0 {
      DistNeighbours(a, b, x - 1, y);
    }
  }

  /** The last operation of a canonical script, and what it costs. */
  lemma CanonicalLast<T>(a: seq<T>, b: seq<T>, x: nat, y: nat) returns (op: Op, x': nat, y': nat)
    requires x > 0 || y > 0
    ensures Canonical(a, b, x, y) == Canonical(a, b, x', y') + [op]
    ensures x' == (if op.Insert? then x else x - 1) && y' == (if op.Delete? then y else y - 1)
    ensures match op
            case Insert(j) => j == y' && InsertLast(a, b, x, y)
            case Delete(i) => i == x' && DeleteLast(a, b, x, y)
            case Equal(i, j) =>
              i == x' && j == y' && Matches(a, b, i, j) && !InsertLast(a, b, x, y) && !DeleteLast(a, b, x, y)
    ensures Dist(a, b, x, y) == Dist(a, b, x', y') + (if op.Equal? then 0 else 1)
  {
    hide Dist;
    OneEditLess(a, b, x, y);
    if InsertLast(a, b, x, y) {
      op, x', y' := Insert(y - 1), x, y - 1;
    } else if DeleteLast(a, b, x, y) {
      op, x', y' := Delete(x - 1), x - 1, y;
    } else {
      EqualLast(a, b, x, y);
      op, x', y' := Equal(x - 1, y - 1), x - 1, y - 1;
    }
  }

  lemma NothingBefore<T>(a: seq<T>, b: seq<T>)
    ensures Canonical(a, b, 0, 0) == [] && Dist(a, b, 0, 0) == 0
    ensures Walk([], a, b, |a|, |b|) && Cost([]) == 0
  {
  }

  /** A way on from `(x, y)` is reached from the start at the cost of the prefixes' distance. */
  lemma {:induction false} CanonicalReaches<T>(a: seq<T>, b: seq<T>, x: nat, y: nat, rest: seq<Op>)
    requires x <= |a| && y <= |b| && Walk(rest, a, b, x, y)
    ensures Walk(Canonical(a, b, x, y) + rest, a, b, 0, 0)
    ensures Cost(Canonical(a, b, x, y) + rest) == Dist(a, b, x, y) + Cost(rest)
    decreases x + y
  {
    hide *;
    if x == 0 && y == 0 {
      NothingBefore(a, b);
      assert [] + rest == rest;
    } else {
      var op, x', y' := CanonicalLast(a, b, x, y);
      var before := Canonical(a, b, x', y');
      WalkCons(op, rest, a, b, x', y');
      CanonicalReaches(a, b, x', y', [op] + rest);
      assert before + [op] + rest == before + ([op] + rest);
    }
  }

  /** The canonical script is a complete one, and none is shorter. */
  lemma CanonicalIsShortest<T>(a: seq<T>, b: seq<T>)
    ensures
      var script := Canonical(a, b, |a|, |b|);
      Script(script, a, b) && Cost(script) == EditDistance(a, b)
  {
    hide Canonical, Walk, Cost, Dist;
    NothingBefore(a, b);
    CanonicalReaches(a, b, |a|, |b|, []);
    assert Canonical(a, b, |a|, |b|) + [] == Canonical(a, b, |a|, |b|);
  }

  /** The first `k` lines copied. */
  function Copies(k: nat): seq<Op> {
    seq(k, i requires 0 <= i < k => Equal(i, i))
  }

  /** Lines that both sides begin with are copied, one by one. */
  lemma {:induction false} CanonicalOfEqual<T>(a: seq<T>, b: seq<T>, k: nat)
    requires k <= |a| && k <= |b| && a[..k] == b[..k]
    ensures Canonical(a, b, k, k) == Copies(k) && Dist(a, b, k, k) == 0
    decreases k
  {
    hide *;
    if k == 0 {
      NothingBefore(a, b);
      CopiesOneMore(0);
    } else {
      assert a[k - 1] == a[..k][k - 1] && b[k - 1] == b[..k][k - 1];
      assert a[..k - 1] == a[..k][..k - 1] && b[..k - 1] == b[..k][..k - 1];
      CanonicalOfEqual(a, b, k - 1);
      CopyAfterCopies(a, b, k - 1);
      CopiesOneMore(k - 1);
    }
  }

  lemma CopyAfterCopies<T>(a: seq<T>, b: seq<T>, k: nat)
    requires k < |a| && k < |b| && a[k] == b[k] && Dist(a, b, k, k) == 0
    ensures Dist(a, b, k + 1, k + 1) == 0
    ensures Canonical(a, b, k + 1, k + 1) == Canonical(a, b, k, k) + [Equal(k, k)]
  {
    hide Dist;
    DistDiagonal(a, b, k, k);
    DistBounds(a, b, k + 1, k);
    DistBounds(a, b, k, k + 1);
  }

  lemma CopiesOneMore(k: nat)
    ensures Copies(0) == [] && Copies(k + 1) == Copies(k) + [Equal(k, k)]
  {
  }

  /** The copied pair lies on a shortest script: it splits the edit distance. */
  ghost predicate OnShortest<T>(a: seq<T>, b: seq<T>, i: nat, j: nat) {
    Matches(a, b, i, j) && Dist(a, b, i, j) + CostFrom(a, b, i + 1, j + 1) == EditDistance(a, b)
  }

  lemma ShortestThrough<T>(a: seq<T>, b: seq<T>, i: nat, j: nat) returns (ops: seq<Op>, k: nat)
    requires OnShortest(a, b, i, j)
    ensures Script(ops, a, b) && Cost(ops) == EditDistance(a, b) && k < |ops| && ops[k] == Equal(i, j)
  {
    var rest := CheapestWalk(a, b, i + 1, j + 1);
    WalkCons(Equal(i, j), rest, a, b, i, j);
    hide Walk, CostFrom, Cost, Script, Canonical;
    CanonicalReaches(a, b, i, j, [Equal(i, j)] + rest);
    ops, k := Canonical(a, b, i, j) + ([Equal(i, j)] + rest), |Canonical(a, b, i, j)|;
  }

  /** A copied pair divides a way through the grid in two. */
  lemma {:induction false} WalkSplits<T>(ops: seq<Op>, a: seq<T>, b: seq<T>, i: nat, j: nat, k: nat)
    requires Walk(ops, a, b, i, j) && k < |ops| && ops[k].Equal?
    ensures
      var p, q := ops[k].base, ops[k].modified;
      && Matches(a, b, p, q) && Walk(ops[k + 1..], a, b, p + 1, q + 1)
      && Dist(a, b, p, q) + Cost(ops[k + 1..]) <= Dist(a, b, i, j) + Cost(ops)
    decreases k
  {
    hide Dist;
    if k > 0 {
      var i', j' := if ops[0].Insert? then i else i + 1, if ops[0].Delete? then j else j + 1;
      DistNeighbours(a, b, i, j);
      DistDiagonal(a, b, i, j);
      WalkSplits(ops[1..], a, b, i', j', k - 1);
      assert ops[1..][k - 1 + 1..] == ops[k + 1..];
    }
  }

  lemma CopiesOnShortest<T>(ops: seq<Op>, a: seq<T>, b: seq<T>, k: nat)
    requires Script(ops, a, b) && Cost(ops) == EditDistance(a, b) && k < |ops| && ops[k].Equal?
    ensures OnShortest(a, b, ops[k].base, ops[k].modified)
  {
    hide *;
    var i, j := ops[k].base, ops[k].modified;
    ScriptIsWalk(ops, a, b);
    WalkSplits(ops, a, b, 0, 0, k);
    CopySplits(a, b, i, j, ops[k + 1..]);
  }

  lemma ScriptIsWalk<T>(ops: seq<Op>, a: seq<T>, b: seq<T>)
    ensures Script(ops, a, b) <==> Walk(ops, a, b, 0, 0)
    ensures Dist(a, b, 0, 0) == 0
  {
  }

  /** A way on after a copied pair that costs no more than is left of the edit distance. */
  lemma CopySplits<T>(a: seq<T>, b: seq<T>, i: nat, j: nat, after: seq<Op>)
    requires Matches(a, b, i, j) && Walk(after, a, b, i + 1, j + 1)
    requires Dist(a, b, i, j) + Cost(after) <= EditDistance(a, b)
    ensures OnShortest(a, b, i, j)
  {
    WalkCostsFrom(after, a, b, i + 1, j + 1);
    hide Walk, CostFrom, Cost, Dist, EditDistance, Canonical;
    var rest := CheapestWalk(a, b, i + 1, j + 1);
    WalkCons(Equal(i, j), rest, a, b, i, j);
    CanonicalReaches(a, b, i, j, [Equal(i, j)] + rest);
    ScriptCostsAtLeast(Canonical(a, b, i, j) + ([Equal(i, j)] + rest), a, b);
  }
}
