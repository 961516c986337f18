/** The greedy recurrence behind the line diff: how far `d` edits reach on each diagonal, why that
    is the furthest possible, where the search therefore stops, and how many steps it takes.

    Round `d` visits the diagonals `-d, -d + 2, .., d`. They are numbered `0, 1, .., d` here, so the
    neighbours of the `i`-th one in the round before are its diagonals `i - 1` and `i`. */
module GreedySearch {
  import opened EditGraph

  /** The `i`-th diagonal of round `d`. */
  function Diagonal(d: int, i: int): int {
    2 * i - d
  }

  /** Follow matching lines down the diagonal from `(x, y)`; the base coordinate where they end. */
  function SlideEnd<T(==)>(a: seq<T>, b: seq<T>, x: int, y: int): (end: int)
    ensures x <= end && !Matches(a, b, end, end - x + y)
    decreases |a| - x
  {
    if Matches(a, b, x, y) then SlideEnd(a, b, x + 1, y + 1) else x
  }

  /** The first diagonal is entered by an insertion, the last by a deletion, any other from the
      neighbour that reaches further: an insertion comes from the diagonal above. */
  predicate FromAbove(d: int, i: int, below: int, above: int) {
    i == 0 || (i != d && below < above)
  }

  function Enter(d: int, i: int, below: int, above: int): int {
    if FromAbove(d, i, below, above) then above else below + 1
  }

  /** How far a round reaches on its `i`-th diagonal, from what the round before reached. */
  ghost function Next<T>(a: seq<T>, b: seq<T>, before: seq<int>, i: int): int
    requires 0 <= i <= |before|
  {
    var d := |before|;
    var below, above := if i == 0 then -1 else before[i - 1], if i == d then -1 else before[i];
    var e := Enter(d, i, below, above);
    SlideEnd(a, b, e, e - Diagonal(d, i))
  }

  ghost function NextRow<T>(a: seq<T>, b: seq<T>, before: seq<int>): (row: seq<int>)
    ensures |row| == |before| + 1
    ensures forall i {:trigger row[i]} :: 0 <= i < |row| ==> row[i] == Next(a, b, before, i)
  {
    seq(|before| + 1, i requires 0 <= i <= |before| => Next(a, b, before, i))
  }

  /** How far `d` edits reach on each of the round's diagonals. */
  ghost function Row<T>(a: seq<T>, b: seq<T>, d: int): (row: seq<int>)
    requires 0 <= d
    ensures |row| == d + 1
    decreases d
  {
    if d == 0 then [SlideEnd(a, b, 0, 0)] else NextRow(a, b, Row(a, b, d - 1))
  }

  /** How far `d` edits reach on the `i`-th diagonal. */
  ghost function Far<T>(a: seq<T>, b: seq<T>, d: int, i: int): int
    requires 0 <= i <= d
  {
    Row(a, b, d)[i]
  }

  /** How far the round before reached on the diagonal below; -1 if it did not have one. */
  ghost function Below<T>(a: seq<T>, b: seq<T>, d: int, i: int): int
    requires 0 <= i <= d
  {
    if i == 0 then -1 else Far(a, b, d - 1, i - 1)
  }

  ghost function Above<T>(a: seq<T>, b: seq<T>, d: int, i: int): int
    requires 0 <= i <= d
  {
    if i == d then -1 else Far(a, b, d - 1, i)
  }

  /** Where the search enters the `i`-th diagonal in round `d`. */
  ghost function Entry<T>(a: seq<T>, b: seq<T>, d: int, i: int): int
    requires 0 <= i <= d
  {
    if d == 0 then 0 else Enter(d, i, Below(a, b, d, i), Above(a, b, d, i))
  }

  lemma FarFromEntry<T>(a: seq<T>, b: seq<T>, d: int, i: int)
    requires 0 <= i <= d
    ensures Far(a, b, d, i) == SlideEnd(a, b, Entry(a, b, d, i), Entry(a, b, d, i) - Diagonal(d, i))
    ensures Entry(a, b, d, i) <= Far(a, b, d, i)
  {
    hide SlideEnd;
    if d > 0 {
      assert Far(a, b, d, i) == Next(a, b, Row(a, b, d - 1), i);
    }
  }

  lemma EntryInQuadrant<T>(a: seq<T>, b: seq<T>, d: int, i: int)
    requires 0 <= i <= d
    ensures 0 <= Entry(a, b, d, i) && Diagonal(d, i) <= Entry(a, b, d, i)
  {
    hide SlideEnd, Row, Far, Furthest;
    if d > 0 {
      if i != 0 {
        FarIsFurthest(a, b, d - 1, i - 1);
      }
      if i != d {
        FarIsFurthest(a, b, d - 1, i);
      }
      EntryWithin(a, b, d, i, Below(a, b, d, i), Above(a, b, d, i));
    }
  }

  /** `x` is the furthest point of diagonal `k` that `d` edits can reach: one line further along
      the diagonal is out of reach, and so is everything beyond. */
  ghost predicate Furthest<T>(a: seq<T>, b: seq<T>, d: int, k: int, x: int) {
    0 <= x && k <= x && Dist(a, b, x, x - k) <= d < Dist(a, b, x + 1, x + 1 - k)
  }

  lemma FurthestIsMaximal<T>(a: seq<T>, b: seq<T>, d: int, k: int, x: nat, x': nat)
    requires Furthest(a, b, d, k, x) && k <= x'
    ensures Dist(a, b, x', x' - k) <= d <==> x' <= x
  {
    hide Dist;
    if x' <= x {
      DistAlongDiagonal(a, b, x', x' - k, x - x');
    } else {
      DistAlongDiagonal(a, b, x + 1, x + 1 - k, x' - x - 1);
    }
  }

  /** A slide keeps the distance. */
  lemma {:induction false} SlideKeepsDist<T>(a: seq<T>, b: seq<T>, x: nat, y: nat)
    ensures Dist(a, b, SlideEnd(a, b, x, y), SlideEnd(a, b, x, y) - x + y) == Dist(a, b, x, y)
    decreases |a| - x
  {
    if Matches(a, b, x, y) {
      DistDiagonal(a, b, x, y);
      SlideKeepsDist(a, b, x + 1, y + 1);
    }
  }

  /** The furthest points of the two neighbouring diagonals; -1 stands for a diagonal the round
      before did not have. */
  ghost predicate Neighbours<T>(a: seq<T>, b: seq<T>, d: int, i: int, below: int, above: int) {
    && (if i == 0 then below == -1 else Furthest(a, b, d - 1, Diagonal(d, i) - 1, below))
    && (if i == d then above == -1 else Furthest(a, b, d - 1, Diagonal(d, i) + 1, above))
  }

  lemma EntryWithin<T>(a: seq<T>, b: seq<T>, d: int, i: int, below: int, above: int)
    requires 0 <= i <= d && 0 < d && Neighbours(a, b, d, i, below, above)
    ensures
      var e, k := Enter(d, i, below, above), Diagonal(d, i);
      0 <= e && k <= e && below < e && above <= e && Dist(a, b, e, e - k) <= d
  {
    hide Dist;
    var e, k := Enter(d, i, below, above), Diagonal(d, i);
    if FromAbove(d, i, below, above) {
      DistNeighbours(a, b, e, e - k - 1);
    } else {
      DistNeighbours(a, b, e - 1, e - k);
    }
  }

  lemma NextOutOfReach<T>(a: seq<T>, b: seq<T>, d: int, i: int, below: int, above: int, x: nat)
    requires 0 <= i <= d && 0 < d && Neighbours(a, b, d, i, below, above)
    requires Diagonal(d, i) <= x && below < x && above <= x && !Matches(a, b, x, x - Diagonal(d, i))
    ensures Dist(a, b, x + 1, x + 1 - Diagonal(d, i)) > d
  {
    hide Dist;
    var k := Diagonal(d, i);
    if i != 0 {
      FurthestIsMaximal(a, b, d - 1, k - 1, below, x);
    } else {
      DistBounds(a, b, x, x + 1 - k);
    }
    if i != d {
      FurthestIsMaximal(a, b, d - 1, k + 1, above, x + 1);
    } else {
      DistBounds(a, b, x + 1, x - k);
    }
    DistDiagonal(a, b, x, x - k);
  }

  /** One step of the greedy choice. */
  lemma FurthestAfterSlide<T>(a: seq<T>, b: seq<T>, d: int, i: int, below: int, above: int)
    requires 0 <= i <= d && 0 < d && Neighbours(a, b, d, i, below, above)
    ensures
      var e, k := Enter(d, i, below, above), Diagonal(d, i);
      0 <= e && k <= e && 0 <= SlideEnd(a, b, e, e - k) && Furthest(a, b, d, k, SlideEnd(a, b, e, e - k))
  {
    hide SlideEnd, Dist;
    var e, k := Enter(d, i, below, above), Diagonal(d, i);
    EntryWithin(a, b, d, i, below, above);
    SlideKeepsDist(a, b, e, e - k);
    NextOutOfReach(a, b, d, i, below, above, SlideEnd(a, b, e, e - k));
  }

  lemma FurthestAtStart<T>(a: seq<T>, b: seq<T>)
    ensures 0 <= SlideEnd(a, b, 0, 0) && Furthest(a, b, 0, 0, SlideEnd(a, b, 0, 0))
  {
    hide SlideEnd, Lcs;
    var x := SlideEnd(a, b, 0, 0);
    SlideKeepsDist(a, b, 0, 0);
    DistBounds(a, b, x, x + 1);
    DistBounds(a, b, x + 1, x);
    DistDiagonal(a, b, x, x);
  }

  /** The greedy choice loses nothing: each round reaches the furthest point of every diagonal. */
  lemma {:induction false} FarIsFurthest<T>(a: seq<T>, b: seq<T>, d: int, i: int)
    requires 0 <= i <= d
    ensures 0 <= Far(a, b, d, i) && Furthest(a, b, d, Diagonal(d, i), Far(a, b, d, i))
    decreases d
  {
    hide SlideEnd, Row, Far, Furthest;
    if d == 0 {
      FurthestAtStart(a, b);
      FarFromEntry(a, b, d, i);
    } else {
      if i != 0 {
        FarIsFurthest(a, b, d - 1, i - 1);
      }
      if i != d {
        FarIsFurthest(a, b, d - 1, i);
      }
      FurthestAfterSlide(a, b, d, i, Below(a, b, d, i), Above(a, b, d, i));
      FarFromEntry(a, b, d, i);
    }
  }

  /** The place of the corner's diagonal in the round of the edit distance: the number of lines a
      shortest script deletes. */
  ghost function CornerIndex<T>(a: seq<T>, b: seq<T>): int {
    |a| - Lcs(a, b, |a|, |b|)
  }

  lemma CornerInRound<T>(a: seq<T>, b: seq<T>)
    ensures 0 <= CornerIndex(a, b) <= EditDistance(a, b) <= |a| + |b|
    ensures Diagonal(EditDistance(a, b), CornerIndex(a, b)) == |a| - |b|
  {
    DistBounds(a, b, |a|, |b|);
  }

  /** The search's own stop test on the `i`-th diagonal of round `d`. */
  ghost predicate AtEnd<T>(a: seq<T>, b: seq<T>, d: int, i: int)
    requires 0 <= i <= d
  {
    Far(a, b, d, i) >= |a| && Far(a, b, d, i) - Diagonal(d, i) >= |b|
  }

  lemma CornerTest<T>(a: seq<T>, b: seq<T>, d: int, k: int, x: nat)
    requires Furthest(a, b, d, k, x) && d <= EditDistance(a, b)
    ensures (x >= |a| && x - k >= |b|) <==> (d == EditDistance(a, b) && k == |a| - |b|)
    ensures d == EditDistance(a, b) && k == |a| - |b| ==> x == |a|
  {
    hide Lcs;
    if x >= |a| && x - k >= |b| {
      DistPastCorner(a, b, x, x - k);
    } else if k == |a| - |b| {
      FurthestIsMaximal(a, b, d, k, x, |a|);
    }
  }

  /** The search stops exactly when the edit distance is reached, and exactly at the far corner,
      although points outside the grid are visited on the way. */
  lemma StopsAtCorner<T>(a: seq<T>, b: seq<T>, d: int, i: int)
    requires 0 <= i <= d <= EditDistance(a, b)
    ensures AtEnd(a, b, d, i) <==> (d == EditDistance(a, b) && i == CornerIndex(a, b))
    ensures d == EditDistance(a, b) && i == CornerIndex(a, b) ==> Far(a, b, d, i) == |a|
  {
    hide Row, Far, Furthest;
    FarIsFurthest(a, b, d, i);
    CornerTest(a, b, d, Diagonal(d, i), Far(a, b, d, i));
    CornerInRound(a, b);
  }

  // ----- the number of steps -----

  /** Lines slid over on the `i`-th diagonal in round `d`. */
  ghost function Slid<T>(a: seq<T>, b: seq<T>, d: int, i: int): nat
    requires 0 <= i <= d
  {
    FarFromEntry(a, b, d, i);
    Far(a, b, d, i) - Entry(a, b, d, i)
  }

  /** Steps spent when the rounds before `d` and the first `i` diagonals of round `d` are done: one
      for each diagonal visited and one for each line slid over. */
  ghost function Steps<T>(a: seq<T>, b: seq<T>, d: int, i: int): nat
    requires 0 <= d && 0 <= i <= d + 1
    decreases d, i
  {
    if i > 0 then Steps(a, b, d, i - 1) + 1 + Slid(a, b, d, i - 1)
    else if d > 0 then Steps(a, b, d - 1, d)
    else 0
  }

  /** Steps of a complete search: up to and including the corner's diagonal. */
  ghost function SearchSteps<T>(a: seq<T>, b: seq<T>): nat {
    CornerInRound(a, b);
    Steps(a, b, EditDistance(a, b), CornerIndex(a, b) + 1)
  }

  lemma {:induction false} StepsGrow<T>(a: seq<T>, b: seq<T>, d: int, i: int, d': int, i': int)
    requires 0 <= d && 0 <= d' && 0 <= i <= d + 1 && 0 <= i' <= d' + 1
    requires d < d' || (d == d' && i <= i')
    ensures Steps(a, b, d, i) <= Steps(a, b, d', i')
    decreases d', i'
  {
    hide Steps;
    if d == d' && i == i' {
    } else if i' > 0 {
      StepsGrow(a, b, d, i, d', i' - 1);
      StepsOneMore(a, b, d', i' - 1);
    } else {
      StepsGrow(a, b, d, i, d' - 1, d');
      StepsOfRound(a, b, d' - 1);
    }
  }

  lemma StepsOneMore<T>(a: seq<T>, b: seq<T>, d: int, i: int)
    requires 0 <= i <= d
    ensures Steps(a, b, d, i + 1) == Steps(a, b, d, i) + 1 + Slid(a, b, d, i)
  {
  }

  lemma StepsOfRound<T>(a: seq<T>, b: seq<T>, d: int)
    requires 0 <= d
    ensures Steps(a, b, d + 1, 0) == Steps(a, b, d, d + 1)
  {
  }

  /** Two rounds on, a diagonal is entered beyond where it was left: slides never overlap. */
  lemma SlidesAreDisjoint<T>(a: seq<T>, b: seq<T>, d: int, i: int)
    requires 0 <= i <= d
    ensures Far(a, b, d, i) < Entry(a, b, d + 2, i + 1)
  {
    hide Row, Far, Furthest;
    var x, above := Far(a, b, d, i), Far(a, b, d + 1, i + 1);
    FarIsFurthest(a, b, d, i);
    FarIsFurthest(a, b, d + 1, i + 1);
    EditReachesNext(a, b, d, Diagonal(d, i), x, above);
    assert above == Above(a, b, d + 2, i + 1);
  }

  lemma EditReachesNext<T>(a: seq<T>, b: seq<T>, d: int, k: int, x: nat, above: nat)
    requires Furthest(a, b, d, k, x) && Furthest(a, b, d + 1, k + 1, above)
    ensures x < above
  {
    hide Dist;
    DistNeighbours(a, b, x, x - k);
    FurthestIsMaximal(a, b, d + 1, k + 1, above, x + 1);
  }

  function Min(x: int, y: int): int {
    if x < y then x else y
  }

  /** Lines of diagonal `k` inside the grid and before base coordinate `x`. */
  function Covered(n: nat, m: nat, k: int, x: int): int {
    var begin := if k > 0 then k else 0;
    var end := Min(Min(x, n), m + k);
    if end < begin then 0 else end - begin
  }

  lemma CoveredGrows(n: nat, m: nat, k: int, left: int, e: int, x: int)
    requires 0 <= e <= x && k <= e && left <= e
    requires e < x ==> x <= n && x <= m + k
    ensures Covered(n, m, k, left) + (x - e) <= Covered(n, m, k, x)
  {
  }

  lemma CoveredBound(n: nat, m: nat, k: int, x: int)
    ensures 0 <= Covered(n, m, k, x) <= Min(n, m)
  {
  }

  function Sum(s: seq<int>): int {
    if s == [] then 0 else Sum(s[..|s| - 1]) + s[|s| - 1]
  }

  lemma {:induction false} SumUpdate(s: seq<int>, i: nat, x: int)
    requires i < |s|
    ensures Sum(s[i := x]) == Sum(s) - s[i] + x
    decreases |s|
  {
    var t := s[i := x];
    if i < |s| - 1 {
      SumUpdate(s[..|s| - 1], i, x);
      assert t[..|s| - 1] == s[..|s| - 1][i := x];
    } else {
      assert t[..|s| - 1] == s[..|s| - 1];
    }
  }

  lemma {:induction false} SumShift(s: seq<int>)
    ensures Sum([0] + s) == Sum(s)
    decreases |s|
  {
    var t := [0] + s;
    if s != [] {
      assert t[..|t| - 1] == [0] + s[..|s| - 1];
      SumShift(s[..|s| - 1]);
    } else {
      assert t == [0] && t[..0] == [];
    }
  }

  lemma SumPad(s: seq<int>)
    ensures Sum([0] + s + [0]) == Sum(s)
  {
    var t := [0] + s + [0];
    assert t[..|t| - 1] == [0] + s;
    SumShift(s);
  }

  lemma {:induction false} SumBound(s: seq<int>, bound: nat)
    requires forall i :: 0 <= i < |s| ==> s[i] <= bound
    ensures Sum(s) <= |s| * bound
    decreases |s|
  {
    if s != [] {
      SumBound(s[..|s| - 1], bound);
      assert |s| * bound == (|s| - 1) * bound + bound;
    }
  }

  /** `0 + 1 + .. + d`. */
  function Triangle(d: nat): nat {
    if d == 0 then 0 else Triangle(d - 1) + d
  }

  lemma {:induction false} TriangleIsHalfProduct(d: nat)
    ensures Triangle(d) == d * (d + 1) / 2
  {
    if d > 0 {
      TriangleIsHalfProduct(d - 1);
      assert d * (d + 1) == (d - 1) * d + 2 * d;
    }
  }

  /** How far a diagonal visited in round `d` had been followed two rounds before. */
  ghost function LeftBefore<T>(a: seq<T>, b: seq<T>, d: int, i: int): int
    requires 0 <= i <= d
  {
    if 0 < i < d then Far(a, b, d - 2, i - 1) else 0
  }

  /** `reached[k + d]` is how far diagonal `k` has been followed when `i` diagonals of round `d` are
      done: even places belong to this round's diagonals, odd places to the round before's. */
  ghost predicate Snapshot<T>(a: seq<T>, b: seq<T>, d: int, i: int, reached: seq<int>) {
    && 0 <= i <= d + 1 && |reached| == 2 * d + 1
    && (forall j {:trigger Far(a, b, d, j)} :: 0 <= j < i ==> reached[2 * j] == Far(a, b, d, j))
    && (forall j {:trigger LeftBefore(a, b, d, j)} :: i <= j <= d ==> reached[2 * j] == LeftBefore(a, b, d, j))
    && (forall j {:trigger Far(a, b, d - 1, j)} :: 0 <= j < d ==> reached[2 * j + 1] == Far(a, b, d - 1, j))
  }

  /** The lines slid over so far, diagonal by diagonal: never more than the grid holds there. */
  ghost predicate Ledger(n: nat, m: nat, d: int, slid: seq<int>, reached: seq<int>) {
    && |slid| == |reached| == 2 * d + 1
    && forall j {:trigger slid[j]} :: 0 <= j < |slid| ==> slid[j] <= Covered(n, m, j - d, reached[j])
  }

  lemma {:induction false} SlideMatches<T>(a: seq<T>, b: seq<T>, x: nat, y: nat, t: nat)
    requires x <= t < SlideEnd(a, b, x, y)
    ensures Matches(a, b, t, t - x + y)
    decreases t - x
  {
    if x < t {
      SlideMatches(a, b, x + 1, y + 1, t);
    }
  }

  lemma SlideInGrid<T>(a: seq<T>, b: seq<T>, x: nat, y: nat, end: nat)
    requires end == SlideEnd(a, b, x, y)
    ensures x < end ==> end <= |a| && end - x + y <= |b|
  {
    if x < end {
      SlideMatches(a, b, x, y, end - 1);
    }
  }

  lemma LeftBeforeEntry<T>(a: seq<T>, b: seq<T>, d: int, i: int)
    requires 0 <= i <= d
    ensures LeftBefore(a, b, d, i) <= Entry(a, b, d, i)
  {
    hide Row, Far, Entry;
    EntryInQuadrant(a, b, d, i);
    if 0 < i < d {
      SlidesAreDisjoint(a, b, d - 2, i - 1);
    }
  }

  lemma SlideIsCovered<T>(a: seq<T>, b: seq<T>, d: int, i: int)
    requires 0 <= i <= d
    ensures Covered(|a|, |b|, Diagonal(d, i), LeftBefore(a, b, d, i)) + Slid(a, b, d, i)
         <= Covered(|a|, |b|, Diagonal(d, i), Far(a, b, d, i))
  {
    hide SlideEnd, Row, Far, Covered, LeftBefore, Entry;
    var e, k := Entry(a, b, d, i), Diagonal(d, i);
    FarFromEntry(a, b, d, i);
    EntryInQuadrant(a, b, d, i);
    LeftBeforeEntry(a, b, d, i);
    SlideInGrid(a, b, e, e - k, Far(a, b, d, i));
    CoveredGrows(|a|, |b|, k, LeftBefore(a, b, d, i), e, Far(a, b, d, i));
  }

  lemma SnapshotAfterDiagonal<T>(a: seq<T>, b: seq<T>, d: int, i: int, reached: seq<int>)
    requires 0 <= i <= d && Snapshot(a, b, d, i, reached)
    ensures Snapshot(a, b, d, i + 1, reached[2 * i := Far(a, b, d, i)])
  {
    hide Far, LeftBefore;
  }

  lemma SnapshotAfterRound<T>(a: seq<T>, b: seq<T>, d: int, reached: seq<int>)
    requires 0 <= d && Snapshot(a, b, d, d + 1, reached)
    ensures Snapshot(a, b, d + 1, 0, [0] + reached + [0])
  {
    hide Far;
    var reached' := [0] + reached + [0];
    forall j {:trigger LeftBefore(a, b, d + 1, j)} | 0 <= j <= d + 1
      ensures reached'[2 * j] == LeftBefore(a, b, d + 1, j)
    {
      if 0 < j <= d {
        assert reached'[2 * j] == reached[2 * (j - 1) + 1] == Far(a, b, d - 1, j - 1);
      }
    }
  }

  lemma LedgerAfterDiagonal<T>(a: seq<T>, b: seq<T>, d: int, i: int, slid: seq<int>, reached: seq<int>)
    returns (slid': seq<int>, reached': seq<int>)
    requires 0 <= i <= d
    requires Ledger(|a|, |b|, d, slid, reached) && Snapshot(a, b, d, i, reached)
    ensures Ledger(|a|, |b|, d, slid', reached') && Snapshot(a, b, d, i + 1, reached')
    ensures Sum(slid') == Sum(slid) + Slid(a, b, d, i)
  {
    hide Far, Covered, LeftBefore, Slid, Sum;
    var s, x := Slid(a, b, d, i), Far(a, b, d, i);
    SumUpdate(slid, 2 * i, slid[2 * i] + s);
    SlideIsCovered(a, b, d, i);
    assert reached[2 * i] == LeftBefore(a, b, d, i);
    SnapshotAfterDiagonal(a, b, d, i, reached);
    slid', reached' := slid[2 * i := slid[2 * i] + s], reached[2 * i := x];
  }

  lemma LedgerAfterRound(n: nat, m: nat, d: int, slid: seq<int>, reached: seq<int>)
    requires 0 <= d && Ledger(n, m, d, slid, reached)
    ensures Ledger(n, m, d + 1, [0] + slid + [0], [0] + reached + [0])
  {
    var slid', reached' := [0] + slid + [0], [0] + reached + [0];
    forall j {:trigger slid'[j]} | 0 <= j < |slid'|
      ensures slid'[j] <= Covered(n, m, j - (d + 1), reached'[j])
    {
      if 0 < j < |slid'| - 1 {
        assert slid'[j] == slid[j - 1] && reached'[j] == reached[j - 1];
      }
    }
  }

  lemma LedgerAtStart<T>(a: seq<T>, b: seq<T>)
    ensures Ledger(|a|, |b|, 0, [0], [0]) && Snapshot(a, b, 0, 0, [0])
    ensures Steps(a, b, 0, 0) == Triangle(0) + Sum([0])
  {
    assert [0][..0] == [];
  }

  lemma {:induction false} StepsLedger<T>(a: seq<T>, b: seq<T>, d: int, i: int)
    returns (slid: seq<int>, reached: seq<int>)
    requires 0 <= d && 0 <= i <= d + 1
    ensures Ledger(|a|, |b|, d, slid, reached) && Snapshot(a, b, d, i, reached)
    ensures Steps(a, b, d, i) == Triangle(d) + i + Sum(slid)
    decreases d, i
  {
    hide Far, Covered, Slid, LeftBefore, Steps, Sum, Ledger, Snapshot;
    if i > 0 {
      slid, reached := StepsLedger(a, b, d, i - 1);
      slid, reached := LedgerAfterDiagonal(a, b, d, i - 1, slid, reached);
      StepsOneMore(a, b, d, i - 1);
    } else if d > 0 {
      slid, reached := StepsLedger(a, b, d - 1, d);
      SumPad(slid);
      LedgerAfterRound(|a|, |b|, d - 1, slid, reached);
      SnapshotAfterRound(a, b, d - 1, reached);
      slid, reached := [0] + slid + [0], [0] + reached + [0];
      StepsOfRound(a, b, d - 1);
    } else {
      slid, reached := [0], [0];
      LedgerAtStart(a, b);
    }
  }

  /** The amortised cost: although round `d` visits `d + 1` diagonals, all slides together cost no
      more than one pass over each diagonal. */
  lemma StepsBound<T>(a: seq<T>, b: seq<T>, d: int, i: int)
    requires 0 <= d && 0 <= i <= d + 1
    ensures Steps(a, b, d, i) <= Triangle(d) + i + (2 * d + 1) * Min(|a|, |b|)
  {
    hide Far, Covered, Steps;
    var slid, reached := StepsLedger(a, b, d, i);
    forall j | 0 <= j < |slid|
      ensures slid[j] <= Min(|a|, |b|)
    {
      CoveredBound(|a|, |b|, j - d, reached[j]);
    }
    SumBound(slid, Min(|a|, |b|));
  }

  /** The cost of a complete search in terms of the edit distance. */
  lemma SearchStepsBound<T>(a: seq<T>, b: seq<T>, d: int)
    requires d == EditDistance(a, b)
    ensures 0 <= d && SearchSteps(a, b) <= (d + 1) * (d + 2) / 2 + (2 * d + 1) * Min(|a|, |b|)
  {
    hide Steps;
    CornerInRound(a, b);
    StepsBound(a, b, d, CornerIndex(a, b) + 1);
    TriangleIsHalfProduct(d + 1);
  }

  /** The pair `t` places down the diagonal from `(x, y)` matches. */
  predicate MatchesAfter<T(==)>(a: seq<T>, b: seq<T>, x: int, y: int, t: int) {
    Matches(a, b, x + t, y + t)
  }

  /** What a visit costs: one step, and one for each matching pair in a row from where the diagonal is
      entered; and a round begins with what the rounds before it cost. */
  lemma VisitCost<T>(a: seq<T>, b: seq<T>, d: int, i: int)
    requires 0 <= i <= d
    ensures Steps(a, b, 0, 0) == 0 && Steps(a, b, d + 1, 0) == Steps(a, b, d, d + 1)
    ensures
      var slid := Steps(a, b, d, i + 1) - Steps(a, b, d, i) - 1;
      var x, y := Entry(a, b, d, i), Entry(a, b, d, i) - Diagonal(d, i);
      && 0 <= slid && !MatchesAfter(a, b, x, y, slid)
      && forall t :: 0 <= t < slid ==> MatchesAfter(a, b, x, y, t)
  {
    hide *;
    NoSteps(a, b);
    StepsOneMore(a, b, d, i);
    StepsOfRound(a, b, d);
    FarFromEntry(a, b, d, i);
    EntryInQuadrant(a, b, d, i);
    SlidIsRest(a, b, d, i);
    SlideIsRun(a, b, Entry(a, b, d, i), Entry(a, b, d, i) - Diagonal(d, i));
  }

  lemma SlideIsRun<T>(a: seq<T>, b: seq<T>, x: nat, y: nat)
    ensures
      var slid := SlideEnd(a, b, x, y) - x;
      0 <= slid && !MatchesAfter(a, b, x, y, slid) && forall t :: 0 <= t < slid ==> MatchesAfter(a, b, x, y, t)
  {
    hide Matches;
    forall t | 0 <= t < SlideEnd(a, b, x, y) - x
      ensures MatchesAfter(a, b, x, y, t)
    {
      SlideMatches(a, b, x, y, x + t);
    }
  }

  lemma NoSteps<T>(a: seq<T>, b: seq<T>)
    ensures Steps(a, b, 0, 0) == 0
  {
  }

  lemma EntryAtStart<T>(a: seq<T>, b: seq<T>)
    ensures Entry(a, b, 0, 0) == 0
  {
  }

  lemma SlidIsRest<T>(a: seq<T>, b: seq<T>, d: int, i: int)
    requires 0 <= i <= d
    ensures Slid(a, b, d, i) == Far(a, b, d, i) - Entry(a, b, d, i)
  {
    hide Far, Entry;
  }

  /** A diagonal was entered from a neighbour of the round before, one edit away. */
  lemma EntryFrom<T>(a: seq<T>, b: seq<T>, d: int, i: int) returns (j: int)
    requires 0 < d && 0 <= i <= d
    ensures 0 <= j < d && j <= i
    ensures 2 * Entry(a, b, d, i) - Diagonal(d, i) == 2 * Far(a, b, d - 1, j) - Diagonal(d - 1, j) + 1
  {
    hide Far;
    j := if FromAbove(d, i, Below(a, b, d, i), Above(a, b, d, i)) then i else i - 1;
  }

  /** Every line copied on the way to a point has been slid over: a step for each of them, and one for
      each diagonal visited. */
  lemma {:induction false} StepsAtLeast<T>(a: seq<T>, b: seq<T>, d: int, i: int)
    requires 0 <= i <= d
    ensures 2 * (Steps(a, b, d, i + 1) - Triangle(d) - i - 1) >= 2 * Far(a, b, d, i) - Diagonal(d, i) - d
    decreases d
  {
    hide Far, Entry, Steps, Slid, Row;
    SlidIsRest(a, b, d, i);
    StepsOneMore(a, b, d, i);
    if d == 0 {
      NoSteps(a, b);
      assert Entry(a, b, d, i) == 0 by {
        EntryAtStart(a, b);
      }
    } else {
      var j := EntryFrom(a, b, d, i);
      StepsAtLeast(a, b, d - 1, j);
      StepsOfRound(a, b, d - 1);
      ExcessGrows(a, b, d - 1, j + 1, d);
      ExcessGrows(a, b, d, 0, i);
    }
  }

  /** Each visit costs a step at least. */
  lemma {:induction false} ExcessGrows<T>(a: seq<T>, b: seq<T>, d: int, i: int, i': int)
    requires 0 <= d && 0 <= i <= i' <= d + 1
    ensures Steps(a, b, d, i') - i' >= Steps(a, b, d, i) - i
    decreases i'
  {
    hide Steps, Slid;
    if i < i' {
      ExcessGrows(a, b, d, i, i' - 1);
      StepsOneMore(a, b, d, i' - 1);
    }
  }

  /** Each diagonal visited costs a step at least. */
  lemma {:induction false} StepsPerDiagonal<T>(a: seq<T>, b: seq<T>, d: int, i: int)
    requires 0 <= d && 0 <= i <= d + 1
    ensures Steps(a, b, d, i) >= Triangle(d) + i
    decreases d
  {
    hide Steps;
    ExcessGrows(a, b, d, 0, i);
    if d == 0 {
      NoSteps(a, b);
    } else {
      StepsPerDiagonal(a, b, d - 1, d);
      StepsOfRound(a, b, d - 1);
    }
  }

  /** A complete search pays for every line a shortest script copies and for every diagonal up to the
      corner's. */
  lemma SearchStepsAtLeast<T>(a: seq<T>, b: seq<T>, d: int)
    requires d == EditDistance(a, b)
    ensures 0 <= d && 0 <= CornerIndex(a, b)
    ensures SearchSteps(a, b) >= d * (d + 1) / 2 + CornerIndex(a, b) + 1 + Lcs(a, b, |a|, |b|)
    ensures SearchSteps(a, b) >= d + 1 + Lcs(a, b, |a|, |b|)
  {
    var i := CornerIndex(a, b);
    CornerInRound(a, b);
    StopsAtCorner(a, b, d, i);
    hide Far, Steps, Lcs;
    StepsAtLeast(a, b, d, i);
    TriangleIsHalfProduct(d);
    TriangleAtLeast(d);
  }

  lemma {:induction false} TriangleAtLeast(d: nat)
    ensures Triangle(d) >= d
  {
    if d > 1 {
      TriangleAtLeast(d - 1);
    }
  }
}
