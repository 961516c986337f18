/** Rendering one converted file, and what a reader of the rendered diff can rely on. */
module Render {
  import opened Wrappers
  import opened EditGraph
  import opened GreedySearch
  import opened LineDiff
  import opened TextLines
  import opened Patch
  import opened PatchText
  import opened Hunks

  // ----- printed hunks can be read -----

  lemma EntrySpans(ops: seq<Op>, a: seq<Line>, b: seq<Line>, k: nat)
    requires k < |ops| && Ordered(ops, |a|, |b|) && NoNewlines(a) && NoNewlines(b)
    ensures InPlace(ops, |a|, |b|, k)
    ensures
      var e := EntryOf(ops[k], a, b);
      && '\n' !in e.line.text
      && CountA(ops, k + 1) == CountA(ops, k) + SpanA(e) && CountB(ops, k + 1) == CountB(ops, k) + SpanB(e)
  {
    assert InPlace(ops, |a|, |b|, k);
  }

  lemma BodySpansCons(e: Entry<Line>, body: seq<Entry<Line>>)
    ensures BodySpanA([e] + body) == SpanA(e) + BodySpanA(body)
    ensures BodySpanB([e] + body) == SpanB(e) + BodySpanB(body)
    ensures '\n' !in e.line.text && PlainBody(body) ==> PlainBody([e] + body)
  {
    hide SpanA, SpanB;
    assert ([e] + body)[1..] == body;
  }

  lemma NoBody(ops: seq<Op>, a: seq<Line>, b: seq<Line>, start: nat)
    requires start <= |ops| && Ordered(ops, |a|, |b|)
    ensures
      var body := BodyOf(ops, a, b, start, start);
      PlainBody(body) && BodySpanA(body) == 0 && BodySpanB(body) == 0
  {
    hide Ordered;
  }

  lemma FirstOfBody(ops: seq<Op>, a: seq<Line>, b: seq<Line>, start: nat, end: nat)
    requires start < end <= |ops| && Ordered(ops, |a|, |b|)
    ensures InPlace(ops, |a|, |b|, start)
    ensures BodyOf(ops, a, b, start, end) == [EntryOf(ops[start], a, b)] + BodyOf(ops, a, b, start + 1, end)
  {
    OperationInPlace(ops, |a|, |b|, start);
    hide Ordered, EntryOf, InPlace;
  }

  lemma {:induction false} BodyIsWellFormed(ops: seq<Op>, a: seq<Line>, b: seq<Line>, start: nat, end: nat)
    requires start <= end <= |ops| && Ordered(ops, |a|, |b|) && NoNewlines(a) && NoNewlines(b)
    ensures PlainBody(BodyOf(ops, a, b, start, end))
    ensures BodySpanA(BodyOf(ops, a, b, start, end)) == CountA(ops, end) - CountA(ops, start)
    ensures BodySpanB(BodyOf(ops, a, b, start, end)) == CountB(ops, end) - CountB(ops, start)
    decreases end - start
  {
    hide *;
    if start == end {
      NoBody(ops, a, b, start);
    } else {
      EntrySpans(ops, a, b, start);
      FirstOfBody(ops, a, b, start, end);
      BodyIsWellFormed(ops, a, b, start + 1, end);
      BodySpansCons(EntryOf(ops[start], a, b), BodyOf(ops, a, b, start + 1, end));
    }
  }

  lemma {:induction false} HunksAreWellFormed(ops: seq<Op>, a: seq<Line>, b: seq<Line>, groups: seq<Group>, from: nat)
    requires Ordered(ops, |a|, |b|) && Grouping(ops, groups, from) && NoNewlines(a) && NoNewlines(b)
    ensures AllWellFormed(HunksOf(ops, a, b, groups, from))
    decreases |groups|
  {
    hide Ordered, NoNewlines, BodyOf, CountA, CountB, BodySpanA, BodySpanB, PlainBody;
    if groups != [] {
      var g := groups[0];
      HunksOfCons(ops, a, b, groups, from);
      BodyIsWellFormed(ops, a, b, StartOf(g), EndOf(g, |ops|));
      HunksAreWellFormed(ops, a, b, groups[1..], g.last + 1);
      var hunks := HunksOf(ops, a, b, groups, from);
      forall i | 0 <= i < |hunks|
        ensures WellFormed(hunks[i])
      {
        assert i > 0 ==> hunks[i] == hunks[1..][i - 1];
      }
    }
  }

  // ----- forgetting the newline marks -----

  function PlainEntries(body: seq<Entry<Line>>): seq<Entry<string>> {
    if body == [] then [] else [Entry(body[0].kind, body[0].line.text)] + PlainEntries(body[1..])
  }

  /** Hunks as a reader sees them who leaves the newline marks aside. */
  function Plain(hunks: seq<Hunk<Line>>): seq<Hunk<string>> {
    if hunks == [] then []
    else
      var h := hunks[0];
      [Hunk(h.aPos, h.aLen, h.bPos, h.bLen, PlainEntries(h.body))] + Plain(hunks[1..])
  }

  lemma {:induction false} PlainBodyOf(ops: seq<Op>, a: Lines, b: Lines, start: nat, end: nat)
    requires start <= end <= |ops| && Ordered(ops, |a.lines|, |b.lines|)
    ensures PlainEntries(BodyOf(ops, Marked(a), Marked(b), start, end)) == BodyOf(ops, a.lines, b.lines, start, end)
    decreases end - start
  {
    if start < end {
      var body := BodyOf(ops, Marked(a), Marked(b), start, end);
      PlainBodyOf(ops, a, b, start + 1, end);
      assert InPlace(ops, |a.lines|, |b.lines|, start);
      assert body[1..] == BodyOf(ops, Marked(a), Marked(b), start + 1, end);
    }
  }

  lemma {:induction false} PlainHunksOf(ops: seq<Op>, a: Lines, b: Lines, groups: seq<Group>, from: nat)
    requires Ordered(ops, |a.lines|, |b.lines|) && Grouping(ops, groups, from)
    ensures Plain(HunksOf(ops, Marked(a), Marked(b), groups, from)) == HunksOf(ops, a.lines, b.lines, groups, from)
    decreases |groups|
  {
    hide Ordered, BodyOf, CountA, CountB, PlainEntries, Grouping, HunksOf;
    if groups == [] {
      NoGroups(ops, Marked(a), Marked(b), from);
      NoGroups(ops, a.lines, b.lines, from);
    } else {
      var g := groups[0];
      HunksOfCons(ops, Marked(a), Marked(b), groups, from);
      HunksOfCons(ops, a.lines, b.lines, groups, from);
      PlainBodyOf(ops, a, b, StartOf(g), EndOf(g, |ops|));
      NextGrouping(ops, groups, from);
      PlainHunksOf(ops, a, b, groups[1..], g.last + 1);
      ghost var hunks := HunksOf(ops, a.lines, b.lines, groups, from);
      assert hunks == [hunks[0]] + hunks[1..];
    }
  }

  lemma NextGrouping(ops: seq<Op>, groups: seq<Group>, from: nat)
    requires Grouping(ops, groups, from) && groups != []
    ensures Grouping(ops, groups[1..], groups[0].last + 1)
  {
  }

  lemma NoGroups<T>(ops: seq<Op>, a: seq<T>, b: seq<T>, from: nat)
    requires Ordered(ops, |a|, |b|) && Grouping(ops, [], from)
    ensures HunksOf(ops, a, b, [], from) == []
  {
  }

  /** The hunks printed for a script of the lines of two texts. */
  ghost function Printed(ops: seq<Op>, s: string, t: string, groups: seq<Group>): string
    requires Script(ops, LinesOf(s).lines, LinesOf(t).lines) && Grouping(ops, groups, 0)
  {
    ApplyGivesModified(ops, LinesOf(s).lines, LinesOf(t).lines, groups);
    ShowHunks(HunksOf(ops, Marked(LinesOf(s)), Marked(LinesOf(t)), groups, 0))
  }

  lemma PrintedIsReadable(ops: seq<Op>, s: string, t: string, groups: seq<Group>)
    requires Script(ops, LinesOf(s).lines, LinesOf(t).lines) && Grouping(ops, groups, 0)
    ensures Ordered(ops, |LinesOf(s).lines|, |LinesOf(t).lines|)
    ensures ReadHunks(Printed(ops, s, t, groups))
         == Some(HunksOf(ops, Marked(LinesOf(s)), Marked(LinesOf(t)), groups, 0))
  {
    var a, b := LinesOf(s), LinesOf(t);
    ApplyGivesModified(ops, a.lines, b.lines, groups);
    LinesRoundTrip(s);
    LinesRoundTrip(t);
    hide Ordered, Script, Grouping, HunksOf, NoNewlines, ShowHunks, ReadHunks, AllWellFormed;
    HunksAreWellFormed(ops, Marked(a), Marked(b), groups, 0);
    ReadPrintedHunks(HunksOf(ops, Marked(a), Marked(b), groups, 0));
  }

  /** Reading the printed hunks and applying them to the base lines gives the modified lines;
      applying them in reverse gives the base lines. */
  lemma PrintedDiffApplies(ops: seq<Op>, s: string, t: string, groups: seq<Group>)
    requires Script(ops, LinesOf(s).lines, LinesOf(t).lines) && Grouping(ops, groups, 0)
    ensures
      var a, b := LinesOf(s).lines, LinesOf(t).lines;
      match ReadHunks(Printed(ops, s, t, groups))
      case None => false
      case Some(hunks) =>
        && Apply(a, Plain(hunks)) == Some(b)
        && Apply(b, ReverseHunks(Plain(hunks))) == Some(a)
  {
    hide Script, Grouping, HunksOf, ShowHunks, ReadHunks, Ordered, LinesOf, Marked, Apply, ReverseHunks, Plain;
    var a, b := LinesOf(s), LinesOf(t);
    PrintedIsReadable(ops, s, t, groups);
    PlainHunksOf(ops, a, b, groups, 0);
    ApplyGivesModified(ops, a.lines, b.lines, groups);
    ReverseApplyGivesBase(ops, a.lines, b.lines, groups);
  }

  /** Every change is printed in exactly one hunk. */
  lemma {:induction false} ChangeInOneHunk(ops: seq<Op>, groups: seq<Group>, from: nat, k: nat) returns (t: nat)
    requires Grouping(ops, groups, from) && from <= k && Changed(ops, k)
    ensures t < |groups| && StartOf(groups[t]) <= k < EndOf(groups[t], |ops|)
    ensures forall u :: 0 <= u < |groups| && StartOf(groups[u]) <= k < EndOf(groups[u], |ops|) ==> u == t
    decreases |groups|
  {
    var g := groups[0];
    GroupBounds(ops, g);
    if k <= g.last {
      t := 0;
      forall u | 1 <= u < |groups|
        ensures k < StartOf(groups[u])
      {
        LaterGroup(ops, groups[1..], g.last + 1, u - 1);
        assert groups[u] == groups[1..][u - 1];
      }
    } else {
      t := ChangeInOneHunk(ops, groups[1..], g.last + 1, k);
      forall u | 0 <= u < |groups| && StartOf(groups[u]) <= k < EndOf(groups[u], |ops|)
        ensures u == t + 1
      {
        assert u > 0 ==> groups[u] == groups[1..][u - 1];
      }
      t := t + 1;
    }
  }

  lemma {:induction false} LaterGroup(ops: seq<Op>, groups: seq<Group>, from: nat, u: nat)
    requires Grouping(ops, groups, from) && u < |groups|
    ensures groups[0].first <= groups[u].first && StartOf(groups[0]) <= StartOf(groups[u])
    decreases u
  {
    if u > 0 {
      LaterGroup(ops, groups[1..], groups[0].last + 1, u - 1);
    }
  }

  // ----- the diff as a change of texts -----

  /** Apply hunks to a text, newlines included. */
  function ApplyHunks(hunks: seq<Hunk<Line>>, base: string): Option<string> {
    match Apply(Marked(LinesOf(base)), hunks)
    case None => None
    case Some(lines) => Some(TextOf(lines))
  }

  /** Apply a printed diff to a text, newlines included. */
  function ApplyText(patch: string, base: string): Option<string> {
    match ReadHunks(patch)
    case None => None
    case Some(hunks) => ApplyHunks(hunks, base)
  }

  /** No copied line ends in a newline on one side and lacks it on the other. The printer takes a
      copied line's mark from the base side, so this decides whether the text comes out right. */
  predicate NewlinesAgree(ops: seq<Op>, a: Lines, b: Lines) {
    forall k :: 0 <= k < |ops| && ops[k].Equal? ==>
      ((ops[k].base + 1 == |a.lines| && !a.trailingNewline) <==>
       (ops[k].modified + 1 == |b.lines| && !b.trailingNewline))
  }

  lemma AgreeingCopies(ops: seq<Op>, a: Lines, b: Lines)
    requires Script(ops, a.lines, b.lines)
    ensures Ordered(ops, |a.lines|, |b.lines|)
    ensures CopiesAgree(ops, Marked(a), Marked(b)) <==> NewlinesAgree(ops, a, b)
  {
    assert ops[0..] == ops;
    ScriptIsOrdered(ops, a.lines, b.lines, 0);
    hide Script, Walk;
    var A, B := Marked(a), Marked(b);
    forall k | 0 <= k < |ops| && ops[k].Equal?
      ensures InPlace(ops, |A|, |B|, k)
      ensures A[ops[k].base] == B[ops[k].modified] <==>
        ((ops[k].base + 1 == |a.lines| && !a.trailingNewline) <==>
         (ops[k].modified + 1 == |b.lines| && !b.trailingNewline))
    {
      assert InPlace(ops, |a.lines|, |b.lines|, k);
      assert Matches(a.lines, b.lines, ops[k].base, ops[k].modified);
    }
  }

  // A sequence of lines whose text is known determines the terminators.

  function Letters(lines: seq<Line>): nat {
    if lines == [] then 0 else |lines[0].text| + Letters(lines[1..])
  }

  function Unterminated(lines: seq<Line>): nat {
    if lines == [] then 0 else (if lines[0].unterminated then 1 else 0) + Unterminated(lines[1..])
  }

  lemma {:induction false} TextLength(lines: seq<Line>)
    ensures |TextOf(lines)| == Letters(lines) + |lines| - Unterminated(lines)
    ensures Unterminated(lines) <= |lines|
    decreases |lines|
  {
    if lines != [] {
      TextLength(lines[1..]);
    }
  }

  ghost predicate SameTexts(x: seq<Line>, y: seq<Line>) {
    |x| == |y| && forall i :: 0 <= i < |x| ==> x[i].text == y[i].text
  }

  lemma {:induction false} SameLetters(x: seq<Line>, y: seq<Line>)
    requires SameTexts(x, y)
    ensures Letters(x) == Letters(y)
    decreases |x|
  {
    if x != [] {
      SameLetters(x[1..], y[1..]);
    }
  }

  lemma {:induction false} NoneUnterminated(lines: seq<Line>)
    ensures Unterminated(lines) == 0 <==> forall i :: 0 <= i < |lines| ==> !lines[i].unterminated
    decreases |lines|
  {
    if lines != [] {
      NoneUnterminated(lines[1..]);
      assert forall i :: 1 <= i < |lines| ==> lines[i] == lines[1..][i - 1];
    }
  }

  lemma {:induction false} LastUnterminated(lines: seq<Line>)
    requires lines != [] && lines[|lines| - 1].unterminated
    ensures Unterminated(lines) >= 1
    ensures Unterminated(lines) == 1 <==> forall i :: 0 <= i < |lines| - 1 ==> !lines[i].unterminated
    decreases |lines|
  {
    var rest := lines[1..];
    if rest == [] {
      NoneUnterminated(rest);
    } else {
      LastUnterminated(rest);
      assert forall i :: 1 <= i < |lines| ==> lines[i] == rest[i - 1];
    }
  }

  /** The last character of a text tells whether its last line is terminated. */
  lemma {:induction false} LastCharacter(lines: seq<Line>)
    requires lines != [] && NoNewlines(lines)
    requires lines[|lines| - 1].unterminated ==> lines[|lines| - 1].text != []
    ensures TextOf(lines) != []
    ensures TextOf(lines)[|TextOf(lines)| - 1] == '\n' <==> !lines[|lines| - 1].unterminated
    decreases |lines|
  {
    if |lines| == 1 {
      assert TextOf(lines[1..]) == [];
      var text := lines[0].text;
      assert text != [] ==> text[|text| - 1] in text;
    } else {
      LastCharacter(lines[1..]);
    }
  }

  /** Only the last of `lines` may be unterminated, and then it is not empty. */
  ghost predicate Standard(lines: seq<Line>) {
    && NoNewlines(lines)
    && forall i :: 0 <= i < |lines| && lines[i].unterminated ==> i == |lines| - 1 && lines[i].text != []
  }

  lemma TextDeterminesLines(x: seq<Line>, y: seq<Line>)
    requires SameTexts(x, y) && Standard(y) && TextOf(x) == TextOf(y)
    ensures x == y
  {
    hide TextOf, Letters, Unterminated;
    TextLength(x);
    TextLength(y);
    SameLetters(x, y);
    NoneUnterminated(x);
    NoneUnterminated(y);
    if Unterminated(y) != 0 {
      LastUnterminated(y);
      assert NoNewlines(x);
      LastCharacter(y);
      LastCharacter(x);
      LastUnterminated(x);
    }
  }

  lemma StandardCons(line: string, rest: seq<Line>)
    requires '\n' !in line && Standard(rest)
    ensures Standard([Line(line, false)] + rest)
  {
  }

  lemma {:induction false} RawIsStandard(text: string)
    ensures Standard(RawLines(text))
    decreases |text|
  {
    if text != [] {
      var n := LineLength(text);
      hide LineLength;
      if n < |text| {
        hide Standard;
        RawIsStandard(text[n + 1..]);
        StandardCons(text[..n], RawLines(text[n + 1..]));
      } else {
        assert text[..n] == text;
        assert RawLines(text) == [Line(text, true)];
        hide RawLines;
      }
    }
  }

  lemma {:induction false} OutputTexts(ops: seq<Op>, a: Lines, b: Lines, start: nat)
    requires start <= |ops| && Ordered(ops, |a.lines|, |b.lines|) && CopiesAgree(ops, a.lines, b.lines)
    ensures CountB(ops, start) <= |b.lines|
    ensures SameTexts(Output(ops, Marked(a), Marked(b), start, |ops|), Marked(b)[CountB(ops, start)..])
    decreases |ops| - start
  {
    hide Ordered, CopiesAgree, CountA, CountB, InPlace, Output, SameTexts;
    var A, B := Marked(a), Marked(b);
    AllConsumed(ops, |A|, |B|, start);
    if start == |ops| {
      NoOutputTexts(ops, A, B);
    } else {
      CopyAgrees(ops, a.lines, b.lines, start);
      OneOperation(ops, A, B, start, |ops|);
      OutputTexts(ops, a, b, start + 1);
      var x, y, rest := CountA(ops, start), CountB(ops, start), Output(ops, A, B, start + 1, |ops|);
      if ops[start].Delete? {
        assert [] + rest == rest;
      } else {
        TailCons(B, y);
        assert ops[start].Equal? ==> A[x].text == B[y].text;
        hide Marked;
        SameTextsCons(if ops[start].Equal? then A[x] else B[y], rest, B[y], B[y + 1..]);
      }
    }
  }

  lemma NoOutputTexts(ops: seq<Op>, a: seq<Line>, b: seq<Line>)
    requires Ordered(ops, |a|, |b|)
    ensures CountB(ops, |ops|) == |b| && SameTexts(Output(ops, a, b, |ops|, |ops|), b[|b|..])
  {
  }

  lemma TailCons<T>(s: seq<T>, k: nat)
    requires k < |s|
    ensures s[k..] == [s[k]] + s[k + 1..]
  {
  }

  lemma SameTextsCons(x: Line, xs: seq<Line>, y: Line, ys: seq<Line>)
    requires x.text == y.text && SameTexts(xs, ys)
    ensures SameTexts([x] + xs, [y] + ys)
  {
  }

  /** If the output is the modified side, every copied line was right. */
  lemma {:induction false} OutputShowsAgreement<T>(ops: seq<Op>, a: seq<T>, b: seq<T>, start: nat)
    requires start <= |ops| && Ordered(ops, |a|, |b|)
    requires CountB(ops, start) <= |b| && Output(ops, a, b, start, |ops|) == b[CountB(ops, start)..]
    ensures forall k :: start <= k < |ops| && ops[k].Equal? ==>
      InPlace(ops, |a|, |b|, k) && a[ops[k].base] == b[ops[k].modified]
    decreases |ops| - start
  {
    hide Ordered, CountA, CountB;
    if start < |ops| {
      OneOperation(ops, a, b, start, |ops|);
      assert InPlace(ops, |a|, |b|, start) by {
        OperationInPlace(ops, |a|, |b|, start);
      }
      var x, rest := CountB(ops, start), Output(ops, a, b, start + 1, |ops|);
      if !ops[start].Delete? {
        assert b[x..] == [b[x]] + b[x + 1..];
      }
      OutputShowsAgreement(ops, a, b, start + 1);
    }
  }

  lemma OperationInPlace(ops: seq<Op>, n: nat, m: nat, k: nat)
    requires Ordered(ops, n, m) && k < |ops|
    ensures InPlace(ops, n, m, k)
  {
  }

  /** The printed diff turns the base text into the modified text, byte for byte, exactly when the
      newlines of the copied lines agree. */
  lemma TextRoundTrip(ops: seq<Op>, s: string, t: string, groups: seq<Group>)
    requires Script(ops, LinesOf(s).lines, LinesOf(t).lines) && Grouping(ops, groups, 0)
    ensures ApplyText(Printed(ops, s, t, groups), s) == Some(t) <==> NewlinesAgree(ops, LinesOf(s), LinesOf(t))
  {
    var a, b := LinesOf(s), LinesOf(t);
    var A, B := Marked(a), Marked(b);
    assert |A| == |a.lines| && |B| == |b.lines|;
    StartOfOutput(ops, B);
    LinesRoundTrip(t);
    RawIsStandard(t);
    hide Script, Grouping, HunksOf, ShowHunks, ReadHunks, Ordered, LinesOf, Marked, Apply, TextOf, Printed,
      Standard, RawLines, NewlinesAgree, SameTexts, Output, CountB, NoNewlines;
    PrintedIsReadable(ops, s, t, groups);
    AgreeingCopies(ops, a, b);
    ScriptCopiesAgree(ops, a.lines, b.lines);
    ApplyGivesOutput(ops, A, B, groups);
    OutputTexts(ops, a, b, 0);
    var out := Output(ops, A, B, 0, |ops|);
    assert ApplyText(Printed(ops, s, t, groups), s) == Some(TextOf(out));
    if TextOf(out) == t {
      TextDeterminesLines(out, B);
      OutputShowsAgreement(ops, A, B, 0);
    }
    if CopiesAgree(ops, A, B) {
      OutputIsModified(ops, A, B, 0);
    }
  }

  lemma StartOfOutput<T>(ops: seq<Op>, b: seq<T>)
    ensures CountB(ops, 0) == 0 && b[0..] == b
  {
  }

  lemma ScriptCopiesAgree<T>(ops: seq<Op>, a: seq<T>, b: seq<T>)
    requires Script(ops, a, b)
    ensures Ordered(ops, |a|, |b|) && CopiesAgree(ops, a, b)
  {
    assert ops[0..] == ops;
    ScriptIsOrdered(ops, a, b, 0);
  }

  /** Texts that end in a newline, or are empty, always come out right. */
  lemma TerminatedTextsRoundTrip(ops: seq<Op>, s: string, t: string, groups: seq<Group>)
    requires Script(ops, LinesOf(s).lines, LinesOf(t).lines) && Grouping(ops, groups, 0)
    requires EndsInNewline(s) && EndsInNewline(t)
    ensures ApplyText(Printed(ops, s, t, groups), s) == Some(t)
  {
    TextRoundTrip(ops, s, t, groups);
  }

  /** A difference in the last newline alone is not shown: the two texts have the same lines, the
      canonical script changes nothing, and the printed diff is empty. */
  lemma NewlineAloneIsLost(s: string)
    requires s != [] && !EndsInNewline(s)
    ensures
      var t := s + "\n";
      var a, b := LinesOf(s).lines, LinesOf(t).lines;
      var ops := Canonical(a, b, |a|, |b|);
      && Script(ops, a, b) && Grouping(ops, GroupsOf(ops), 0) && GroupsOf(ops) == []
      && Printed(ops, s, t, []) == [] && ApplyText(Printed(ops, s, t, []), s) == Some(s) && s != t
  {
    var t := s + "\n";
    var a, b := LinesOf(s).lines, LinesOf(t).lines;
    var ops := Canonical(a, b, |a|, |b|);
    SameLinesWithNewline(s);
    CanonicalOfEqual(a, b, |a|);
    CanonicalIsShortest(a, b);
    hide Script, SplitLines, ApplyText, Printed, Canonical, Cost, Dist, GroupsOf, Grouping;
    NothingChanged(ops);
    GroupsOfIsGrouping(ops);
    GroupingIsUnique(ops, GroupsOf(ops), [], 0);
    NothingPrinted(ops, s, t);
  }

  lemma NothingChanged(ops: seq<Op>)
    requires forall k :: 0 <= k < |ops| ==> ops[k].Equal?
    ensures Grouping(ops, [], 0)
  {
  }

  /** A script without changes prints nothing, and nothing leaves a text as it is. */
  lemma NothingPrinted(ops: seq<Op>, s: string, t: string)
    requires Script(ops, LinesOf(s).lines, LinesOf(t).lines) && Grouping(ops, [], 0)
    ensures Printed(ops, s, t, []) == [] && ApplyText(Printed(ops, s, t, []), s) == Some(s)
  {
    hide Script, Grouping, LinesOf, Marked, TextOf, NoNewlines, Ordered, ReadHeader, ReadBody, RawLines;
    ScriptCopiesAgree(ops, LinesOf(s).lines, LinesOf(t).lines);
    LinesRoundTrip(s);
    assert Marked(LinesOf(s))[0..] == Marked(LinesOf(s));
  }

  lemma SplitCons(line: string, rest: string)
    requires '\n' !in line
    ensures SplitLines(line + "\n" + rest) == [line] + SplitLines(rest)
  {
    var t := line + "\n" + rest;
    LineLengthOf(line, rest);
    hide LineLength;
    assert t[..|line|] == line && t[|line| + 1..] == rest;
  }

  lemma SplitOne(s: string)
    requires s != [] && LineLength(s) == |s|
    ensures SplitLines(s) == [s] && SplitLines([]) == []
  {
    hide LineLength;
    assert s[..|s|] == s;
  }

  lemma SplitAtNewline(s: string, n: nat)
    requires n < |s| && s[n] == '\n'
    ensures s == s[..n] + "\n" + s[n + 1..]
    ensures !EndsInNewline(s) ==> s[n + 1..] != [] && !EndsInNewline(s[n + 1..])
  {
    var rest := s[n + 1..];
    if rest == [] {
      assert s[|s| - 1] == '\n';
    } else {
      assert rest[|rest| - 1] == s[|s| - 1];
    }
  }

  lemma AppendNewline(line: string, rest: string)
    ensures line + "\n" + rest + "\n" == line + "\n" + (rest + "\n")
  {
  }

  lemma {:induction false} SameLinesWithNewline(s: string)
    requires s != [] && !EndsInNewline(s)
    ensures SplitLines(s + "\n") == SplitLines(s)
    decreases |s|
  {
    hide LineLength, SplitLines, EndsInNewline;
    var n := LineLength(s);
    if n == |s| {
      SplitCons(s, "");
      SplitOne(s);
      assert s + "\n" + "" == s + "\n";
    } else {
      var line, rest := s[..n], s[n + 1..];
      SplitAtNewline(s, n);
      AppendNewline(line, rest);
      SplitCons(line, rest);
      SplitCons(line, rest + "\n");
      SameLinesWithNewline(rest);
    }
  }

  // ----- rendering -----

  /** The whole base deleted, then the whole modified side inserted. */
  function Replacement(n: nat, m: nat): seq<Op> {
    seq(n, i requires 0 <= i => Delete(i)) + seq(m, j requires 0 <= j => Insert(j))
  }

  lemma {:induction false} ReplacementWalks<T>(a: seq<T>, b: seq<T>, k: nat)
    requires k <= |a| + |b|
    ensures
      var ops := Replacement(|a|, |b|);
      if k <= |a| then Walk(ops[k..], a, b, k, 0) else Walk(ops[k..], a, b, |a|, k - |a|)
    decreases |a| + |b| - k
  {
    var ops := Replacement(|a|, |b|);
    if k < |ops| {
      assert ops[k..][1..] == ops[k + 1..] && ops[k..][0] == ops[k];
      ReplacementWalks(a, b, k + 1);
    }
  }

  /** The whole-file replacement is an edit script, and always shows newlines right. */
  lemma ReplacementIsScript(a: Lines, b: Lines)
    ensures Script(Replacement(|a.lines|, |b.lines|), a.lines, b.lines)
    ensures NewlinesAgree(Replacement(|a.lines|, |b.lines|), a, b)
  {
    ReplacementWalks(a.lines, b.lines, 0);
    assert Replacement(|a.lines|, |b.lines|)[0..] == Replacement(|a.lines|, |b.lines|);
  }

  /** One converted file's sides. No base is an add, no modified side is a delete. */
  datatype Sides = Sides(
    source: string, display: string, movedFrom: Option<string>,
    base: Option<string>, modified: Option<string>, suppliedDiff: Option<string>)

  datatype Rendered = OverBudget | Text(text: string)

  function Bytes(text: Option<string>): nat {
    match text case None => 0 case Some(s) => |s|
  }

  function InputBytes(sides: Sides): nat {
    Bytes(sides.base) + Bytes(sides.modified) + Bytes(sides.suppliedDiff)
  }

  function TextOrEmpty(text: Option<string>): string {
    match text case None => "" case Some(s) => s
  }

  function Provenance(sides: Sides): string {
    "# generated from " + sides.source + " by the capture hook\n" +
    (match sides.movedFrom case None => "" case Some(from) => "# moved from " + from + "\n")
  }

  function SideName(prefix: string, display: string): string {
    if "//" <= display then display else prefix + "/" + display
  }

  function FileHeader(sides: Sides): string {
    (if sides.base.Some? then "--- " + SideName("a", sides.display) + "\n" else "--- /dev/null\n") +
    (if sides.modified.Some? then "+++ " + SideName("b", sides.display) + "\n" else "+++ /dev/null\n")
  }

  const FALLBACK_NOTICE: string := "# whole-file replacement" + ": the line diff's bounds were exceeded\n"

  /** Neither passed through, unchanged nor over budget: the hunks are computed here. */
  predicate Computed(sides: Sides, bytesLeft: nat) {
    && InputBytes(sides) <= bytesLeft && sides.suppliedDiff.None?
    && !(sides.base.Some? && sides.base == sides.modified)
  }

  /** What stands in the rendered text before the hunks. */
  function Preamble(sides: Sides, fallback: bool): string {
    (if fallback then FALLBACK_NOTICE else "") + Provenance(sides) + FileHeader(sides)
  }

  /** The line diff of two sides is given up for the whole-file replacement. */
  ghost predicate FallsBack(sides: Sides, stepsLeft: nat, cancel: nat -> bool) {
    && sides.base.Some? && sides.modified.Some?
    && !Accepted(LinesOf(sides.base.value).lines, LinesOf(sides.modified.value).lines, stepsLeft, cancel)
  }

  /** The script behind the hunks: the canonical one, which is a shortest one, if both sides are there
      and the line diff stays within its bounds, else the whole-file replacement. */
  ghost function RenderedScript(sides: Sides, stepsLeft: nat, cancel: nat -> bool): seq<Op> {
    var a, b := LinesOf(TextOrEmpty(sides.base)).lines, LinesOf(TextOrEmpty(sides.modified)).lines;
    if sides.base.Some? && sides.modified.Some? && !FallsBack(sides, stepsLeft, cancel) then Canonical(a, b, |a|, |b|)
    else Replacement(|a|, |b|)
  }

  /** It is always a complete edit script, and its changes are grouped. */
  lemma RenderedScriptIsScript(sides: Sides, stepsLeft: nat, cancel: nat -> bool)
    ensures
      var ops := RenderedScript(sides, stepsLeft, cancel);
      && Script(ops, LinesOf(TextOrEmpty(sides.base)).lines, LinesOf(TextOrEmpty(sides.modified)).lines)
      && Grouping(ops, GroupsOf(ops), 0)
  {
    hide Script, Accepted, Canonical, LinesOf, Replacement, Grouping, GroupsOf;
    var a, b := LinesOf(TextOrEmpty(sides.base)), LinesOf(TextOrEmpty(sides.modified));
    GroupsOfIsGrouping(RenderedScript(sides, stepsLeft, cancel));
    ReplacementIsScript(a, b);
    CanonicalIsShortest(a.lines, b.lines);
  }

  /** The text of a file whose hunks are computed: a function of its two sides, the steps left and what
      the search reads from the cancellation flag. */
  ghost function ComputedText(sides: Sides, stepsLeft: nat, cancel: nat -> bool): string {
    RenderedScriptIsScript(sides, stepsLeft, cancel);
    var ops := RenderedScript(sides, stepsLeft, cancel);
    Preamble(sides, FallsBack(sides, stepsLeft, cancel))
    + Printed(ops, TextOrEmpty(sides.base), TextOrEmpty(sides.modified), GroupsOf(ops))
  }

  /** What the capture's step budget is charged for it: only a line diff costs anything. */
  ghost predicate RightCharge(sides: Sides, stepsLeft: nat, cancel: nat -> bool, spent: nat) {
    var a, b := LinesOf(TextOrEmpty(sides.base)).lines, LinesOf(TextOrEmpty(sides.modified)).lines;
    if sides.base.None? || sides.modified.None? then spent == 0
    else if FallsBack(sides, stepsLeft, cancel) then Charge(a, b, StepCap(stepsLeft), cancel, spent)
    else spent == SearchSteps(a, b)
  }

  /** Compute the hunks of two sides, an absent one counting as empty. */
  method RenderComputed(sides: Sides, budget: RenderBudget, cancel: nat -> bool)
    returns (text: string, ghost spent: nat)
    modifies budget`stepsLeft
    ensures text == ComputedText(sides, old(budget.stepsLeft), cancel)
    ensures RightCharge(sides, old(budget.stepsLeft), cancel, spent)
    ensures spent <= old(budget.stepsLeft) + MAX_LINES + 1
    ensures budget.stepsLeft == SaturatingSub(old(budget.stepsLeft), spent)
  {
    hide Script, Canonical, Accepted, Charge, SearchSteps, EditDistance, Grouping, GroupsOf, LinesOf, Replacement, Provenance,
      FileHeader, Ordered, Cost, Marked, HunksOf, ShowHunks;
    var a, b := LinesOf(TextOrEmpty(sides.base)), LinesOf(TextOrEmpty(sides.modified));
    var out := Provenance(sides) + FileHeader(sides);
    var script := Replacement(|a.lines|, |b.lines|);
    ReplacementIsScript(a, b);
    ghost var fallback := false;
    spent := 0;
    if sides.base.Some? && sides.modified.Some? {
      var found;
      found, spent := Myers(a.lines, b.lines, budget, cancel);
      if found.Some? {
        script := found.value;
      } else {
        fallback := true;
        out := FALLBACK_NOTICE + out;
      }
    }
    assert fallback == FallsBack(sides, old(budget.stepsLeft), cancel);
    assert script == RenderedScript(sides, old(budget.stepsLeft), cancel);
    PreambleIs(sides, fallback, out);
    ScriptCopiesAgree(script, a.lines, b.lines);
    text := AppendHunks(script, a, b, out);
  }

  lemma PreambleIs(sides: Sides, fallback: bool, out: string)
    requires out == if fallback then FALLBACK_NOTICE + (Provenance(sides) + FileHeader(sides))
                    else Provenance(sides) + FileHeader(sides)
    ensures out == Preamble(sides, fallback)
  {
    hide Provenance, FileHeader;
  }

  /** What a file is rendered to: a function of its sides, what is left of the budgets and what the
      search reads from the cancellation flag. */
  ghost function Rendering(sides: Sides, bytesLeft: nat, stepsLeft: nat, cancel: nat -> bool): Rendered {
    if InputBytes(sides) > bytesLeft then OverBudget
    else if sides.suppliedDiff.Some? then
      var diff := sides.suppliedDiff.value;
      Text(Provenance(sides) + "# " + sides.display + ": diff supplied by the capture hook\n" + diff
           + (if diff != [] && EndsInNewline(diff) then "" else "\n"))
    else if sides.base.Some? && sides.base == sides.modified then
      Text(Provenance(sides) + "# " + sides.display + ": no textual change after conversion\n")
    else Text(ComputedText(sides, stepsLeft, cancel))
  }

  lemma NoticeShows(sides: Sides, more: string, more': string)
    ensures Preamble(sides, true) + more != Preamble(sides, false) + more'
  {
    assert "# generated from "[2] == 'g' && "# whole-file replacement"[2] == 'w';
    assert FALLBACK_NOTICE[2] == 'w' && Provenance(sides)[2] == 'g';
    var first, first' := Preamble(sides, true), Preamble(sides, false);
    hide FileHeader, Provenance;
    assert first[2] == 'w' && first'[2] == 'g';
    hide Preamble;
    assert (first + more)[2] != (first' + more')[2];
  }

  /** The same sides give the same result exactly if they are within the byte budget both times or neither
      time, and, where their hunks are computed, fall back both times or neither time. */
  lemma SameSidesSameText(sides: Sides, bytes: nat, steps: nat, cancel: nat -> bool,
      bytes': nat, steps': nat, cancel': nat -> bool)
    ensures Rendering(sides, bytes, steps, cancel) == Rendering(sides, bytes', steps', cancel') <==>
      && (InputBytes(sides) > bytes <==> InputBytes(sides) > bytes')
      && (Computed(sides, bytes) && Computed(sides, bytes') ==>
          (FallsBack(sides, steps, cancel) <==> FallsBack(sides, steps', cancel')))
  {
    hide InputBytes, FallsBack, Preamble, Printed, Provenance, GroupsOf, Canonical, Replacement, LinesOf, Script, Grouping;
    var s, t := TextOrEmpty(sides.base), TextOrEmpty(sides.modified);
    RenderedScriptIsScript(sides, steps, cancel);
    RenderedScriptIsScript(sides, steps', cancel');
    var ops, ops' := RenderedScript(sides, steps, cancel), RenderedScript(sides, steps', cancel');
    var more, more' := Printed(ops, s, t, GroupsOf(ops)), Printed(ops', s, t, GroupsOf(ops'));
    if FallsBack(sides, steps, cancel) {
      NoticeShows(sides, more, more');
    } else {
      NoticeShows(sides, more', more);
    }
  }

  /** Without steps left every line diff falls back; with a file's full share a small edit never does. */
  lemma StepsDecide(sides: Sides)
    requires sides.base.Some? && sides.modified.Some?
    ensures FallsBack(sides, 0, _ => false)
    ensures
      var a, b := LinesOf(sides.base.value).lines, LinesOf(sides.modified.value).lines;
      |a| + |b| <= MAX_EDIT_DISTANCE ==> !FallsBack(sides, MAX_STEPS_PER_FILE, _ => false)
  {
    var a, b := LinesOf(sides.base.value).lines, LinesOf(sides.modified.value).lines;
    hide LinesOf, EditDistance, CornerIndex, Slid;
    CornerInRound(a, b);
    StepsOneMore(a, b, EditDistance(a, b), CornerIndex(a, b));
    if |a| + |b| <= MAX_EDIT_DISTANCE {
      StepCapNeverDecides(a, b);
    }
  }

  /** The same two sides, rendered differently: the steps left decide. */
  lemma SameSidesCanDiffer()
    ensures
      var sides := Sides("notes.docx", "notes.md", None, Some("a"), Some("b"), None);
      Rendering(sides, 2, MAX_STEPS_PER_FILE, _ => false) != Rendering(sides, 2, 0, _ => false)
  {
    var sides := Sides("notes.docx", "notes.md", None, Some("a"), Some("b"), None);
    var never: nat -> bool := _ => false;
    SplitOne("a");
    SplitOne("b");
    StepsDecide(sides);
    hide SplitLines, FallsBack, Rendering;
    SameSidesSameText(sides, 2, MAX_STEPS_PER_FILE, never, 2, 0, never);
  }

  /** What is left of a capture's budgets. */
  datatype Left = Left(inputBytes: nat, steps: nat)

  /** A file's charge: its input if it is rendered, and its steps if its hunks are computed. */
  ghost predicate FileCharged(sides: Sides, before: Left, cancel: nat -> bool, after: Left, spent: nat) {
    && after.inputBytes == before.inputBytes - (if InputBytes(sides) > before.inputBytes then 0 else InputBytes(sides))
    && after.steps == SaturatingSub(before.steps, spent)
    && (if Computed(sides, before.inputBytes) then RightCharge(sides, before.steps, cancel, spent) else spent == 0)
  }

  /** What computed hunks cost: nothing for an add or a delete; for a line diff a step for each edit and for
      each line copied at least, and one more; and for a replacement in its stead, where nothing was cancelled
      and the lines were few enough, more than all that was left for it, or every diagonal allowed. */
  lemma ComputedIsCharged(sides: Sides, stepsLeft: nat, cancel: nat -> bool, spent: nat)
    requires RightCharge(sides, stepsLeft, cancel, spent)
    ensures sides.base.None? || sides.modified.None? ==> spent == 0
    ensures sides.base.Some? && sides.modified.Some? ==>
      var a, b := LinesOf(sides.base.value).lines, LinesOf(sides.modified.value).lines;
      && (!FallsBack(sides, stepsLeft, cancel) ==> spent >= EditDistance(a, b) + Lcs(a, b, |a|, |b|) + 1)
      && (FallsBack(sides, stepsLeft, cancel) && |a| <= 20_000 && |b| <= 20_000 && (forall d: nat :: d <= 1_000 ==> !cancel(d)) ==>
          spent > (if stepsLeft < 20_000_000 then stepsLeft else 20_000_000)
          || (EditDistance(a, b) > 1_000 && spent >= 501_501))
  {
    hide LinesOf, FallsBack, Charge, SearchSteps, EditDistance, Lcs;
    if sides.base.Some? && sides.modified.Some? {
      var a, b := LinesOf(sides.base.value).lines, LinesOf(sides.modified.value).lines;
      SearchStepsAtLeast(a, b, EditDistance(a, b));
      if FallsBack(sides, stepsLeft, cancel) && |a| <= 20_000 && |b| <= 20_000 && forall d: nat :: d <= 1_000 ==> !cancel(d) {
        FailureIsCharged(a, b, StepCap(stepsLeft), cancel, spent);
      }
    }
  }

  /** Every text handed in counts, the supplied diff too. */
  lemma InputIsCounted(sides: Sides)
    ensures InputBytes(sides) ==
      (if sides.base.Some? then |sides.base.value| else 0) + (if sides.modified.Some? then |sides.modified.value| else 0)
      + (if sides.suppliedDiff.Some? then |sides.suppliedDiff.value| else 0)
  {
  }

  /** Render one converted file. */
  method RenderFile(sides: Sides, budget: RenderBudget, cancel: nat -> bool)
    returns (r: Rendered, ghost spent: nat)
    modifies budget
    ensures r == Rendering(sides, old(budget.inputBytesLeft), old(budget.stepsLeft), cancel)
    ensures r.OverBudget? <==>
      (if sides.base.Some? then |sides.base.value| else 0) + (if sides.modified.Some? then |sides.modified.value| else 0)
      + (if sides.suppliedDiff.Some? then |sides.suppliedDiff.value| else 0) > old(budget.inputBytesLeft)
    ensures
      var before := Left(old(budget.inputBytesLeft), old(budget.stepsLeft));
      FileCharged(sides, before, cancel, Left(budget.inputBytesLeft, budget.stepsLeft), spent)
    ensures spent <= old(budget.stepsLeft) + MAX_LINES + 1
  {
    InputIsCounted(sides);
    hide ComputedText, RightCharge, Provenance, InputBytes;
    spent := 0;
    var input := InputBytes(sides);
    if input > budget.inputBytesLeft {
      return OverBudget, spent;
    }
    budget.inputBytesLeft := budget.inputBytesLeft - input;
    var out := Provenance(sides);
    if sides.suppliedDiff.Some? {
      var diff := sides.suppliedDiff.value;
      out := out + "# " + sides.display + ": diff supplied by the capture hook\n" + diff;
      if !(diff != [] && diff[|diff| - 1] == '\n') {
        out := out + "\n";
      }
      return Text(out), spent;
    }
    if sides.base.Some? && sides.base == sides.modified {
      out := out + "# " + sides.display + ": no textual change after conversion\n";
      return Text(out), spent;
    }
    var text;
    text, spent := RenderComputed(sides, budget, cancel);
    r := Text(text);
  }

  /** The input bytes of the files that were rendered. */
  function RenderedBytes(files: seq<Sides>, results: seq<Rendered>): nat
    requires |results| <= |files|
  {
    if results == [] then 0
    else
      var last := |results| - 1;
      RenderedBytes(files, results[..last]) + (if results[last].Text? then InputBytes(files[last]) else 0)
  }

  lemma RenderedBytesSnoc(files: seq<Sides>, results: seq<Rendered>, r: Rendered)
    requires |results| < |files|
    ensures RenderedBytes(files, results + [r])
         == RenderedBytes(files, results) + (if r.Text? then InputBytes(files[|results|]) else 0)
  {
    assert (results + [r])[..|results|] == results;
  }

  /** One file of a capture. */
  ghost predicate FileRendered(sides: Sides, cancel: nat -> bool, before: Left, r: Rendered, after: Left) {
    && r == Rendering(sides, before.inputBytes, before.steps, cancel)
    && exists spent :: FileCharged(sides, before, cancel, after, spent)
  }

  /** The files of a capture, one after the other out of one budget; `left` is what was left before each
      of them and after the last. */
  ghost predicate Captured(files: seq<Sides>, cancel: nat -> nat -> bool, results: seq<Rendered>, left: seq<Left>) {
    && |results| <= |files| && |left| == |results| + 1
    && left[0] == Left(64 * 1024 * 1024, 200_000_000)
    && forall i :: 0 <= i < |results| ==> FileRendered(files[i], cancel(i), left[i], results[i], left[i + 1])
  }

  lemma CapturedSnoc(files: seq<Sides>, cancel: nat -> nat -> bool, results: seq<Rendered>, left: seq<Left>,
      r: Rendered, after: Left)
    requires Captured(files, cancel, results, left) && |results| < |files|
    requires FileRendered(files[|results|], cancel(|results|), left[|results|], r, after)
    ensures Captured(files, cancel, results + [r], left + [after])
  {
    hide FileRendered;
  }

  lemma FileIsDetermined(sides: Sides, cancel: nat -> bool, before: Left, r: Rendered, after: Left, r': Rendered, after': Left)
    requires FileRendered(sides, cancel, before, r, after) && FileRendered(sides, cancel, before, r', after')
    ensures r == r' && after == after'
  {
    hide Rendering, Computed, InputBytes, LinesOf, FallsBack, Charge, SearchSteps, StepCap;
    var a, b := LinesOf(TextOrEmpty(sides.base)).lines, LinesOf(TextOrEmpty(sides.modified)).lines;
    var spent :| FileCharged(sides, before, cancel, after, spent);
    var spent' :| FileCharged(sides, before, cancel, after', spent');
    if Charge(a, b, StepCap(before.steps), cancel, spent) && Charge(a, b, StepCap(before.steps), cancel, spent') {
      ChargeIsUnique(a, b, StepCap(before.steps), cancel, spent, spent');
    }
  }

  /** The same files and the same cancellation always give the same texts. */
  lemma {:induction false} CaptureIsDetermined(files: seq<Sides>, cancel: nat -> nat -> bool,
      results: seq<Rendered>, left: seq<Left>, results': seq<Rendered>, left': seq<Left>)
    requires Captured(files, cancel, results, left) && Captured(files, cancel, results', left')
    requires |results| == |results'|
    ensures results == results' && left == left'
    decreases |results|
  {
    hide FileRendered;
    var n := |results|;
    if n > 0 {
      CaptureIsDetermined(files, cancel, results[..n - 1], left[..n], results'[..n - 1], left'[..n]);
      FileIsDetermined(files[n - 1], cancel(n - 1), left[n - 1], results[n - 1], left[n], results'[n - 1], left'[n]);
      assert results == results[..n - 1] + [results[n - 1]] && results' == results'[..n - 1] + [results'[n - 1]];
      assert left == left[..n] + [left[n]] && left' == left'[..n] + [left'[n]];
    }
  }

  /** One capture renders all its files out of one budget: it spends no more steps than the budget and
      one slide and one step a file, and renders no more bytes than the budget. `cancel(i)` is what file `i`
      reads from the cancellation flag. */
  method RenderCapture(files: seq<Sides>, cancel: nat -> nat -> bool)
    returns (results: seq<Rendered>, ghost left: seq<Left>, ghost steps: nat)
    ensures |results| == |files| && Captured(files, cancel, results, left)
    ensures steps <= 200_000_000 + |files| * 20_001
    ensures RenderedBytes(files, results) <= 64 * 1024 * 1024
    ensures forall i :: 0 <= i < |files| ==> (results[i].OverBudget? <==>
      RenderedBytes(files, results[..i]) + InputBytes(files[i]) > 64 * 1024 * 1024)
  {
    hide InputBytes, RightCharge, Computed, Provenance, ComputedText, Captured;
    var budget := new RenderBudget.PerCapture();
    results, steps := [], 0;
    left := [Left(budget.inputBytesLeft, budget.stepsLeft)];
    NothingCaptured(files, cancel);
    for i := 0 to |files|
      invariant |results| == i
      invariant |left| == i + 1 && left[i] == Left(budget.inputBytesLeft, budget.stepsLeft)
      invariant Captured(files, cancel, results, left)
      invariant steps + budget.stepsLeft <= MAX_STEPS_PER_CAPTURE + i * (MAX_LINES + 1)
      invariant RenderedBytes(files, results) + budget.inputBytesLeft == MAX_INPUT_BYTES_PER_CAPTURE
      invariant forall j :: 0 <= j < i ==> (results[j].OverBudget? <==>
        RenderedBytes(files, results[..j]) + InputBytes(files[j]) > MAX_INPUT_BYTES_PER_CAPTURE)
    {
      var r;
      ghost var spent;
      r, spent := RenderFile(files[i], budget, cancel(i));
      RenderedBytesSnoc(files, results, r);
      CapturedSnoc(files, cancel, results, left, r, Left(budget.inputBytesLeft, budget.stepsLeft));
      assert forall j :: 0 <= j <= i ==> (results + [r])[..j] == results[..j];
      results := results + [r];
      left := left + [Left(budget.inputBytesLeft, budget.stepsLeft)];
      steps := steps + spent;
    }
  }

  lemma NothingCaptured(files: seq<Sides>, cancel: nat -> nat -> bool)
    ensures Captured(files, cancel, [], [Left(MAX_INPUT_BYTES_PER_CAPTURE, MAX_STEPS_PER_CAPTURE)])
  {
  }
}
