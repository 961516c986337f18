/** The text of unified hunks, and a reader for it. */
module PatchText {
  import opened Wrappers
  import opened Decimal
  import opened TextLines
  import opened Patch

  const MARKER: string := "\\ No newline at end of file\n"

  // ----- printing -----

  /** A side's range: its first line and its length; an empty range names the line before it. */
  function ShowRange(pos: nat, len: nat): string {
    if len == 0 then Dec(pos) + ",0" else Dec(pos + 1) + "," + Dec(len)
  }

  function ShowHeader(aPos: nat, aLen: nat, bPos: nat, bLen: nat): string {
    "@@ -" + ShowRange(aPos, aLen) + " +" + ShowRange(bPos, bLen) + " @@\n"
  }

  function Prefix(kind: Kind): char {
    match kind
    case Context => ' '
    case Removed => '-'
    case Added => '+'
  }

  function ShowEntry(e: Entry<Line>): string {
    [Prefix(e.kind)] + e.line.text + "\n" + (if e.line.unterminated then MARKER else "")
  }

  function ShowBody(body: seq<Entry<Line>>): string {
    if body == [] then [] else ShowEntry(body[0]) + ShowBody(body[1..])
  }

  function ShowHunk(h: Hunk<Line>): string {
    ShowHeader(h.aPos, h.aLen, h.bPos, h.bLen) + ShowBody(h.body)
  }

  function ShowHunks(hunks: seq<Hunk<Line>>): string {
    if hunks == [] then [] else ShowHunk(hunks[0]) + ShowHunks(hunks[1..])
  }

  // ----- reading -----

  /** What stands after a line that has no newline. */
  const UNTERMINATED: string := "\\ No newline at end of file\n"

  function Expect(s: string, token: string): Option<string> {
    if token <= s then Some(s[|token|..]) else None
  }

  function ReadNumber(s: string): Option<(nat, string)> {
    var k := DigitRun(s);
    if k == 0 then None else Some((Value(s[..k]), s[k..]))
  }

  /** A range back to the number of lines before it and its length. */
  function ReadRange(s: string): Option<((nat, nat), string)> {
    match ReadNumber(s)
    case None => None
    case Some((first, rest)) =>
      match Expect(rest, ",")
      case None => None
      case Some(rest) =>
        match ReadNumber(rest)
        case None => None
        case Some((len, rest)) =>
          if len > 0 && first == 0 then None
          else
            var pos: nat := if len == 0 then first else first - 1;
            Some(((pos, len), rest))
  }

  function ReadHeader(s: string): Option<(Hunk<Line>, string)> {
    match Expect(s, "@@ -")
    case None => None
    case Some(rest) =>
      match ReadRange(rest)
      case None => None
      case Some(((aPos, aLen), rest)) =>
        match Expect(rest, " +")
        case None => None
        case Some(rest) =>
          match ReadRange(rest)
          case None => None
          case Some(((bPos, bLen), rest)) =>
            match Expect(rest, " @@\n")
            case None => None
            case Some(rest) => Some((Hunk(aPos, aLen, bPos, bLen, []), rest))
  }

  function KindOf(c: char): Option<Kind> {
    if c == ' ' then Some(Context) else if c == '-' then Some(Removed)
    else if c == '+' then Some(Added) else None
  }

  /** The text up to a newline, and what follows the newline. */
  function ReadLine(s: string): (r: Option<(string, string)>)
    ensures r.Some? ==> |r.value.1| < |s|
  {
    var n := LineLength(s);
    if n == |s| then None else Some((s[..n], s[n + 1..]))
  }

  /** One body line, with the marker that may follow it. */
  function ReadEntry(s: string): (r: Option<(Entry<Line>, string)>)
    ensures r.Some? ==> |r.value.1| < |s|
  {
    if s == [] || KindOf(s[0]).None? then None
    else
      match ReadLine(s[1..])
      case None => None
      case Some((text, rest)) =>
        match Expect(rest, UNTERMINATED)
        case None => Some((Entry(KindOf(s[0]).value, Line(text, false)), rest))
        case Some(after) => Some((Entry(KindOf(s[0]).value, Line(text, true)), after))
  }

  /** A body goes on until the header's lengths are used up. */
  function ReadBody(s: string, aLen: nat, bLen: nat): (r: Option<(seq<Entry<Line>>, string)>)
    ensures r.Some? ==> |r.value.1| <= |s|
    decreases |s|
  {
    if aLen == 0 && bLen == 0 then Some(([], s))
    else
      match ReadEntry(s)
      case None => None
      case Some((e, rest)) =>
        if (!e.kind.Added? && aLen == 0) || (!e.kind.Removed? && bLen == 0) then None
        else
          match ReadBody(rest, aLen - SpanA(e), bLen - SpanB(e))
          case None => None
          case Some((body, rest)) => Some(([e] + body, rest))
  }

  function SpanA(e: Entry<Line>): nat {
    if e.kind.Added? then 0 else 1
  }

  function SpanB(e: Entry<Line>): nat {
    if e.kind.Removed? then 0 else 1
  }

  function ReadHunks(s: string): Option<seq<Hunk<Line>>>
    decreases |s|
  {
    if s == [] then Some([])
    else
      match ReadHeader(s)
      case None => None
      case Some((h, rest)) =>
        match ReadBody(rest, h.aLen, h.bLen)
        case None => None
        case Some((body, rest)) =>
          if |rest| >= |s| then None
          else
            match ReadHunks(rest)
            case None => None
            case Some(hunks) => Some([h.(body := body)] + hunks)
  }

  // ----- reading what was printed -----

  lemma ExpectToken(token: string, rest: string)
    ensures Expect(token + rest, token) == Some(rest)
  {
  }

  lemma ReadPrintedNumber(n: nat, rest: string)
    requires rest != [] ==> !IsDigit(rest[0])
    ensures ReadNumber(Dec(n) + rest) == Some((n, rest))
  {
    DecRoundTrip(n);
    DigitRunOf(Dec(n), rest);
    assert (Dec(n) + rest)[..|Dec(n)|] == Dec(n);
  }

  lemma ReadPrintedRange(pos: nat, len: nat, rest: string)
    requires rest != [] ==> !IsDigit(rest[0])
    ensures ReadRange(ShowRange(pos, len) + rest) == Some(((pos, len), rest))
  {
    hide ReadNumber, Dec, DigitRun, Value;
    var first := if len == 0 then pos else pos + 1;
    assert Dec(0) == "0" by {
      DecZero();
    }
    assert ShowRange(pos, len) + rest == Dec(first) + ("," + (Dec(len) + rest));
    ReadPrintedNumber(first, "," + (Dec(len) + rest));
    ExpectToken(",", Dec(len) + rest);
    ReadPrintedNumber(len, rest);
  }

  lemma DecZero()
    ensures Dec(0) == "0"
  {
  }

  lemma ReadPrintedHeader(h: Hunk<Line>, rest: string)
    ensures ReadHeader(ShowHeader(h.aPos, h.aLen, h.bPos, h.bLen) + rest) == Some((h.(body := []), rest))
  {
    hide ReadRange, ShowRange, Expect;
    var a, b := ShowRange(h.aPos, h.aLen), ShowRange(h.bPos, h.bLen);
    var afterB := " @@\n" + rest;
    var afterA := " +" + (b + afterB);
    assert ShowHeader(h.aPos, h.aLen, h.bPos, h.bLen) + rest == "@@ -" + (a + afterA);
    ExpectToken("@@ -", a + afterA);
    ReadPrintedRange(h.aPos, h.aLen, afterA);
    ExpectToken(" +", b + afterB);
    ReadPrintedRange(h.bPos, h.bLen, afterB);
    ExpectToken(" @@\n", rest);
  }

  /** What may follow a body line: another body line, another hunk, or the end; never a marker. */
  predicate AfterEntry(rest: string) {
    rest != [] ==> rest[0] != '\\'
  }

  lemma {:induction false} LineLengthOf(text: string, rest: string)
    requires '\n' !in text
    ensures LineLength(text + "\n" + rest) == |text|
    decreases |text|
  {
    if text != [] {
      assert (text + "\n" + rest)[1..] == text[1..] + "\n" + rest;
      LineLengthOf(text[1..], rest);
    }
  }

  lemma ReadPrintedLine(text: string, rest: string)
    requires '\n' !in text
    ensures ReadLine(text + "\n" + rest) == Some((text, rest))
  {
    LineLengthOf(text, rest);
    hide LineLength;
    var s := text + "\n" + rest;
    assert s[..|text|] == text && s[|text| + 1..] == rest;
  }

  lemma NoMarker(rest: string)
    requires AfterEntry(rest)
    ensures Expect(rest, MARKER) == None
  {
    assert MARKER[0] == '\\';
  }

  lemma ReadPrintedEntry(e: Entry<Line>, rest: string)
    requires '\n' !in e.line.text && AfterEntry(rest)
    ensures ReadEntry(ShowEntry(e) + rest) == Some((e, rest))
  {
    hide ReadLine, Expect, AfterEntry;
    var marker := if e.line.unterminated then MARKER else "";
    var s := ShowEntry(e) + rest;
    assert s == [Prefix(e.kind)] + (e.line.text + "\n" + (marker + rest));
    assert s[1..] == e.line.text + "\n" + (marker + rest);
    ReadPrintedLine(e.line.text, marker + rest);
    if e.line.unterminated {
      ExpectToken(MARKER, rest);
    } else {
      assert marker + rest == rest;
      NoMarker(rest);
    }
    hide ShowEntry;
  }

  /** The lengths a body spans on each side. */
  function BodySpanA(body: seq<Entry<Line>>): nat {
    if body == [] then 0 else SpanA(body[0]) + BodySpanA(body[1..])
  }

  function BodySpanB(body: seq<Entry<Line>>): nat {
    if body == [] then 0 else SpanB(body[0]) + BodySpanB(body[1..])
  }

  predicate PlainBody(body: seq<Entry<Line>>) {
    forall i :: 0 <= i < |body| ==> '\n' !in body[i].line.text
  }

  lemma BodyFollows(body: seq<Entry<Line>>, rest: string)
    requires AfterEntry(rest)
    ensures AfterEntry(ShowBody(body) + rest)
  {
    if body == [] {
      assert ShowBody(body) + rest == rest;
    }
  }

  lemma BodyParts(body: seq<Entry<Line>>)
    requires body != [] && PlainBody(body)
    ensures ShowBody(body) == ShowEntry(body[0]) + ShowBody(body[1..])
    ensures BodySpanA(body) == SpanA(body[0]) + BodySpanA(body[1..])
    ensures BodySpanB(body) == SpanB(body[0]) + BodySpanB(body[1..])
    ensures '\n' !in body[0].line.text && PlainBody(body[1..]) && [body[0]] + body[1..] == body
  {
    hide ShowEntry, SpanA, SpanB;
  }

  lemma ReadNoBody(rest: string)
    ensures ReadBody(ShowBody([]) + rest, BodySpanA([]), BodySpanB([])) == Some(([], rest))
  {
    assert ShowBody([]) + rest == rest;
  }

  lemma {:induction false} ReadPrintedBody(body: seq<Entry<Line>>, rest: string)
    requires PlainBody(body) && AfterEntry(rest)
    ensures ReadBody(ShowBody(body) + rest, BodySpanA(body), BodySpanB(body)) == Some((body, rest))
    decreases |body|
  {
    hide *;
    if body == [] {
      ReadNoBody(rest);
    } else {
      var e, after := body[0], ShowBody(body[1..]) + rest;
      BodyParts(body);
      assert ShowBody(body) + rest == ShowEntry(e) + after;
      BodyFollows(body[1..], rest);
      ReadPrintedEntry(e, after);
      ReadPrintedBody(body[1..], rest);
      ReadBodyCons(ShowBody(body) + rest, e, after, body[1..], rest);
    }
  }

  lemma ReadBodyCons(s: string, e: Entry<Line>, after: string, body: seq<Entry<Line>>, rest: string)
    requires ReadEntry(s) == Some((e, after))
    requires ReadBody(after, BodySpanA(body), BodySpanB(body)) == Some((body, rest))
    ensures ReadBody(s, SpanA(e) + BodySpanA(body), SpanB(e) + BodySpanB(body)) == Some(([e] + body, rest))
  {
    hide ReadEntry, BodySpanA, BodySpanB;
    var x, y := BodySpanA(body), BodySpanB(body);
    assert SpanA(e) + x - SpanA(e) == x && SpanB(e) + y - SpanB(e) == y;
  }

  /** A header tells its body's lengths, and no line holds a newline. */
  predicate WellFormed(h: Hunk<Line>) {
    h.aLen == BodySpanA(h.body) && h.bLen == BodySpanB(h.body) && PlainBody(h.body)
  }

  predicate AllWellFormed(hunks: seq<Hunk<Line>>) {
    forall i :: 0 <= i < |hunks| ==> WellFormed(hunks[i])
  }

  lemma HunksFollow(hunks: seq<Hunk<Line>>)
    ensures AfterEntry(ShowHunks(hunks))
  {
  }

  /** Reading printed hunks gives the hunks back. */
  lemma {:induction false} ReadPrintedHunks(hunks: seq<Hunk<Line>>)
    requires AllWellFormed(hunks)
    ensures ReadHunks(ShowHunks(hunks)) == Some(hunks)
    decreases |hunks|
  {
    hide ReadHeader, ReadBody, ReadHunks, ShowHeader, ShowBody;
    if hunks == [] {
      ReadNothing();
    } else {
      var h, after := hunks[0], ShowHunks(hunks[1..]);
      var header, body := ShowHeader(h.aPos, h.aLen, h.bPos, h.bLen), ShowBody(h.body);
      assert WellFormed(h);
      assert ShowHunks(hunks) == header + (body + after);
      HunksFollow(hunks[1..]);
      hide ShowHunks;
      ReadPrintedHeader(h, body + after);
      ReadPrintedBody(h.body, after);
      ReadPrintedHunks(hunks[1..]);
      HeaderNotEmpty(h);
      ReadHunksCons(header + (body + after), h, body + after, after, hunks[1..]);
      assert [h] + hunks[1..] == hunks;
    }
  }

  lemma ReadNothing()
    ensures ReadHunks([]) == Some([])
  {
  }

  lemma ReadHunksCons(s: string, h: Hunk<Line>, afterHeader: string, rest: string, hunks: seq<Hunk<Line>>)
    requires s != [] && |rest| < |s|
    requires ReadHeader(s) == Some((h.(body := []), afterHeader))
    requires ReadBody(afterHeader, h.aLen, h.bLen) == Some((h.body, rest))
    requires ReadHunks(rest) == Some(hunks)
    ensures ReadHunks(s) == Some([h] + hunks)
  {
    hide ReadHeader, ReadBody;
  }

  lemma HeaderNotEmpty(h: Hunk<Line>)
    ensures |ShowHeader(h.aPos, h.aLen, h.bPos, h.bLen)| > 0
  {
  }
}
