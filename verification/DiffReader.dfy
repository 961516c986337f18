/** A reader for the whole text rendered for a file: where it comes from, which sides there are, and its hunks
    or what stands in their place. */
module DiffReader {
  import opened Wrappers
  import opened EditGraph
  import opened LineDiff
  import opened TextLines
  import opened Patch
  import opened PatchText
  import opened Hunks
  import opened Render

  /** One of the two names of a diff. */
  datatype Side = Absent | Named(display: string)

  /** What a rendered text says. */
  datatype FileText =
    | Unreadable
    | Diff(fallback: bool, source: string, movedFrom: Option<string>, base: Side, modified: Side, hunks: seq<Hunk<Line>>)
    | Supplied(source: string, movedFrom: Option<string>, display: string, diff: string)
    | Unchanged(source: string, movedFrom: Option<string>, display: string)

  /** The lines a rendered text begins with, and what follows them. */
  datatype Origin = NoOrigin | Origin(fallback: bool, source: string, movedFrom: Option<string>, rest: string)

  function DropSuffix(s: string, suffix: string): Option<string> {
    if |suffix| <= |s| && s[|s| - |suffix|..] == suffix then Some(s[..|s| - |suffix|]) else None
  }

  const NOTICE: string := "# whole-file replacement" + ": the line diff's bounds were exceeded\n"

  /** The line of the source, without the notice that may stand before it. */
  function ReadSource(s: string, fallback: bool): Origin {
    match Expect(s, "# generated from ")
    case None => NoOrigin
    case Some(s) =>
      match ReadLine(s)
      case None => NoOrigin
      case Some((line, s)) =>
        match DropSuffix(line, " by the capture hook")
        case None => NoOrigin
        case Some(source) =>
          match Expect(s, "# moved from ")
          case None => Origin(fallback, source, None, s)
          case Some(moved) =>
            match ReadLine(moved)
            case None => NoOrigin
            case Some((from, s)) => Origin(fallback, source, Some(from), s)
  }

  function ReadOrigin(s: string): Origin {
    match Expect(s, NOTICE)
    case None => ReadSource(s, false)
    case Some(s) => ReadSource(s, true)
  }

  /** A side's name: no side, a depot path as it is, or any other path behind its prefix. */
  function ReadName(line: string, prefix: string): Option<Side> {
    if line == "/dev/null" then Some(Absent)
    else if "//" <= line then Some(Named(line))
    else if prefix <= line && !("//" <= line[|prefix|..]) then Some(Named(line[|prefix|..]))
    else None
  }

  /** A side's line, and what follows it. */
  function ReadSide(s: string, mark: string, prefix: string): Option<(Side, string)> {
    match Expect(s, mark)
    case None => None
    case Some(s) =>
      match ReadLine(s)
      case None => None
      case Some((line, s)) =>
        match ReadName(line, prefix)
        case None => None
        case Some(side) => Some((side, s))
  }

  function ReadDiff(o: Origin): FileText
    requires o.Origin?
  {
    match ReadSide(o.rest, "--- ", "a/")
    case None => Unreadable
    case Some((base, s)) =>
      match ReadSide(s, "+++ ", "b/")
      case None => Unreadable
      case Some((modified, s)) =>
        match ReadHunks(s)
        case None => Unreadable
        case Some(hunks) => Diff(o.fallback, o.source, o.movedFrom, base, modified, hunks)
  }

  function ReadPassed(o: Origin): FileText
    requires o.Origin?
  {
    match Expect(o.rest, "# ")
    case None => Unreadable
    case Some(s) =>
      match ReadLine(s)
      case None => Unreadable
      case Some((line, s)) =>
        match (DropSuffix(line, ": diff supplied by the capture hook"), DropSuffix(line, ": no textual change after conversion"))
        case (Some(display), _) => Supplied(o.source, o.movedFrom, display, s)
        case (_, Some(display)) => if s == [] then Unchanged(o.source, o.movedFrom, display) else Unreadable
        case _ => Unreadable
  }

  function ReadFile(text: string): FileText {
    match ReadOrigin(text)
    case NoOrigin => Unreadable
    case Origin(fallback, source, movedFrom, rest) =>
      var o := Origin(fallback, source, movedFrom, rest);
      if Expect(rest, "--- ").Some? then ReadDiff(o) else ReadPassed(o)
  }

  /** Apply a rendered text to a base text, and in reverse to a modified text, newlines included. */
  function ApplyRendered(text: string, base: string): Option<string> {
    match ReadFile(text)
    case Diff(_, _, _, _, _, hunks) => ApplyHunks(hunks, base)
    case _ => None
  }

  function ReverseApplyRendered(text: string, modified: string): Option<string> {
    match ReadFile(text)
    case Diff(_, _, _, _, _, hunks) => ApplyHunks(ReverseHunks(hunks), modified)
    case _ => None
  }

  // ----- reading what is rendered -----

  /** None of the names spans lines. */
  predicate PlainNames(sides: Sides) {
    && '\n' !in sides.source && '\n' !in sides.display
    && (sides.movedFrom.Some? ==> '\n' !in sides.movedFrom.value)
  }

  lemma DropSuffixOf(s: string, suffix: string)
    ensures DropSuffix(s + suffix, suffix) == Some(s)
  {
    assert (s + suffix)[|s|..] == suffix && (s + suffix)[..|s|] == s;
  }

  lemma ReadSourceLine(sides: Sides, fallback: bool, rest: string)
    requires PlainNames(sides) && (sides.movedFrom.None? ==> Expect(rest, "# moved from ").None?)
    ensures ReadSource(Provenance(sides) + rest, fallback) == Origin(fallback, sides.source, sides.movedFrom, rest)
  {
    hide ReadLine, Expect, DropSuffix;
    var moved := match sides.movedFrom case None => "" case Some(from) => "# moved from " + from + "\n";
    var tail := " by the capture hook";
    ExpectToken("# generated from ", sides.source + tail + "\n" + (moved + rest));
    assert Provenance(sides) + rest == "# generated from " + (sides.source + tail + "\n" + (moved + rest));
    assert '\n' !in tail;
    ReadPrintedLine(sides.source + tail, moved + rest);
    DropSuffixOf(sides.source, tail);
    match sides.movedFrom
    case None =>
      assert moved + rest == rest;
    case Some(from) =>
      assert moved + rest == "# moved from " + (from + "\n" + rest);
      ExpectToken("# moved from ", from + "\n" + rest);
      ReadPrintedLine(from, rest);
  }

  lemma NoNotice(sides: Sides, rest: string)
    ensures Expect(Provenance(sides) + rest, NOTICE).None?
  {
    assert "# generated from "[2] == 'g' && "# whole-file replacement"[2] == 'w';
    assert NOTICE[2] == 'w' && (Provenance(sides) + rest)[2] == 'g';
    hide Provenance;
  }

  lemma NoticeIsPrinted()
    ensures FALLBACK_NOTICE == NOTICE
  {
  }

  lemma OriginCases(s: string)
    ensures Expect(s, NOTICE).None? ==> ReadOrigin(s) == ReadSource(s, false)
    ensures Expect(s, NOTICE).Some? ==> ReadOrigin(s) == ReadSource(Expect(s, NOTICE).value, true)
  {
    hide Expect, ReadSource;
  }

  lemma ReadRenderedOrigin(sides: Sides, fallback: bool, rest: string)
    requires PlainNames(sides) && (sides.movedFrom.None? ==> Expect(rest, "# moved from ").None?)
    ensures ReadOrigin((if fallback then FALLBACK_NOTICE else "") + Provenance(sides) + rest)
         == Origin(fallback, sides.source, sides.movedFrom, rest)
  {
    hide *;
    var part := Provenance(sides) + rest;
    ReadSourceLine(sides, fallback, rest);
    if fallback {
      NoticeIsPrinted();
      assert FALLBACK_NOTICE + Provenance(sides) + rest == NOTICE + part;
      ExpectToken(NOTICE, part);
      OriginCases(NOTICE + part);
    } else {
      NoNotice(sides, rest);
      assert "" + Provenance(sides) + rest == part;
      OriginCases(part);
    }
  }

  /** The side that a line of the header stands for. */
  function SideOf(text: Option<string>, display: string): Side {
    if text.Some? then Named(display) else Absent
  }

  function SideLine(text: Option<string>, prefix: string, display: string): string {
    if text.Some? then SideName(prefix, display) else "/dev/null"
  }

  lemma ReadSideName(text: Option<string>, prefix: string, display: string)
    requires (prefix == "a" || prefix == "b") && '\n' !in display
    ensures ReadName(SideLine(text, prefix, display), prefix + "/") == Some(SideOf(text, display))
    ensures '\n' !in SideLine(text, prefix, display)
  {
    if text.Some? {
      var name := SideName(prefix, display);
      assert "/dev/null"[1] == 'd';
      if "//" <= display {
        assert name[1] == '/';
      } else {
        assert name == prefix + "/" + display && name[0] != '/' && name[2..] == display;
      }
    }
  }

  lemma ReadSideLine(text: Option<string>, mark: string, prefix: string, display: string, rest: string)
    requires (prefix == "a" || prefix == "b") && '\n' !in display
    ensures ReadSide(mark + SideLine(text, prefix, display) + "\n" + rest, mark, prefix + "/")
         == Some((SideOf(text, display), rest))
  {
    ReadSideName(text, prefix, display);
    hide ReadLine, ReadName, SideLine, Expect, SideOf;
    var line := SideLine(text, prefix, display);
    ExpectToken(mark, line + "\n" + rest);
    assert mark + line + "\n" + rest == mark + (line + "\n" + rest);
    ReadPrintedLine(line, rest);
  }

  lemma HeaderLines(sides: Sides, rest: string)
    ensures FileHeader(sides) + rest ==
      "--- " + SideLine(sides.base, "a", sides.display) + "\n"
      + ("+++ " + SideLine(sides.modified, "b", sides.display) + "\n" + rest)
  {
    hide SideName;
  }

  /** What a computed diff says: its source, the notice exactly if it fell back, each side's name or that
      there is none, and the hunks of its script. */
  lemma ReadComputed(sides: Sides, stepsLeft: nat, cancel: nat -> bool)
    requires PlainNames(sides)
    ensures
      var s, t := TextOrEmpty(sides.base), TextOrEmpty(sides.modified);
      var ops := RenderedScript(sides, stepsLeft, cancel);
      && Ordered(ops, |LinesOf(s).lines|, |LinesOf(t).lines|) && Grouping(ops, GroupsOf(ops), 0)
      && ReadFile(ComputedText(sides, stepsLeft, cancel)) ==
         Diff(FallsBack(sides, stepsLeft, cancel), sides.source, sides.movedFrom,
              SideOf(sides.base, sides.display), SideOf(sides.modified, sides.display),
              HunksOf(ops, Marked(LinesOf(s)), Marked(LinesOf(t)), GroupsOf(ops), 0))
  {
    var s, t := TextOrEmpty(sides.base), TextOrEmpty(sides.modified);
    var ops := RenderedScript(sides, stepsLeft, cancel);
    RenderedScriptIsScript(sides, stepsLeft, cancel);
    PrintedIsReadable(ops, s, t, GroupsOf(ops));
    var hunks := Printed(ops, s, t, GroupsOf(ops));
    ComputedParts(sides, stepsLeft, cancel);
    ReadHeaderAndHunks(sides, FallsBack(sides, stepsLeft, cancel), hunks);
  }

  lemma ComputedParts(sides: Sides, stepsLeft: nat, cancel: nat -> bool)
    ensures
      var ops := RenderedScript(sides, stepsLeft, cancel);
      && Script(ops, LinesOf(TextOrEmpty(sides.base)).lines, LinesOf(TextOrEmpty(sides.modified)).lines)
      && Grouping(ops, GroupsOf(ops), 0)
      && ComputedText(sides, stepsLeft, cancel) == Preamble(sides, FallsBack(sides, stepsLeft, cancel))
           + Printed(ops, TextOrEmpty(sides.base), TextOrEmpty(sides.modified), GroupsOf(ops))
  {
    RenderedScriptIsScript(sides, stepsLeft, cancel);
    hide RenderedScript, FallsBack, Preamble, Printed, LinesOf, Script, Grouping;
  }

  lemma ReadHeaderAndHunks(sides: Sides, fallback: bool, hunks: string)
    requires PlainNames(sides) && ReadHunks(hunks).Some?
    ensures ReadFile(Preamble(sides, fallback) + hunks) ==
      Diff(fallback, sides.source, sides.movedFrom, SideOf(sides.base, sides.display), SideOf(sides.modified, sides.display),
           ReadHunks(hunks).value)
  {
    var notice := if fallback then FALLBACK_NOTICE else "";
    var baseLine, modifiedLine := SideLine(sides.base, "a", sides.display), SideLine(sides.modified, "b", sides.display);
    var modifiedPart := "+++ " + modifiedLine + "\n" + hunks;
    var sidesPart := "--- " + baseLine + "\n" + modifiedPart;
    HeaderLines(sides, hunks);
    hide ReadHunks, ReadSide, ReadOrigin, Provenance, FileHeader, SideLine, SideOf;
    assert Preamble(sides, fallback) + hunks == notice + Provenance(sides) + sidesPart;
    assert sidesPart[0] == '-';
    ReadRenderedOrigin(sides, fallback, sidesPart);
    assert sidesPart == "--- " + (baseLine + "\n" + modifiedPart);
    ExpectToken("--- ", baseLine + "\n" + modifiedPart);
    ReadSideLine(sides.base, "--- ", "a", sides.display, modifiedPart);
    ReadSideLine(sides.modified, "+++ ", "b", sides.display, hunks);
    hide Expect;
    assert "a" + "/" == "a/" && "b" + "/" == "b/";
  }

  // ----- what is passed through -----

  /** What a file that is passed through says: its source and its name, and the supplied diff or that
      there is no change. */
  lemma ReadPassedLine(sides: Sides, note: string, rest: string)
    requires PlainNames(sides) && (sides.movedFrom.None? ==> !("moved from " <= sides.display))
    requires note == ": diff supplied by the capture hook" || (note == ": no textual change after conversion" && rest == [])
    ensures ReadFile(Provenance(sides) + "# " + sides.display + note + "\n" + rest) ==
      if note == ": diff supplied by the capture hook" then Supplied(sides.source, sides.movedFrom, sides.display, rest)
      else Unchanged(sides.source, sides.movedFrom, sides.display)
  {
    assert '\n' !in sides.display;
    hide *;
    var part := "# " + (sides.display + note + "\n" + rest);
    PassedParts(Provenance(sides), sides.display, note, rest);
    if sides.movedFrom.None? {
      NoteBegins(note, rest);
      NotMoved(sides.display, note + "\n" + rest);
    }
    ReadNote(Origin(false, sides.source, sides.movedFrom, part), sides.display, note, rest);
    NoMinus(sides.display + note + "\n" + rest);
    ReadRenderedOrigin(sides, false, part);
    FileCases("" + Provenance(sides) + part);
  }

  lemma PassedParts(before: string, display: string, note: string, rest: string)
    ensures
      var part := "# " + (display + note + "\n" + rest);
      && part == "# " + (display + (note + "\n" + rest))
      && before + "# " + display + note + "\n" + rest == "" + before + part
  {
    var line := display + note + "\n" + rest;
    assert line == display + (note + "\n" + rest);
    assert before + "# " + display + note + "\n" + rest == before + ("# " + line);
    assert "" + before + ("# " + line) == before + ("# " + line);
  }

  lemma FileCases(text: string)
    requires ReadOrigin(text).Origin?
    ensures ReadFile(text) ==
      if Expect(ReadOrigin(text).rest, "--- ").Some? then ReadDiff(ReadOrigin(text)) else ReadPassed(ReadOrigin(text))
  {
    hide ReadOrigin, Expect, ReadDiff, ReadPassed;
  }

  lemma NoteBegins(note: string, rest: string)
    requires note == ": diff supplied by the capture hook" || note == ": no textual change after conversion"
    ensures note + "\n" + rest != [] && (note + "\n" + rest)[0] == ':'
  {
  }

  lemma NotesAreLines()
    ensures '\n' !in ": diff supplied by the capture hook" && '\n' !in ": no textual change after conversion"
  {
  }

  lemma ReadNote(o: Origin, display: string, note: string, rest: string)
    requires '\n' !in display && o.Origin? && o.rest == "# " + (display + note + "\n" + rest)
    requires note == ": diff supplied by the capture hook" || (note == ": no textual change after conversion" && rest == [])
    ensures ReadPassed(o) ==
      if note == ": diff supplied by the capture hook" then Supplied(o.source, o.movedFrom, display, rest)
      else Unchanged(o.source, o.movedFrom, display)
  {
    NotesAreLines();
    hide Expect, DropSuffix, ReadLine;
    ExpectToken("# ", display + note + "\n" + rest);
    ReadPrintedLine(display + note, rest);
    DropSuffixOf(display, note);
    NotesDiffer(display);
  }

  lemma NoMinus(s: string)
    ensures Expect("# " + s, "--- ").None?
  {
    assert ("# " + s)[0] == '#';
  }

  lemma NotExpected(s: string, token: string, k: nat)
    requires k < |token| && k < |s| && token[k] != s[k]
    ensures Expect(s, token).None?
  {
  }

  lemma {:induction false} DifferAt(s: string, token: string) returns (k: nat)
    requires |token| <= |s| && !(token <= s)
    ensures k < |token| && token[k] != s[k]
    decreases |token|
  {
    if token[0] != s[0] {
      k := 0;
    } else {
      k := DifferAt(s[1..], token[1..]);
      k := k + 1;
    }
  }

  lemma NotMoved(display: string, rest: string)
    requires !("moved from " <= display) && rest != [] && rest[0] == ':'
    ensures Expect("# " + (display + rest), "# moved from ").None?
  {
    var token := "moved from ";
    assert ':' !in token && "# " + token == "# moved from ";
    var k;
    if |token| <= |display| {
      k := DifferAt(display, token);
    } else {
      k := |display|;
    }
    assert ("# " + token)[k + 2] == token[k] && ("# " + (display + rest))[k + 2] == (display + rest)[k];
    NotExpected("# " + (display + rest), "# " + token, k + 2);
  }

  lemma NotesDiffer(display: string)
    ensures DropSuffix(display + ": no textual change after conversion", ": diff supplied by the capture hook").None?
  {
    var s, suffix := display + ": no textual change after conversion", ": diff supplied by the capture hook";
    assert s[|s| - 1] == 'n' && suffix[|suffix| - 1] == 'k';
  }

  /** A line of a file passed through is told from the line of a move. */
  predicate ToldFromMove(sides: Sides, bytesLeft: nat) {
    !Computed(sides, bytesLeft) && sides.movedFrom.None? ==> !("moved from " <= sides.display)
  }

  /** What the rendered text of a file says is what it was rendered from. */
  lemma ReadRendering(sides: Sides, bytesLeft: nat, stepsLeft: nat, cancel: nat -> bool)
    requires PlainNames(sides) && ToldFromMove(sides, bytesLeft) && InputBytes(sides) <= bytesLeft
    ensures Rendering(sides, bytesLeft, stepsLeft, cancel).Text?
    ensures
      var said := ReadFile(Rendering(sides, bytesLeft, stepsLeft, cancel).text);
      if sides.suppliedDiff.Some? then
        var diff := sides.suppliedDiff.value;
        said == Supplied(sides.source, sides.movedFrom, sides.display,
                         if diff != [] && diff[|diff| - 1] == '\n' then diff else diff + "\n")
      else if sides.base.Some? && sides.base == sides.modified then
        said == Unchanged(sides.source, sides.movedFrom, sides.display)
      else
        var s, t := TextOrEmpty(sides.base), TextOrEmpty(sides.modified);
        var ops := RenderedScript(sides, stepsLeft, cancel);
        && Ordered(ops, |LinesOf(s).lines|, |LinesOf(t).lines|) && Grouping(ops, GroupsOf(ops), 0)
        && said == Diff(FallsBack(sides, stepsLeft, cancel), sides.source, sides.movedFrom,
                        SideOf(sides.base, sides.display), SideOf(sides.modified, sides.display),
                        HunksOf(ops, Marked(LinesOf(s)), Marked(LinesOf(t)), GroupsOf(ops), 0))
  {
    hide PlainNames, InputBytes, ComputedText, Provenance, ReadFile, FallsBack, RenderedScript, LinesOf, Ordered, Grouping,
      GroupsOf, HunksOf, SideOf;
    if sides.suppliedDiff.Some? {
      var diff, note := sides.suppliedDiff.value, ": diff supplied by the capture hook";
      var end := if diff != [] && EndsInNewline(diff) then "" else "\n";
      ReadPassedLine(sides, note, diff + end);
      SuppliedText(sides, diff, end);
      assert diff + "" == diff;
    } else if sides.base.Some? && sides.base == sides.modified {
      ReadPassedLine(sides, ": no textual change after conversion", []);
      UnchangedText(sides);
    } else {
      ReadComputed(sides, stepsLeft, cancel);
    }
  }

  lemma SuppliedText(sides: Sides, diff: string, end: string)
    ensures Provenance(sides) + "# " + sides.display + ": diff supplied by the capture hook\n" + diff + end
         == Provenance(sides) + "# " + sides.display + ": diff supplied by the capture hook" + "\n" + (diff + end)
  {
    hide *;
    var before := Provenance(sides) + "# " + sides.display;
    assert ": diff supplied by the capture hook\n" == ": diff supplied by the capture hook" + "\n";
    assert before + (": diff supplied by the capture hook" + "\n") == before + ": diff supplied by the capture hook" + "\n";
  }

  lemma UnchangedText(sides: Sides)
    ensures Provenance(sides) + "# " + sides.display + ": no textual change after conversion\n"
         == Provenance(sides) + "# " + sides.display + ": no textual change after conversion" + "\n" + []
  {
    hide *;
    var before := Provenance(sides) + "# " + sides.display;
    assert ": no textual change after conversion\n" == ": no textual change after conversion" + "\n";
    assert before + (": no textual change after conversion" + "\n") == before + ": no textual change after conversion" + "\n";
  }
}
