/** A text as the line diff sees it. A text is its UTF-8 bytes, one `char` a byte. */
module TextLines {

  /** A text's lines without their terminators, and whether the last one had one. */
  datatype Lines = Lines(lines: seq<string>, trailingNewline: bool)

  /** A line, and whether it lacks the newline that ends every other line. */
  datatype Line = Line(text: string, unterminated: bool)

  function LineLength(text: string): (n: nat)
    ensures n <= |text| && '\n' !in text[..n] && (n < |text| ==> text[n] == '\n')
  {
    if text == [] || text[0] == '\n' then 0
    else
      var n := LineLength(text[1..]);
      assert text[..n + 1] == [text[0]] + text[1..][..n];
      n + 1
  }

  /** The lines of a text without their newlines. */
  function SplitLines(text: string): seq<string>
    decreases |text|
  {
    if text == [] then []
    else
      var n := LineLength(text);
      [text[..n]] + (if n == |text| then [] else SplitLines(text[n + 1..]))
  }

  predicate EndsInNewline(text: string) {
    text == [] || text[|text| - 1] == '\n'
  }

  function LinesOf(text: string): Lines {
    Lines(SplitLines(text), EndsInNewline(text))
  }

  /** Line `i` with the mark the diff prints after an unterminated last line. */
  function MarkedLine(l: Lines, i: nat): Line
    requires i < |l.lines|
  {
    Line(l.lines[i], i + 1 == |l.lines| && !l.trailingNewline)
  }

  function Marked(l: Lines): seq<Line> {
    seq(|l.lines|, i requires 0 <= i < |l.lines| => MarkedLine(l, i))
  }

  /** The text that lines stand for. */
  function TextOf(lines: seq<Line>): string {
    if lines == [] then []
    else lines[0].text + (if lines[0].unterminated then [] else "\n") + TextOf(lines[1..])
  }

  predicate NoNewlines(lines: seq<Line>) {
    forall i :: 0 <= i < |lines| ==> '\n' !in lines[i].text
  }

  /** The lines of a text, each with its own terminator noted. */
  ghost function RawLines(text: string): seq<Line>
    decreases |text|
  {
    if text == [] then []
    else
      var n := LineLength(text);
      if n == |text| then [Line(text, true)] else [Line(text[..n], false)] + RawLines(text[n + 1..])
  }

  lemma TextOfCons(l: Line, lines: seq<Line>)
    ensures TextOf([l] + lines) == l.text + (if l.unterminated then [] else "\n") + TextOf(lines)
    ensures '\n' !in l.text && NoNewlines(lines) ==> NoNewlines([l] + lines)
  {
    assert ([l] + lines)[1..] == lines;
  }

  lemma {:induction false} RawLinesText(text: string)
    ensures TextOf(RawLines(text)) == text
    ensures NoNewlines(RawLines(text))
    decreases |text|
  {
    hide TextOf, NoNewlines, LineLength;
    if text == [] {
      RawLinesEmpty();
    } else {
      var n := LineLength(text);
      if n == |text| {
        RawLinesEmpty();
        TextOfCons(Line(text, true), []);
        assert [Line(text, true)] + [] == [Line(text, true)];
        assert text[..n] == text && text + [] + [] == text;
      } else {
        var rest := text[n + 1..];
        RawLinesText(rest);
        TextOfCons(Line(text[..n], false), RawLines(rest));
        assert text == text[..n] + "\n" + rest;
      }
    }
  }

  lemma RawLinesEmpty()
    ensures TextOf([]) == [] && NoNewlines([])
  {
  }

  /** `raw` has the texts `lines`, and only an unterminated text's last line is unterminated. */
  ghost predicate Corresponds(raw: seq<Line>, lines: seq<string>, terminated: bool) {
    && |raw| == |lines|
    && forall i :: 0 <= i < |raw| ==>
         raw[i].text == lines[i] && (raw[i].unterminated <==> i + 1 == |raw| && !terminated)
  }

  lemma CorrespondsCons(raw: seq<Line>, lines: seq<string>, terminated: bool, line: string)
    requires Corresponds(raw, lines, terminated) && (raw == [] ==> terminated)
    ensures Corresponds([Line(line, false)] + raw, [line] + lines, terminated)
  {
  }

  lemma {:induction false} SplitIsRaw(text: string)
    ensures Corresponds(RawLines(text), SplitLines(text), EndsInNewline(text))
    ensures text == [] <==> RawLines(text) == []
    decreases |text|
  {
    hide Corresponds, LineLength;
    if text == [] {
      CorrespondsAtEnd("");
    } else {
      var n := LineLength(text);
      if n == |text| {
        assert text[..n] == text;
        CorrespondsAtEnd(text);
      } else {
        var rest := text[n + 1..];
        SplitIsRaw(rest);
        assert EndsInNewline(text) == EndsInNewline(rest);
        CorrespondsCons(RawLines(rest), SplitLines(rest), EndsInNewline(rest), text[..n]);
      }
    }
  }

  lemma CorrespondsAtEnd(text: string)
    ensures Corresponds([], [], true) && Corresponds([Line(text, true)], [text] + [], false)
  {
  }

  /** The lines a diff prints for a text, marks included, are exactly that text. */
  lemma LinesRoundTrip(text: string)
    ensures Marked(LinesOf(text)) == RawLines(text)
    ensures TextOf(Marked(LinesOf(text))) == text
    ensures NoNewlines(Marked(LinesOf(text)))
  {
    RawLinesText(text);
    SplitIsRaw(text);
    hide RawLines, SplitLines, EndsInNewline;
    assert |Marked(LinesOf(text))| == |RawLines(text)|;
  }
}
