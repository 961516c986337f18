/** Git LFS pointers as people and tools write them: line ends, blank lines, white space around, version
    aliases and extensions. */
module PointerText {
  import opened Wrappers
  import opened Decimal
  import opened Utf8
  import opened LfsPointer

  /** A line of a pointer file, and whether a carriage return ends it. */
  datatype TextLine = Blank(cr: bool) | Entry(key: string, value: string, cr: bool)

  function LineText(l: TextLine): string {
    match l
    case Blank(cr) => if cr then "\r" else ""
    case Entry(key, value, cr) => key + " " + value + (if cr then "\r" else "")
  }

  function LineTexts(lines: seq<TextLine>): seq<string> {
    if lines == [] then [] else [LineText(lines[0])] + LineTexts(lines[1..])
  }

  /** The lines with newlines between them. */
  function TextOf(lines: seq<TextLine>): string
    requires lines != []
  {
    if |lines| == 1 then LineText(lines[0]) else LineText(lines[0]) + "\n" + TextOf(lines[1..])
  }

  /** What the lines say. */
  function EntriesOf(lines: seq<TextLine>): seq<Field> {
    if lines == [] then []
    else (match lines[0] case Blank(_) => [] case Entry(key, value, _) => [Field(key, value)]) + EntriesOf(lines[1..])
  }

  predicate IsWhite(c: char) {
    c == ' ' || c == '\t' || c == '\n' || c == '\r' || c as int == 0x0c
  }

  predicate AllWhite(s: string) {
    forall i :: 0 <= i < |s| ==> IsWhite(s[i])
  }

  /** A key without white space, and a value in one line that does not end in white space. */
  predicate IsPlainLine(l: TextLine) {
    l.Entry? ==>
      && l.key != [] && (forall i :: 0 <= i < |l.key| ==> !IsWhite(l.key[i]))
      && l.value != [] && '\n' !in l.value && !IsWhite(l.value[|l.value| - 1])
  }

  /** Lines that begin and end with an entry; what stands around them is white space. */
  predicate IsLayout(lines: seq<TextLine>) {
    && lines != [] && (forall i :: 0 <= i < |lines| ==> IsPlainLine(lines[i]))
    && lines[0].Entry? && lines[|lines| - 1].Entry? && !lines[|lines| - 1].cr
  }

  lemma PlainLineText(l: TextLine)
    requires IsPlainLine(l)
    ensures '\n' !in LineText(l)
    ensures l.Entry? ==>
      && LineText(l) != [] && !IsWhite(LineText(l)[0])
      && (!l.cr ==> !IsWhite(LineText(l)[|LineText(l)| - 1]))
  {
    if l.Entry? {
      assert LineText(l)[0] == l.key[0];
      assert forall i :: 0 <= i < |l.key| ==> !IsWhite(l.key[i]) && l.key[i] != '\n';
      assert !l.cr ==> LineText(l)[|LineText(l)| - 1] == l.value[|l.value| - 1];
    }
  }

  lemma {:induction false} SplitText(lines: seq<TextLine>)
    requires lines != [] && forall i :: 0 <= i < |lines| ==> IsPlainLine(lines[i])
    ensures Split(TextOf(lines), '\n') == LineTexts(lines)
    decreases |lines|
  {
    hide Split, LineText, IsPlainLine;
    PlainLineText(lines[0]);
    if |lines| == 1 {
      SplitCons(LineText(lines[0]), '\n', "");
      assert LineTexts(lines[1..]) == [];
    } else {
      SplitCons(LineText(lines[0]), '\n', TextOf(lines[1..]));
      SplitText(lines[1..]);
    }
  }

  lemma FieldOfLine(l: TextLine)
    requires IsPlainLine(l)
    ensures
      var line := StripSuffix(LineText(l), '\r');
      match l
      case Blank(_) => line == []
      case Entry(key, value, _) => line != [] && FieldOf(line) == Field(key, value)
  {
    if l.Entry? {
      var line := l.key + " " + l.value;
      assert line[|line| - 1] == l.value[|l.value| - 1];
      assert (line + "\r")[..|line|] == line && line + "" == line;
      assert StripSuffix(LineText(l), '\r') == line;
      assert forall i :: 0 <= i < |l.key| ==> !IsWhite(l.key[i]);
      FieldOfKey(l.key, l.value);
      hide FieldOf;
    }
  }

  lemma {:induction false} FieldsOfTexts(lines: seq<TextLine>)
    requires forall i :: 0 <= i < |lines| ==> IsPlainLine(lines[i])
    ensures FieldsOf(LineTexts(lines)) == EntriesOf(lines)
    decreases |lines|
  {
    hide LineText, StripSuffix, FieldOf, IsPlainLine;
    if lines != [] {
      FieldOfLine(lines[0]);
      FieldsOfTexts(lines[1..]);
      assert LineTexts(lines)[1..] == LineTexts(lines[1..]);
    }
  }

  lemma {:induction false} TrimStartOf(before: string, s: string)
    requires AllWhite(before) && s != [] && !IsWhite(s[0])
    ensures TrimStart(before + s) == s
    decreases |before|
  {
    if before == [] {
      assert before + s == s;
    } else {
      assert (before + s)[1..] == before[1..] + s;
      TrimStartOf(before[1..], s);
    }
  }

  lemma {:induction false} TrimEndOf(s: string, after: string)
    requires AllWhite(after) && s != [] && !IsWhite(s[|s| - 1])
    ensures TrimEnd(s + after) == s
    decreases |after|
  {
    if after == [] {
      assert s + after == s;
    } else {
      var n := |after| - 1;
      assert (s + after)[..|s + after| - 1] == s + after[..n];
      TrimEndOf(s, after[..n]);
    }
  }

  lemma {:induction false} TextEnds(lines: seq<TextLine>)
    requires lines != [] && (forall i :: 0 <= i < |lines| ==> IsPlainLine(lines[i]))
    ensures
      var s, last := TextOf(lines), lines[|lines| - 1];
      && (lines[0].Entry? ==> s != [] && !IsWhite(s[0]))
      && (last.Entry? && !last.cr ==> s != [] && !IsWhite(s[|s| - 1]))
    decreases |lines|
  {
    hide LineText, IsPlainLine;
    PlainLineText(lines[0]);
    if |lines| > 1 {
      TextEnds(lines[1..]);
      assert lines[1..][|lines| - 2] == lines[|lines| - 1];
    }
  }

  /** However a pointer's lines are laid out, with line feeds or with carriage returns before them, with
      blank lines between and white space around, they are read as their keys and values. */
  lemma LayoutIsRead(before: string, lines: seq<TextLine>, after: string)
    requires IsLayout(lines) && AllWhite(before) && AllWhite(after)
    ensures Fields(before + TextOf(lines) + after) == EntriesOf(lines)
  {
    var s := TextOf(lines);
    TextEnds(lines);
    SplitText(lines);
    FieldsOfTexts(lines);
    hide IsPlainLine, TextOf, LineTexts, EntriesOf, FieldsOf, Split, TrimStart, TrimEnd, AllWhite;
    assert before + s + after == before + (s + after) && (s + after)[0] == s[0];
    TrimStartOf(before, s + after);
    TrimEndOf(s, after);
  }

  // ----- which of them are pointers -----

  /** An extension line: its priority, its name and its digest. */
  datatype Extension = Extension(priority: char, name: string, oid: string)

  /** The keys and values of a pointer in their order. */
  function PointerEntries(version: string, extensions: seq<Extension>, oid: string, size: string): seq<Field> {
    [Field("version", version)] + ExtensionEntries(extensions) + [Field("oid", "sha256:" + oid), Field("size", size)]
  }

  function ExtensionEntry(e: Extension): Field {
    Field("ext-" + [e.priority] + "-" + e.name, "sha256:" + e.oid)
  }

  function ExtensionEntries(extensions: seq<Extension>): seq<Field> {
    seq(|extensions|, i requires 0 <= i < |extensions| => ExtensionEntry(extensions[i]))
  }

  predicate IsDigest(oid: string) {
    |oid| == 64 && forall i :: 0 <= i < |oid| ==> '0' <= oid[i] <= '9' || 'a' <= oid[i] <= 'f'
  }

  predicate IsName(name: string) {
    name != [] && forall i :: 0 <= i < |name| ==>
      '0' <= name[i] <= '9' || 'a' <= name[i] <= 'z' || 'A' <= name[i] <= 'Z' || name[i] == '_'
  }

  predicate IsGoodExtension(e: Extension) {
    '0' <= e.priority <= '9' && IsName(e.name) && IsDigest(e.oid)
  }

  /** A size below 2^63, in decimal digits, leading zeros allowed. */
  predicate IsGoodSize(size: string) {
    size != [] && (forall i :: 0 <= i < |size| ==> '0' <= size[i] <= '9')
    && (AllDigits(size) ==> Value(size) < 0x8000_0000_0000_0000)
  }

  lemma DigestIsOid(oid: string)
    ensures IsSha256Oid("sha256:" + oid) <==> IsDigest(oid)
  {
    assert ("sha256:" + oid)[7..] == oid;
  }

  lemma ExtensionIs(e: Extension)
    ensures IsExtension(ExtensionEntry(e)) <==> IsGoodExtension(e)
    ensures IsGoodExtension(e) ==> ExtensionPriority(ExtensionEntry(e).key) == Some(e.priority)
  {
    DigestIsOid(e.oid);
    hide IsSha256Oid, IsDigest;
    var key, rest := ExtensionEntry(e).key, [e.priority] + "-" + e.name;
    assert key == "ext-" + rest && key[4..] == rest;
    assert key[0] == 'e' && "oid"[0] == 'o';
    assert rest[0] == e.priority && rest[1] == '-';
    assert forall i :: 0 <= i < |e.name| ==> rest[i + 2] == e.name[i];
    assert forall i :: 2 <= i < |rest| ==> rest[i] == e.name[i - 2];
  }

  /** A file of the shape of a pointer, however laid out, is accepted exactly if its version is one of the
      three, every extension has a digit for its priority, a name of word characters and a digest, no two
      the same priority, and the file's own digest and size are in order. */
  lemma WrittenPointerIsAccepted(before: string, lines: seq<TextLine>, after: string,
      version: string, extensions: seq<Extension>, oid: string, size: string)
    requires IsLayout(lines) && AllWhite(before) && AllWhite(after)
    requires EntriesOf(lines) == PointerEntries(version, extensions, oid, size)
    requires IsUtf8(before + TextOf(lines) + after)
    ensures AcceptsPointer(before + TextOf(lines) + after) <==>
      && (version == "http://git-media.io/v/2" || version == "https://hawser.github.com/spec/v1"
          || version == "https://git-lfs.github.com/spec/v1")
      && (forall i :: 0 <= i < |extensions| ==> IsGoodExtension(extensions[i]))
      && (forall i, j :: 0 <= i < j < |extensions| ==> extensions[i].priority != extensions[j].priority)
      && IsDigest(oid) && IsGoodSize(size)
  {
    LayoutIsRead(before, lines, after);
    hide Fields, TextOf, EntriesOf, IsUtf8, IsLayout, AllWhite, IsDigest, IsGoodSize, IsGoodExtension, IsPointerOf;
    EntriesDecide(version, extensions, oid, size);
  }

  lemma SizeIs(size: string)
    ensures IsSize(size) <==> IsGoodSize(size)
  {
    hide Value;
    assert AllDigits(size) <==> forall i :: 0 <= i < |size| ==> '0' <= size[i] <= '9';
  }

  lemma EntriesDecide(version: string, extensions: seq<Extension>, oid: string, size: string)
    ensures IsPointerOf(PointerEntries(version, extensions, oid, size)) <==>
      && (version == "http://git-media.io/v/2" || version == "https://hawser.github.com/spec/v1"
          || version == "https://git-lfs.github.com/spec/v1")
      && (forall i :: 0 <= i < |extensions| ==> IsGoodExtension(extensions[i]))
      && (forall i, j :: 0 <= i < j < |extensions| ==> extensions[i].priority != extensions[j].priority)
      && IsDigest(oid) && IsGoodSize(size)
  {
    var fields, n := PointerEntries(version, extensions, oid, size), |extensions|;
    SizeIs(size);
    DigestIsOid(oid);
    hide IsSha256Oid, IsSize, IsDigest, IsGoodSize, IsExtension, IsGoodExtension, ExtensionPriority, ExtensionEntry;
    assert |fields| == n + 3 && fields[0] == Field("version", version);
    assert fields[n + 1] == Field("oid", "sha256:" + oid) && fields[n + 2] == Field("size", size);
    forall i | 0 <= i < n
      ensures fields[i + 1] == ExtensionEntry(extensions[i])
      ensures IsExtension(fields[i + 1]) <==> IsGoodExtension(extensions[i])
      ensures IsGoodExtension(extensions[i]) ==> ExtensionPriority(fields[i + 1].key) == Some(extensions[i].priority)
    {
      ExtensionIs(extensions[i]);
    }
    hide PointerEntries, IsAliasOfVersion;
    VersionIs(version);
    ExtensionsDecide(fields, extensions);
  }

  lemma VersionIs(version: string)
    ensures IsAliasOfVersion(version) <==>
      version == "http://git-media.io/v/2" || version == "https://hawser.github.com/spec/v1"
      || version == "https://git-lfs.github.com/spec/v1"
  {
  }

  lemma ExtensionsDecide(fields: seq<Field>, extensions: seq<Extension>)
    requires |fields| == |extensions| + 3
    requires forall i :: 0 <= i < |extensions| ==> (IsExtension(fields[i + 1]) <==> IsGoodExtension(extensions[i]))
    requires forall i :: 0 <= i < |extensions| && IsGoodExtension(extensions[i]) ==>
      ExtensionPriority(fields[i + 1].key) == Some(extensions[i].priority)
    ensures
      var n := |fields|;
      (forall i :: 1 <= i < n - 2 ==> IsExtension(fields[i]))
      && (forall i, j :: 1 <= i < j < n - 2 ==> ExtensionPriority(fields[i].key) != ExtensionPriority(fields[j].key))
      <==>
      (forall i :: 0 <= i < |extensions| ==> IsGoodExtension(extensions[i]))
      && (forall i, j :: 0 <= i < j < |extensions| ==> extensions[i].priority != extensions[j].priority)
  {
    hide IsExtension, IsGoodExtension, ExtensionPriority;
    var n := |fields|;
    if forall i :: 1 <= i < n - 2 ==> IsExtension(fields[i]) {
      forall i | 0 <= i < |extensions|
        ensures IsGoodExtension(extensions[i])
      {
        assert IsExtension(fields[i + 1]);
      }
    }
    if forall i :: 0 <= i < |extensions| ==> IsGoodExtension(extensions[i]) {
      forall i | 1 <= i < n - 2
        ensures IsExtension(fields[i]) && ExtensionPriority(fields[i].key) == Some(extensions[i - 1].priority)
      {
        assert IsGoodExtension(extensions[i - 1]);
        assert fields[i] == fields[i - 1 + 1];
      }
      if forall i, j :: 1 <= i < j < n - 2 ==> ExtensionPriority(fields[i].key) != ExtensionPriority(fields[j].key) {
        forall i, j | 0 <= i < j < |extensions|
          ensures extensions[i].priority != extensions[j].priority
        {
          assert ExtensionPriority(fields[i + 1].key) != ExtensionPriority(fields[j + 1].key);
        }
      }
    }
  }
}
