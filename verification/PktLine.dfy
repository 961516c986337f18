/** Pkt-lines: four hex digits of length, then the data; and lists of text lines ended by a flush. */
module PktLine {
  import opened Wrappers
  import opened LfsPointer
  import opened Utf8

  /** The largest data one pkt-line can hold by its four digits. */
  const DATA_MAX: nat := 65_531

  // ----- hex lengths -----

  function HexDigit(d: nat): char
    requires d < 16
  {
    "0123456789abcdef"[d]
  }

  /** A hex digit of either case, as the number parser reads it. */
  function HexValue(c: char): Option<nat> {
    if '0' <= c <= '9' then Some(c as int - '0' as int)
    else if 'a' <= c <= 'f' then Some(c as int - 'a' as int + 10)
    else if 'A' <= c <= 'F' then Some(c as int - 'A' as int + 10)
    else None
  }

  function Hex4(n: nat): string
    requires n < 0x1_0000
  {
    [HexDigit(n / 4096), HexDigit(n / 256 % 16), HexDigit(n / 16 % 16), HexDigit(n % 16)]
  }

  function HexNumber(s: string, acc: nat): Option<nat> {
    if s == [] then Some(acc)
    else match HexValue(s[0]) case None => None case Some(d) => HexNumber(s[1..], 16 * acc + d)
  }

  /** The length field as it is parsed: hex digits, of which the first may be a plus sign. */
  function ParseLength(s: string): Option<nat>
    requires |s| == 4
  {
    if s[0] == '+' then HexNumber(s[1..], 0) else HexNumber(s, 0)
  }

  lemma HexDigitValue(d: nat)
    requires d < 16
    ensures HexValue(HexDigit(d)) == Some(d) && HexDigit(d) != '+'
  {
  }

  lemma ParseHex4(n: nat)
    requires n < 0x1_0000
    ensures |Hex4(n)| == 4 && ParseLength(Hex4(n)) == Some(n)
  {
    HexParts(n);
    hide HexDigit, ParseLength;
    FourDigits(n / 4096, n / 256 % 16, n / 16 % 16, n % 16);
  }

  lemma FourDigits(a: nat, b: nat, c: nat, d: nat)
    requires a < 16 && b < 16 && c < 16 && d < 16
    ensures ParseLength([HexDigit(a), HexDigit(b), HexDigit(c), HexDigit(d)]) == Some(16 * (16 * (16 * a + b) + c) + d)
  {
    HexDigitValue(a);
    hide HexNumber, HexDigit, HexValue;
    var w, x, y, z := HexDigit(a), HexDigit(b), HexDigit(c), HexDigit(d);
    ThreeDigits(b, c, d, a);
    HexNumberCons(a, [x, y, z], 0);
    assert [w, x, y, z] == [w] + [x, y, z];
  }

  lemma ThreeDigits(b: nat, c: nat, d: nat, acc: nat)
    requires b < 16 && c < 16 && d < 16
    ensures HexNumber([HexDigit(b), HexDigit(c), HexDigit(d)], acc) == Some(16 * (16 * (16 * acc + b) + c) + d)
  {
    hide HexNumber, HexDigit;
    var x, y, z := HexDigit(b), HexDigit(c), HexDigit(d);
    HexNumberCons(b, [y, z], acc);
    HexNumberCons(c, [z], 16 * acc + b);
    HexNumberCons(d, [], 16 * (16 * acc + b) + c);
    HexNumberEnd(16 * (16 * (16 * acc + b) + c) + d);
    assert [x, y, z] == [x] + [y, z] && [y, z] == [y] + [z] && [z] == [z] + [];
  }

  lemma HexNumberCons(d: nat, rest: string, acc: nat)
    requires d < 16
    ensures HexNumber([HexDigit(d)] + rest, acc) == HexNumber(rest, 16 * acc + d)
  {
    HexDigitValue(d);
    hide HexValue, HexDigit;
    assert ([HexDigit(d)] + rest)[1..] == rest;
  }

  lemma HexNumberEnd(acc: nat)
    ensures HexNumber([], acc) == Some(acc)
  {
  }

  lemma HexParts(n: nat)
    requires n < 0x1_0000
    ensures n / 4096 < 16
    ensures n == 16 * (16 * (16 * (n / 4096) + n / 256 % 16) + n / 16 % 16) + n % 16
  {
    assert n / 256 == 16 * (n / 4096) + n / 256 % 16;
    assert n / 16 == 16 * (n / 256) + n / 16 % 16;
  }

  // ----- packets -----

  datatype Pkt = Data(bytes: string) | Flush

  /** One read: a packet and what follows it, a clean end of input, or a malformed packet. */
  datatype Read = Got(pkt: Pkt, rest: string) | End | Malformed

  const FLUSH: string := "0000"

  function EncodePkt(data: string): string
    requires |data| <= DATA_MAX
  {
    Hex4(|data| + 4) + data
  }

  function DecodePkt(input: string): (r: Read)
    ensures r.Got? ==> |r.rest| < |input|
  {
    if input == [] then End
    else if |input| < 4 then Malformed
    else
      match ParseLength(input[..4])
      case None => Malformed
      case Some(len) =>
        if len == 0 then Got(Flush, input[4..])
        else if len <= 4 || |input| < len then Malformed
        else Got(Data(input[4..len]), input[len..])
  }

  /** A written packet is read back, whatever follows it; only empty data does not survive. */
  lemma PktRoundTrip(data: string, rest: string)
    requires |data| <= 65_531
    ensures DecodePkt(EncodePkt(data) + rest) == if data == [] then Malformed else Got(Data(data), rest)
  {
    var s := EncodePkt(data) + rest;
    ParseHex4(|data| + 4);
    hide Hex4, ParseLength;
    assert s[..4] == Hex4(|data| + 4);
    assert s[4..|data| + 4] == data && s[|data| + 4..] == rest;
  }

  lemma FlushRoundTrip(rest: string)
    ensures DecodePkt(FLUSH + rest) == Got(Flush, rest)
  {
    ParseHex4(0);
    hide ParseLength;
    assert Hex4(0) == FLUSH;
    assert (FLUSH + rest)[..4] == FLUSH && (FLUSH + rest)[4..] == rest;
  }

  // ----- lists of lines -----

  datatype Listed = Lines(lines: seq<string>, rest: string) | BadList

  function DecodeList(input: string): (r: Listed)
    ensures r.Lines? ==> |r.rest| < |input|
    decreases |input|
  {
    match DecodePkt(input)
    case Got(Flush, rest) => Lines([], rest)
    case Got(Data(bytes), rest) =>
      if !IsUtf8(bytes) then BadList
      else
        (match DecodeList(rest)
         case BadList => BadList
         case Lines(lines, rest) => Lines([StripSuffix(bytes, '\n')] + lines, rest))
    case End => BadList
    case Malformed => BadList
  }

  function EncodeText(line: string): string
    requires |line| < DATA_MAX
  {
    EncodePkt(line + "\n")
  }

  /** A line that fits a packet with its newline. */
  predicate IsLine(line: string) {
    |line| < DATA_MAX && IsUtf8(line + "\n")
  }

  predicate AllLines(lines: seq<string>) {
    forall i :: 0 <= i < |lines| ==> IsLine(lines[i])
  }

  function EncodeList(lines: seq<string>): string
    requires AllLines(lines)
  {
    if lines == [] then FLUSH else assert IsLine(lines[0]); EncodeText(lines[0]) + EncodeList(lines[1..])
  }

  lemma {:induction false} ListRoundTrip(lines: seq<string>, rest: string)
    requires AllLines(lines)
    ensures DecodeList(EncodeList(lines) + rest) == Lines(lines, rest)
    decreases |lines|
  {
    hide EncodePkt, DecodePkt, IsUtf8;
    if lines == [] {
      FlushRoundTrip(rest);
    } else {
      var line := lines[0];
      assert IsLine(line);
      var after := EncodeList(lines[1..]) + rest;
      assert EncodeList(lines) + rest == EncodeText(line) + after;
      PktRoundTrip(line + "\n", after);
      ListRoundTrip(lines[1..], rest);
      assert StripSuffix(line + "\n", '\n') == line;
      hide EncodeText, EncodeList, StripSuffix;
      assert [line] + lines[1..] == lines;
    }
  }

  // ----- content -----

  datatype Content = Content(bytes: string, rest: string) | BadContent

  function DecodeContent(input: string): (r: Content)
    ensures r.Content? ==> |r.rest| < |input|
    decreases |input|
  {
    match DecodePkt(input)
    case Got(Flush, rest) => Content([], rest)
    case Got(Data(bytes), rest) =>
      (match DecodeContent(rest)
       case BadContent => BadContent
       case Content(more, rest) => Content(bytes + more, rest))
    case End => BadContent
    case Malformed => BadContent
  }

  predicate IsChunk(chunk: string) {
    0 < |chunk| <= DATA_MAX
  }

  predicate AllChunks(chunks: seq<string>) {
    forall i :: 0 <= i < |chunks| ==> IsChunk(chunks[i])
  }

  function EncodeChunks(chunks: seq<string>): string
    requires AllChunks(chunks)
  {
    if chunks == [] then FLUSH else assert IsChunk(chunks[0]); EncodePkt(chunks[0]) + EncodeChunks(chunks[1..])
  }

  function Joined(chunks: seq<string>): string {
    if chunks == [] then [] else chunks[0] + Joined(chunks[1..])
  }

  /** Content is recovered whole, however it was cut into packets. */
  lemma {:induction false} ContentRoundTrip(chunks: seq<string>, rest: string)
    requires AllChunks(chunks)
    ensures DecodeContent(EncodeChunks(chunks) + rest) == Content(Joined(chunks), rest)
    decreases |chunks|
  {
    hide EncodePkt, DecodePkt;
    if chunks == [] {
      FlushRoundTrip(rest);
    } else {
      assert IsChunk(chunks[0]);
      var after := EncodeChunks(chunks[1..]) + rest;
      assert EncodeChunks(chunks) + rest == EncodePkt(chunks[0]) + after;
      PktRoundTrip(chunks[0], after);
      ContentRoundTrip(chunks[1..], rest);
      hide EncodeChunks;
    }
  }

  // ----- what else is read, and what is refused -----

  /** A hex digit of either case. */
  predicate Spells(c: char, d: nat)
    requires d < 16
  {
    c == "0123456789abcdef"[d] || c == "0123456789ABCDEF"[d]
  }

  predicate IsHexSpelled(c: char) {
    exists d: nat :: d < 16 && Spells(c, d)
  }

  lemma SpelledDigit(c: char, d: nat)
    requires d < 16
    ensures Spells(c, d) ==> HexValue(c) == Some(d) && c != '+'
  {
  }

  lemma NoSpelledDigit(c: char)
    requires !IsHexSpelled(c)
    ensures HexValue(c) == None
  {
    if HexValue(c).Some? {
      var d := HexValue(c).value;
      assert d < 16 && Spells(c, d);
    }
  }

  lemma HexNumberStep(s: string, acc: nat)
    ensures HexNumber(s, acc) ==
      if s == [] then Some(acc)
      else match HexValue(s[0]) case None => None case Some(d) => HexNumber(s[1..], 16 * acc + d)
  {
  }

  /** The length of a packet is four hex digits of either case, of which the first may be a plus sign. */
  lemma LengthIsRead(s: string, a: nat, b: nat, c: nat, d: nat)
    requires |s| == 4 && a < 16 && b < 16 && c < 16 && d < 16
    requires Spells(s[1], b) && Spells(s[2], c) && Spells(s[3], d)
    ensures Spells(s[0], a) ==> ParseLength(s) == Some(4096 * a + 256 * b + 16 * c + d)
    ensures s[0] == '+' ==> ParseLength(s) == Some(256 * b + 16 * c + d)
  {
    SpelledDigit(s[0], a);
    SpelledDigit(s[1], b);
    SpelledDigit(s[2], c);
    SpelledDigit(s[3], d);
    hide HexNumber, HexValue, Spells;
    var first := if s[0] == '+' then 0 else a;
    HexNumberStep(s, 0);
    HexNumberStep(s[1..], first);
    HexNumberStep(s[1..][1..], 16 * first + b);
    HexNumberStep(s[1..][1..][1..], 16 * (16 * first + b) + c);
    HexNumberStep(s[1..][1..][1..][1..], 16 * (16 * (16 * first + b) + c) + d);
  }

  lemma {:induction false} BadDigitIsRefused(s: string, acc: nat, i: nat)
    requires i < |s| && !IsHexSpelled(s[i])
    ensures HexNumber(s, acc) == None
    decreases |s|
  {
    hide IsHexSpelled;
    if i == 0 {
      NoSpelledDigit(s[0]);
    } else if HexValue(s[0]).Some? {
      BadDigitIsRefused(s[1..], 16 * acc + HexValue(s[0]).value, i - 1);
    }
  }

  /** Any other length makes a packet malformed. */
  lemma OtherLengthIsRefused(s: string, i: nat, rest: string)
    requires |s| == 4 && i < 4 && !IsHexSpelled(s[i]) && !(i == 0 && s[0] == '+')
    ensures DecodePkt(s + rest) == Malformed
  {
    assert (s + rest)[..4] == s;
    hide IsHexSpelled, HexNumber;
    if s[0] == '+' {
      assert s[1..][i - 1] == s[i];
      BadDigitIsRefused(s[1..], 0, i - 1);
    } else {
      BadDigitIsRefused(s, 0, i);
    }
  }

  /** A packet cut short is not read. */
  lemma CutPacket(data: string, n: nat)
    requires 0 < |data| <= DATA_MAX && n < |EncodePkt(data)|
    ensures DecodePkt(EncodePkt(data)[..n]) == if n == 0 then End else Malformed
  {
    ParseHex4(|data| + 4);
    hide Hex4, ParseLength;
    var s := EncodePkt(data);
    assert n >= 4 ==> s[..n][..4] == Hex4(|data| + 4);
  }

  /** A flush cut short is not read either. */
  lemma CutFlush(n: nat)
    requires n < 4
    ensures DecodePkt(FLUSH[..n]) == if n == 0 then End else Malformed
  {
  }

  lemma PacketThenPrefix(first: string, more: string, n: nat)
    requires n <= |first + more|
    ensures (first + more)[..n] == if n < |first| then first[..n] else first + more[..n - |first|]
  {
  }

  /** A list cut short anywhere is refused. */
  lemma {:induction false} CutListIsRefused(lines: seq<string>, n: nat)
    requires AllLines(lines) && n < |EncodeList(lines)|
    ensures DecodeList(EncodeList(lines)[..n]) == BadList
    decreases |lines|
  {
    hide EncodePkt, DecodePkt, IsUtf8;
    if lines == [] {
      CutFlush(n);
    } else {
      assert IsLine(lines[0]);
      var line := lines[0] + "\n";
      PacketThenPrefix(EncodePkt(line), EncodeList(lines[1..]), n);
      if n < |EncodePkt(line)| {
        CutPacket(line, n);
      } else {
        PktRoundTrip(line, EncodeList(lines[1..])[..n - |EncodePkt(line)|]);
        CutListIsRefused(lines[1..], n - |EncodePkt(line)|);
      }
    }
  }

  /** Content cut short anywhere is refused. */
  lemma {:induction false} CutContentIsRefused(chunks: seq<string>, n: nat)
    requires AllChunks(chunks) && n < |EncodeChunks(chunks)|
    ensures DecodeContent(EncodeChunks(chunks)[..n]) == BadContent
    decreases |chunks|
  {
    hide EncodePkt, DecodePkt;
    if chunks == [] {
      CutFlush(n);
    } else {
      assert IsChunk(chunks[0]);
      var chunk := chunks[0];
      PacketThenPrefix(EncodePkt(chunk), EncodeChunks(chunks[1..]), n);
      if n < |EncodePkt(chunk)| {
        CutPacket(chunk, n);
      } else {
        PktRoundTrip(chunk, EncodeChunks(chunks[1..])[..n - |EncodePkt(chunk)|]);
        CutContentIsRefused(chunks[1..], n - |EncodePkt(chunk)|);
      }
    }
  }

  function EncodeTexts(lines: seq<string>): string
    requires AllLines(lines)
  {
    if lines == [] then [] else assert IsLine(lines[0]); EncodeText(lines[0]) + EncodeTexts(lines[1..])
  }

  /** A list with a line that is not UTF-8 is refused, whatever stands before it. */
  lemma {:induction false} ForeignLineIsRefused(lines: seq<string>, line: string, rest: string)
    requires AllLines(lines) && 0 < |line| <= DATA_MAX && !IsUtf8(line)
    ensures DecodeList(EncodeTexts(lines) + (EncodePkt(line) + rest)) == BadList
    decreases |lines|
  {
    hide EncodePkt, DecodePkt, IsUtf8;
    var bad := EncodePkt(line) + rest;
    if lines == [] {
      assert EncodeTexts(lines) + bad == bad;
      PktRoundTrip(line, rest);
    } else {
      assert IsLine(lines[0]);
      var after := EncodeTexts(lines[1..]) + bad;
      assert EncodeTexts(lines) + bad == EncodePkt(lines[0] + "\n") + after;
      PktRoundTrip(lines[0] + "\n", after);
      ForeignLineIsRefused(lines[1..], line, rest);
    }
  }
}
