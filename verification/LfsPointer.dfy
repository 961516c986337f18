/** Git LFS pointers: the printer, and the test that decides whether content is a pointer already. */
module LfsPointer {
  import opened Wrappers
  import opened Decimal
  import opened Utf8

  const POINTER_VERSION: string := "https://git-lfs.github.com/spec/v1"

  /** Only content shorter than this can be a pointer. */
  const POINTER_MAX: nat := 1024

  const I64_MAX: nat := 0x7fff_ffff_ffff_ffff

  /** The canonical pointer text for content with this digest and size. */
  function Pointer(oid: string, size: nat): string {
    "version " + POINTER_VERSION + "\noid sha256:" + oid + "\nsize " + Dec(size) + "\n"
  }

  // ----- reading a pointer -----

  predicate IsAliasOfVersion(v: string) {
    v == "http://git-media.io/v/2" || v == "https://hawser.github.com/spec/v1" || v == POINTER_VERSION
  }

  predicate IsBlank(c: char) {
    c == ' ' || c == '\t' || c == '\n' || c == '\r' || c as int == 12
  }

  function TrimStart(s: string): string {
    if s != [] && IsBlank(s[0]) then TrimStart(s[1..]) else s
  }

  function TrimEnd(s: string): string {
    if s != [] && IsBlank(s[|s| - 1]) then TrimEnd(s[..|s| - 1]) else s
  }

  /** Index of the first `c`, or the length. */
  function IndexOf(s: string, c: char): (n: nat)
    ensures n <= |s| && (n < |s| ==> s[n] == c)
  {
    if s == [] || s[0] == c then 0 else IndexOf(s[1..], c) + 1
  }

  function Split(s: string, c: char): seq<string>
    decreases |s|
  {
    var n := IndexOf(s, c);
    if n == |s| then [s] else [s[..n]] + Split(s[n + 1..], c)
  }

  function StripSuffix(s: string, c: char): string {
    if s != [] && s[|s| - 1] == c then s[..|s| - 1] else s
  }

  datatype Field = Field(key: string, value: string)

  function FieldOf(line: string): Field {
    var n := IndexOf(line, ' ');
    if n == |line| then Field(line, "") else Field(line[..n], line[n + 1..])
  }

  /** The non-empty lines, a carriage return at their end dropped, as key and value. */
  function FieldsOf(lines: seq<string>): seq<Field> {
    if lines == [] then []
    else
      var line := StripSuffix(lines[0], '\r');
      (if line == [] then [] else [FieldOf(line)]) + FieldsOf(lines[1..])
  }

  function Fields(bytes: string): seq<Field> {
    FieldsOf(Split(TrimEnd(TrimStart(bytes)), '\n'))
  }

  predicate IsLowerHex(c: char) {
    IsDigit(c) || 'a' <= c <= 'f'
  }

  predicate IsHexOid(h: string) {
    |h| == 64 && forall i :: 0 <= i < |h| ==> IsLowerHex(h[i])
  }

  function StripPrefix(s: string, prefix: string): Option<string> {
    if prefix <= s then Some(s[|prefix|..]) else None
  }

  predicate IsSha256Oid(value: string) {
    match StripPrefix(value, "sha256:") case None => false case Some(h) => IsHexOid(h)
  }

  predicate IsWord(c: char) {
    IsDigit(c) || 'a' <= c <= 'z' || 'A' <= c <= 'Z' || c == '_'
  }

  /** The priority digit of an `ext-<digit>-<name>` key whose name is all word characters. */
  function ExtensionPriority(key: string): Option<char> {
    match StripPrefix(key, "ext-")
    case None => None
    case Some(rest) =>
      if |rest| >= 3 && rest[1] == '-' && IsDigit(rest[0]) && forall i :: 2 <= i < |rest| ==> IsWord(rest[i])
      then Some(rest[0]) else None
  }

  predicate IsSize(n: string) {
    n != [] && AllDigits(n) && Value(n) <= I64_MAX
  }

  /** The grammar: a known version first, extensions with distinct priorities, the digest, and the
      size last. */
  ghost predicate IsPointerOf(fields: seq<Field>) {
    var n := |fields|;
    && n >= 3
    && fields[0].key == "version" && IsAliasOfVersion(fields[0].value)
    && (forall i :: 1 <= i < n - 2 ==> IsExtension(fields[i]))
    && (forall i, j :: 1 <= i < j < n - 2 ==> ExtensionPriority(fields[i].key) != ExtensionPriority(fields[j].key))
    && fields[n - 2].key == "oid" && IsSha256Oid(fields[n - 2].value)
    && fields[n - 1].key == "size" && IsSize(fields[n - 1].value)
  }

  predicate IsExtension(f: Field) {
    f.key != "oid" && ExtensionPriority(f.key).Some? && IsSha256Oid(f.value)
  }

  /** Content that `git-lfs clean` passes through as a pointer. */
  ghost predicate AcceptsPointer(bytes: string) {
    IsUtf8(bytes) && IsPointerOf(Fields(bytes))
  }

  /** The pointer test: the version, then extensions until the digest, then the size and nothing
      more. */
  method IsPointer(bytes: string) returns (accepted: bool)
    ensures accepted <==> AcceptsPointer(bytes)
  {
    hide IsUtf8, Fields, IsAliasOfVersion, ExtensionPriority, IsSha256Oid, IsSize;
    if !IsUtf8(bytes) {
      return false;
    }
    var fields := Fields(bytes);
    if fields == [] || fields[0].key != "version" || !IsAliasOfVersion(fields[0].value) {
      return false;
    }
    var priorities: seq<char> := [];
    var i := 1;
    while i < |fields| && fields[i].key != "oid"
      invariant 1 <= i <= |fields|
      invariant |priorities| == i - 1
      invariant forall j :: 1 <= j < i ==> IsExtension(fields[j])
      invariant forall j :: 1 <= j < i ==> ExtensionPriority(fields[j].key) == Some(priorities[j - 1])
      invariant forall j, k :: 0 <= j < k < |priorities| ==> priorities[j] != priorities[k]
    {
      var priority := ExtensionPriority(fields[i].key);
      if priority.None? {
        NotAnExtension(fields, i);
        return false;
      }
      if !IsSha256Oid(fields[i].value) {
        NotAnExtension(fields, i);
        return false;
      }
      if priority.value in priorities {
        ghost var j :| 0 <= j < |priorities| && priorities[j] == priority.value;
        RepeatedPriority(fields, j + 1, i);
        return false;
      }
      priorities := priorities + [priority.value];
      i := i + 1;
    }
    if i == |fields| {
      NoDigest(fields);
      return false;
    }
    DigestAndSizeDecide(fields, i, priorities);
    var sizeOk := i + 1 < |fields| && fields[i + 1].key == "size" && IsSize(fields[i + 1].value);
    accepted := IsSha256Oid(fields[i].value) && sizeOk && i + 2 == |fields|;
  }

  /** Past `i` extensions a pointer still has its digest ahead, and has it here if it is here. */
  lemma ExtensionsThenDigest(fields: seq<Field>, i: nat)
    requires 1 <= i < |fields| && forall j :: 1 <= j < i ==> IsExtension(fields[j])
    ensures IsPointerOf(fields) ==> i <= |fields| - 2
    ensures IsPointerOf(fields) ==> (fields[i].key == "oid" <==> i == |fields| - 2)
  {
    hide ExtensionPriority, IsSha256Oid, IsSize, IsAliasOfVersion;
    if IsPointerOf(fields) {
      var n := |fields|;
      var beforeLast, here := IsExtension(fields[n - 2]), IsExtension(fields[i]);
    }
  }

  lemma NotAnExtension(fields: seq<Field>, i: nat)
    requires 1 <= i < |fields| && fields[i].key != "oid" && forall j :: 1 <= j < i ==> IsExtension(fields[j])
    requires !IsExtension(fields[i])
    ensures !IsPointerOf(fields)
  {
    hide IsExtension, IsSha256Oid, IsSize, IsAliasOfVersion;
    ExtensionsThenDigest(fields, i);
  }

  lemma RepeatedPriority(fields: seq<Field>, j: nat, i: nat)
    requires 1 <= j < i < |fields| && fields[i].key != "oid" && forall k :: 1 <= k < i ==> IsExtension(fields[k])
    requires ExtensionPriority(fields[j].key) == ExtensionPriority(fields[i].key)
    ensures !IsPointerOf(fields)
  {
    hide IsExtension, IsSha256Oid, IsSize, IsAliasOfVersion, ExtensionPriority;
    ExtensionsThenDigest(fields, i);
  }

  lemma NoDigest(fields: seq<Field>)
    requires |fields| >= 1 && forall j :: 1 <= j < |fields| ==> IsExtension(fields[j])
    ensures !IsPointerOf(fields)
  {
    hide ExtensionPriority, IsSha256Oid, IsSize, IsAliasOfVersion;
    if |fields| >= 3 {
      assert IsExtension(fields[|fields| - 2]);
    }
  }

  /** With the extensions known, the digest and the size decide. */
  lemma DigestAndSizeDecide(fields: seq<Field>, i: nat, priorities: seq<char>)
    requires 1 <= i < |fields| && fields[i].key == "oid"
    requires fields[0].key == "version" && IsAliasOfVersion(fields[0].value)
    requires |priorities| == i - 1 && forall j :: 1 <= j < i ==> IsExtension(fields[j])
    requires forall j :: 1 <= j < i ==> ExtensionPriority(fields[j].key) == Some(priorities[j - 1])
    requires forall j, k :: 0 <= j < k < |priorities| ==> priorities[j] != priorities[k]
    ensures IsPointerOf(fields) <==>
      IsSha256Oid(fields[i].value) && i + 2 == |fields|
      && fields[i + 1].key == "size" && IsSize(fields[i + 1].value)
  {
    hide IsExtension, ExtensionPriority, IsSha256Oid, IsSize, IsAliasOfVersion;
    ExtensionsThenDigest(fields, i);
  }

  // ----- what the printer prints is a pointer -----

  lemma {:induction false} IndexOfFirst(a: string, c: char, rest: string)
    requires c !in a
    ensures IndexOf(a + [c] + rest, c) == |a| && IndexOf(a, c) == |a|
    decreases |a|
  {
    if a != [] {
      assert (a + [c] + rest)[1..] == a[1..] + [c] + rest;
      IndexOfFirst(a[1..], c, rest);
    }
  }

  lemma SplitCons(a: string, c: char, rest: string)
    requires c !in a
    ensures Split(a + [c] + rest, c) == [a] + Split(rest, c) && Split(a, c) == [a]
  {
    IndexOfFirst(a, c, rest);
    hide IndexOf;
    var s := a + [c] + rest;
    assert s[..|a|] == a && s[|a| + 1..] == rest && a[..|a|] == a;
  }

  lemma FieldOfKey(key: string, value: string)
    requires ' ' !in key
    ensures FieldOf(key + " " + value) == Field(key, value)
  {
    IndexOfFirst(key, ' ', value);
    hide IndexOf;
    var line := key + " " + value;
    assert line[..|key|] == key && line[|key| + 1..] == value;
  }

  lemma FieldsCons(key: string, value: string, lines: seq<string>)
    requires ' ' !in key && value != [] && value[|value| - 1] != '\r'
    ensures FieldsOf([key + " " + value] + lines) == [Field(key, value)] + FieldsOf(lines)
  {
    var line := key + " " + value;
    FieldOfKey(key, value);
    hide FieldOf;
    assert line[|line| - 1] == value[|value| - 1];
    assert ([line] + lines)[1..] == lines;
  }

  lemma SplitThree(l1: string, l2: string, l3: string)
    requires '\n' !in l1 && '\n' !in l2 && '\n' !in l3
    ensures Split(l1 + "\n" + (l2 + "\n" + l3), '\n') == [l1] + ([l2] + ([l3] + []))
  {
    hide Split;
    SplitCons(l1, '\n', l2 + "\n" + l3);
    SplitCons(l2, '\n', l3);
    SplitCons(l3, '\n', "");
  }

  lemma FieldsOfThree(v: string, d: string, n: string)
    requires v != [] && d != [] && n != []
    requires v[|v| - 1] != '\r' && d[|d| - 1] != '\r' && n[|n| - 1] != '\r'
    ensures FieldsOf(["version" + " " + v] + (["oid" + " " + d] + (["size" + " " + n] + []))) ==
      [Field("version", v), Field("oid", d), Field("size", n)]
  {
    hide FieldsOf;
    FieldsCons("version", v, ["oid" + " " + d] + (["size" + " " + n] + []));
    FieldsCons("oid", d, ["size" + " " + n] + []);
    FieldsCons("size", n, []);
    NoFields();
  }

  /** The three lines of a pointer. */
  lemma FieldsOfLines(v: string, d: string, n: string)
    requires v != [] && d != [] && n != []
    requires !IsBlank(v[|v| - 1]) && !IsBlank(d[|d| - 1]) && !IsBlank(n[|n| - 1])
    requires '\n' !in v && '\n' !in d && '\n' !in n
    ensures FieldsOf(Split("version " + v + "\n" + ("oid " + d + "\n" + ("size " + n)), '\n')) ==
      [Field("version", v), Field("oid", d), Field("size", n)]
  {
    hide Split, FieldsOf;
    var l1, l2, l3 := "version" + " " + v, "oid" + " " + d, "size" + " " + n;
    assert "version " + v == l1;
    assert "oid " + d == l2;
    assert "size " + n == l3;
    SplitThree(l1, l2, l3);
    FieldsOfThree(v, d, n);
  }

  lemma NoFields()
    ensures FieldsOf([]) == []
  {
  }

  lemma TrimPrinted(body: string)
    requires |body| > 0 && !IsBlank(body[0]) && !IsBlank(body[|body| - 1])
    ensures TrimEnd(TrimStart(body + "\n")) == body
  {
    assert (body + "\n")[..|body|] == body;
  }

  lemma PointerBody(oid: string, size: nat)
    ensures
      var body := "version " + POINTER_VERSION + "\n" + ("oid " + ("sha256:" + oid) + "\n" + ("size " + Dec(size)));
      Pointer(oid, size) == body + "\n"
  {
    hide Dec;
  }

  lemma {:induction false} DecDigits(n: nat)
    ensures Dec(n) != [] && AllDigits(Dec(n))
  {
    DecRoundTrip(n);
  }

  /** A printed pointer says its version, the digest and the size, in that order. */
  lemma PointerFields(oid: string, size: nat)
    requires IsHexOid(oid)
    ensures Fields(Pointer(oid, size)) ==
      [Field("version", "https://git-lfs.github.com/spec/v1"), Field("oid", "sha256:" + oid), Field("size", Dec(size))]
  {
    DecDigits(size);
    PointerBody(oid, size);
    hide Dec, Pointer, FieldsOf, Split, TrimEnd, TrimStart;
    var d, n := "sha256:" + oid, Dec(size);
    var body := "version " + POINTER_VERSION + "\n" + ("oid " + d + "\n" + ("size " + n));
    assert body[0] == 'v';
    assert body[|body| - 1] == n[|n| - 1];
    TrimPrinted(body);
    HexIsPlain(oid);
    VersionIsPlain();
    FieldsOfLines(POINTER_VERSION, d, n);
  }

  lemma HexIsPlain(oid: string)
    requires IsHexOid(oid)
    ensures
      var d := "sha256:" + oid;
      '\n' !in d && !IsBlank(d[|d| - 1]) && IsAscii(d) && IsSha256Oid(d)
  {
    var d := "sha256:" + oid;
    assert d[7..] == oid;
    assert d[|d| - 1] == oid[63];
    forall i | 0 <= i < |d|
      ensures d[i] != '\n' && d[i] as int < 0x80
    {
      if i >= 7 {
        assert d[i] == oid[i - 7];
      }
    }
  }

  lemma VersionIsPlain()
    ensures '\n' !in POINTER_VERSION && !IsBlank(POINTER_VERSION[|POINTER_VERSION| - 1])
  {
  }

  lemma AsciiConcat(s: string, t: string)
    requires IsAscii(s) && IsAscii(t)
    ensures IsAscii(s + t)
  {
  }

  lemma PointerIsAscii(oid: string, size: nat)
    requires IsHexOid(oid)
    ensures IsAscii(Pointer(oid, size))
  {
    DecDigits(size);
    HexIsPlain(oid);
    PointerBody(oid, size);
    var v, d, n := "version " + POINTER_VERSION + "\n", "sha256:" + oid, Dec(size);
    assert IsAscii(v) && IsAscii("oid ") && IsAscii("\n") && IsAscii("size ") && IsAscii(n);
    hide IsAscii, Pointer, Dec;
    AsciiConcat("size ", n);
    AsciiConcat("oid ", d);
    AsciiConcat("oid " + d, "\n");
    AsciiConcat("oid " + d + "\n", "size " + n);
    AsciiConcat(v, "oid " + d + "\n" + ("size " + n));
    AsciiConcat(v + ("oid " + d + "\n" + ("size " + n)), "\n");
  }

  /** The test accepts what the printer prints, exactly as long as the size is a non-negative
      64-bit signed integer. */
  lemma PrintedPointerIsAccepted(oid: string, size: nat)
    requires IsHexOid(oid)
    ensures AcceptsPointer(Pointer(oid, size)) <==> size < 0x8000_0000_0000_0000
  {
    hide Fields, Pointer, IsAscii, IsUtf8, IsHexOid, IsPointerOf, IsSize;
    PointerIsAscii(oid, size);
    AsciiIsUtf8(Pointer(oid, size));
    PointerFields(oid, size);
    HexIsPlain(oid);
    SizeOfPrinted(size);
    ThreeFields("sha256:" + oid, Dec(size));
  }

  lemma SizeOfPrinted(size: nat)
    ensures IsSize(Dec(size)) <==> size <= I64_MAX
  {
    DecRoundTrip(size);
    hide Dec, AllDigits;
  }

  lemma ThreeFields(d: string, n: string)
    ensures IsPointerOf([Field("version", POINTER_VERSION), Field("oid", d), Field("size", n)])
       <==> IsSha256Oid(d) && IsSize(n)
  {
    hide IsSha256Oid, IsSize;
  }

  lemma {:induction false} DecLength(n: nat, k: nat, bound: nat)
    requires k >= 1 && n < bound && bound == Power(k)
    ensures |Dec(n)| <= k
    decreases k
  {
    if n >= 10 {
      assert k > 1;
      DecLength(n / 10, k - 1, Power(k - 1));
    }
  }

  function Power(k: nat): nat {
    if k == 0 then 1 else 10 * Power(k - 1)
  }

  /** A pointer to content of any size below 2^64 is itself short enough to be taken for one. */
  lemma PrintedPointerIsShort(oid: string, size: nat)
    requires |oid| == 64 && size < 0x1_0000_0000_0000_0000
    ensures 0 < |Pointer(oid, size)| < 1024
  {
    PowerTwenty();
    DecLength(size, 20, Power(20));
    hide Dec, Power;
  }

  lemma PowerTwenty()
    ensures Power(20) == 100_000_000_000_000_000_000
  {
    assert Power(5) == 100_000;
    assert Power(10) == 10_000_000_000;
    assert Power(15) == 1_000_000_000_000_000;
  }

  // ----- cleaning -----

  /** What cleaning stores for some content: nothing for nothing, a pointer for a pointer, else the
      pointer to it. `digest` is the hex digest of the whole content, if it can be had. */
  ghost function Clean(digest: string -> Option<string>, content: string): Option<string> {
    if content == [] then Some([])
    else if |content| < POINTER_MAX && AcceptsPointer(content) then Some(content)
    else match digest(content) case None => None case Some(oid) => Some(Pointer(oid, |content|))
  }

  ghost predicate HexDigests(digest: string -> Option<string>) {
    forall x :: digest(x).Some? ==> IsHexOid(digest(x).value)
  }

  /** Cleaning leaves content alone exactly when it is empty or passes as a pointer. */
  lemma CleanFixedPoints(digest: string -> Option<string>, x: string)
    requires HexDigests(digest) && |x| < 0x1_0000_0000_0000_0000
    ensures Clean(digest, x) == Some(x) <==> x == [] || (|x| < 1024 && AcceptsPointer(x))
  {
    if x != [] && digest(x).Some? {
      hide Pointer, AcceptsPointer, IsHexOid;
      var oid := digest(x).value;
      HexLength(oid);
      PrintedPointerIsAccepted(oid, |x|);
      PrintedPointerIsShort(oid, |x|);
    }
  }

  /** Cleaned content that was no pointer says the digest and the size of the whole content. */
  lemma CleanedSays(digest: string -> Option<string>, x: string, y: string)
    requires HexDigests(digest) && Clean(digest, x) == Some(y) && y != x
    ensures digest(x).Some? && Fields(y) ==
      [Field("version", "https://git-lfs.github.com/spec/v1"), Field("oid", "sha256:" + digest(x).value),
       Field("size", Dec(|x|))]
  {
    hide Pointer, AcceptsPointer, IsHexOid, Fields, Dec;
    var oid := digest(x).value;
    assert IsHexOid(oid) && y == Pointer(oid, |x|);
    hide *;
    PointerFields(oid, |x|);
  }

  lemma HexLength(oid: string)
    requires IsHexOid(oid)
    ensures |oid| == 64
  {
  }

  /** Cleaning what was cleaned changes nothing, exactly for content below 2^63 bytes. */
  lemma CleanIsIdempotent(digest: string -> Option<string>, x: string, y: string)
    requires HexDigests(digest) && |x| < 0x1_0000_0000_0000_0000 && Clean(digest, x) == Some(y)
    ensures Clean(digest, y) == Some(y) <==> |x| < 0x8000_0000_0000_0000
  {
    hide Pointer, AcceptsPointer, IsHexOid;
    if x != [] && !(|x| < POINTER_MAX && AcceptsPointer(x)) {
      var oid := digest(x).value;
      HexLength(oid);
      PrintedPointerIsAccepted(oid, |x|);
      PrintedPointerIsShort(oid, |x|);
      CleanFixedPoints(digest, y);
    }
  }
}
