/** UTF-8, one `char` a byte (section 4 of RFC 3629), and its lossy reading. */
module Utf8 {
  predicate InRange(s: string, i: nat, low: int, high: int) {
    i < |s| && low <= s[i] as int <= high
  }

  /** The first two bytes of a sequence of three, and of one of four. */
  predicate BeginsThree(s: string) {
    (InRange(s, 0, 0xE0, 0xE0) && InRange(s, 1, 0xA0, 0xBF))
    || ((InRange(s, 0, 0xE1, 0xEC) || InRange(s, 0, 0xEE, 0xEF)) && InRange(s, 1, 0x80, 0xBF))
    || (InRange(s, 0, 0xED, 0xED) && InRange(s, 1, 0x80, 0x9F))
  }

  predicate BeginsFour(s: string) {
    (InRange(s, 0, 0xF0, 0xF0) && InRange(s, 1, 0x90, 0xBF))
    || (InRange(s, 0, 0xF1, 0xF3) && InRange(s, 1, 0x80, 0xBF))
    || (InRange(s, 0, 0xF4, 0xF4) && InRange(s, 1, 0x80, 0x8F))
  }

  /** Length of the well-formed sequence a byte string begins with; 0 if it begins with none. */
  function SequenceLength(s: string): (n: nat)
    ensures n <= |s|
  {
    if InRange(s, 0, 0x00, 0x7F) then 1
    else if InRange(s, 0, 0xC2, 0xDF) && InRange(s, 1, 0x80, 0xBF) then 2
    else if BeginsThree(s) && InRange(s, 2, 0x80, 0xBF) then 3
    else if BeginsFour(s) && InRange(s, 2, 0x80, 0xBF) && InRange(s, 3, 0x80, 0xBF) then 4
    else 0
  }

  predicate IsUtf8(s: string)
    decreases |s|
  {
    s == [] || (SequenceLength(s) > 0 && IsUtf8(s[SequenceLength(s)..]))
  }

  predicate IsAscii(s: string) {
    forall i :: 0 <= i < |s| ==> s[i] as int < 0x80
  }

  lemma {:induction false} AsciiIsUtf8(s: string)
    requires IsAscii(s)
    ensures IsUtf8(s)
    decreases |s|
  {
    if s != [] {
      assert InRange(s, 0, 0x00, 0x7F);
      AsciiIsUtf8(s[1..]);
    }
  }

  // ----- lossy reading -----

  /** The replacement character U+FFFD, encoded. */
  const REPLACEMENT: string := [0xEF as char, 0xBF as char, 0xBD as char]

  /** Where no sequence begins: the bytes that go as far as one could, at least one byte. */
  function MalformedLength(s: string): (n: nat)
    requires s != []
    ensures 0 < n <= |s|
  {
    if BeginsFour(s) && InRange(s, 2, 0x80, 0xBF) then 3 else if BeginsThree(s) || BeginsFour(s) then 2 else 1
  }

  /** Well-formed sequences are kept, and each malformed one is replaced. */
  function Lossy(s: string): string
    decreases |s|
  {
    if s == [] then []
    else if SequenceLength(s) > 0 then s[..SequenceLength(s)] + Lossy(s[SequenceLength(s)..])
    else REPLACEMENT + Lossy(s[MalformedLength(s)..])
  }

  lemma SequenceOfPrefix(x: string, y: string)
    requires SequenceLength(x) > 0
    ensures SequenceLength(x + y) == SequenceLength(x)
  {
    assert forall i, low, high :: InRange(x, i, low, high) ==> InRange(x + y, i, low, high);
    assert forall i: nat, low, high :: i < |x| && InRange(x + y, i, low, high) ==> InRange(x, i, low, high);
  }

  lemma FirstSequence(s: string)
    requires s != [] && IsUtf8(s)
    ensures SequenceLength(s) > 0 && IsUtf8(s[SequenceLength(s)..])
  {
    hide SequenceLength;
  }

  lemma SequenceThen(s: string)
    requires SequenceLength(s) > 0 && IsUtf8(s[SequenceLength(s)..])
    ensures IsUtf8(s)
  {
    hide SequenceLength;
  }

  lemma {:induction false} Utf8Concat(x: string, y: string)
    requires IsUtf8(x) && IsUtf8(y)
    ensures IsUtf8(x + y)
    decreases |x|
  {
    hide SequenceLength, IsUtf8;
    if x == [] {
      assert x + y == y;
    } else {
      FirstSequence(x);
      var n := SequenceLength(x);
      SequenceOfPrefix(x, y);
      Utf8Concat(x[n..], y);
      assert (x + y)[n..] == x[n..] + y;
      SequenceThen(x + y);
    }
  }

  lemma OneSequence(s: string)
    requires SequenceLength(s) > 0
    ensures IsUtf8(s[..SequenceLength(s)])
  {
    var t := s[..SequenceLength(s)];
    assert SequenceLength(t) == |t|;
    hide SequenceLength;
    assert t[|t|..] == [];
  }

  lemma ReplacementIsUtf8()
    ensures IsUtf8(REPLACEMENT)
  {
    var r := REPLACEMENT;
    assert SequenceLength(r) == 3;
    hide SequenceLength;
    assert r[3..] == [];
  }

  /** Whatever is read lossily comes out well-formed. */
  lemma {:induction false} LossyIsUtf8(s: string)
    ensures IsUtf8(Lossy(s))
    decreases |s|
  {
    hide SequenceLength, MalformedLength, IsUtf8;
    if s == [] {
      EmptyIsUtf8();
    } else if SequenceLength(s) > 0 {
      OneSequence(s);
      LossyIsUtf8(s[SequenceLength(s)..]);
      Utf8Concat(s[..SequenceLength(s)], Lossy(s[SequenceLength(s)..]));
    } else {
      ReplacementIsUtf8();
      LossyIsUtf8(s[MalformedLength(s)..]);
      Utf8Concat(REPLACEMENT, Lossy(s[MalformedLength(s)..]));
    }
  }

  lemma EmptyIsUtf8()
    ensures IsUtf8([])
  {
  }

  lemma {:induction false} LossyOfUtf8(s: string)
    requires IsUtf8(s)
    ensures Lossy(s) == s
    decreases |s|
  {
    hide SequenceLength, MalformedLength;
    if s != [] {
      LossyOfUtf8(s[SequenceLength(s)..]);
    }
  }

  /** A lossy reading changes nothing exactly when the bytes are well-formed. */
  lemma LossyIsExact(s: string)
    ensures Lossy(s) == s <==> IsUtf8(s)
  {
    LossyIsUtf8(s);
    hide Lossy, IsUtf8;
    if IsUtf8(s) {
      LossyOfUtf8(s);
    }
  }

  function Replacements(k: nat): string {
    if k == 0 then [] else REPLACEMENT + Replacements(k - 1)
  }

  predicate Continues(s: string, k: nat) {
    forall i: nat :: i < k ==> InRange(s, i, 0x80, 0xBF)
  }

  lemma ContinuationsOfSequence(s: string, i: nat)
    requires 0 < i < SequenceLength(s)
    ensures SequenceLength(s) <= 4 && Continues(s[i..], SequenceLength(s) - i)
  {
    var n := SequenceLength(s);
    assert forall k: nat :: 1 <= k < n ==> InRange(s, k, 0x80, 0xBF);
    hide SequenceLength;
    forall j: nat | j < n - i
      ensures InRange(s[i..], j, 0x80, 0xBF)
    {
      assert InRange(s, i + j, 0x80, 0xBF);
    }
  }

  lemma NoContinuations(s: string)
    ensures Continues(s, 0)
  {
  }

  lemma ContinuationIsMalformed(s: string)
    requires InRange(s, 0, 0x80, 0xBF)
    ensures Lossy(s) == REPLACEMENT + Lossy(s[1..])
  {
    assert SequenceLength(s) == 0 && MalformedLength(s) == 1;
    hide SequenceLength, MalformedLength;
  }

  lemma {:induction false} LossyOfContinuations(s: string, k: nat)
    requires k <= |s| && Continues(s, k) && IsUtf8(s[k..])
    ensures Lossy(s) == Replacements(k) + s[k..]
    decreases k
  {
    hide SequenceLength, MalformedLength, Lossy;
    if k == 0 {
      assert s[0..] == s;
      LossyOfUtf8(s);
    } else {
      assert InRange(s, 0, 0x80, 0xBF);
      ContinuationIsMalformed(s);
      forall i: nat | i < k - 1
        ensures InRange(s[1..], i, 0x80, 0xBF)
      {
        assert InRange(s, i + 1, 0x80, 0xBF);
      }
      assert s[1..][k - 1..] == s[k..];
      LossyOfContinuations(s[1..], k - 1);
      assert REPLACEMENT + (Replacements(k - 1) + s[k..]) == REPLACEMENT + Replacements(k - 1) + s[k..];
    }
  }

  /** Cut anywhere, well-formed bytes lose at most one character: its remaining bytes, three at most,
      are replaced one by one, and all after them is kept. */
  lemma {:induction false} LossyOfSuffix(s: string, cut: nat) returns (k: nat)
    requires IsUtf8(s) && cut <= |s|
    ensures k <= 3 && cut + k <= |s| && IsUtf8(s[cut + k..])
    ensures Lossy(s[cut..]) == Replacements(k) + s[cut + k..]
    decreases |s|
  {
    hide SequenceLength, Lossy, Replacements, IsUtf8, Continues;
    if cut == 0 {
      k := 0;
      assert s[0..] == s;
      NoContinuations(s);
      LossyOfContinuations(s, 0);
    } else {
      FirstSequence(s);
      var n := SequenceLength(s);
      if cut < n {
        k := n - cut;
        ContinuationsOfSequence(s, cut);
        assert s[cut..][k..] == s[n..];
        LossyOfContinuations(s[cut..], k);
      } else {
        k := LossyOfSuffix(s[n..], cut - n);
        assert s[n..][cut - n..] == s[cut..] && s[n..][cut - n + k..] == s[cut + k..];
      }
    }
  }

  // ----- what well-formed bytes stand for -----

  /** A Unicode scalar value: a code point that is no surrogate. */
  predicate IsScalar(cp: nat) {
    cp < 0xD800 || 0xE000 <= cp < 0x11_0000
  }

  /** A scalar value in one to four bytes, six bits in each but the first (section 3 of RFC 3629). */
  function Encoded(cp: nat): string
    requires IsScalar(cp)
  {
    if cp < 0x80 then [cp as char]
    else if cp < 0x800 then [(0xC0 + cp / 0x40) as char, (0x80 + cp % 0x40) as char]
    else if cp < 0x1_0000 then
      [(0xE0 + cp / 0x1000) as char, (0x80 + cp / 0x40 % 0x40) as char, (0x80 + cp % 0x40) as char]
    else
      [(0xF0 + cp / 0x4_0000) as char, (0x80 + cp / 0x1000 % 0x40) as char, (0x80 + cp / 0x40 % 0x40) as char,
       (0x80 + cp % 0x40) as char]
  }

  predicate AllScalars(cps: seq<nat>) {
    forall i :: 0 <= i < |cps| ==> IsScalar(cps[i])
  }

  function EncodedAll(cps: seq<nat>): string
    requires AllScalars(cps)
  {
    if cps == [] then [] else assert IsScalar(cps[0]); Encoded(cps[0]) + EncodedAll(cps[1..])
  }

  lemma SixBits(cp: nat)
    ensures cp == 0x40 * (cp / 0x40) + cp % 0x40 && 0 <= cp % 0x40 < 0x40
    ensures cp / 0x1000 == cp / 0x40 / 0x40 && cp / 0x4_0000 == cp / 0x40 / 0x40 / 0x40
  {
  }

  lemma EncodedIsSequence(cp: nat)
    requires IsScalar(cp)
    ensures SequenceLength(Encoded(cp)) == |Encoded(cp)|
  {
    var s := Encoded(cp);
    SixBits(cp);
    SixBits(cp / 0x40);
    SixBits(cp / 0x40 / 0x40);
  }

  /** A well-formed sequence stands for one scalar value, in its shortest form. */
  lemma SequenceIsEncoded(s: string) returns (cp: nat)
    requires SequenceLength(s) > 0
    ensures IsScalar(cp) && s[..SequenceLength(s)] == Encoded(cp)
  {
    var n := SequenceLength(s);
    var t := s[..n];
    if n == 1 {
      cp := s[0] as int;
    } else if n == 2 {
      cp := ScalarOfTwo(s[0] as int, s[1] as int);
    } else if n == 3 {
      cp := ScalarOfThree(s[0] as int, s[1] as int, s[2] as int);
    } else {
      cp := ScalarOfFour(s[0] as int, s[1] as int, s[2] as int, s[3] as int);
    }
    assert |t| == |Encoded(cp)|;
  }

  lemma ScalarOfTwo(b: int, c: int) returns (cp: nat)
    requires 0xC2 <= b <= 0xDF && 0x80 <= c <= 0xBF
    ensures IsScalar(cp) && Encoded(cp) == [b as char, c as char]
  {
    cp := 0x40 * (b - 0xC0) + (c - 0x80);
    SixBits(cp);
  }

  lemma ScalarOfThree(b: int, c: int, d: int) returns (cp: nat)
    requires 0xE0 <= b <= 0xEF && 0x80 <= c <= 0xBF && 0x80 <= d <= 0xBF
    requires (b == 0xE0 ==> c >= 0xA0) && (b == 0xED ==> c <= 0x9F)
    ensures IsScalar(cp) && Encoded(cp) == [b as char, c as char, d as char]
  {
    cp := 0x40 * (0x40 * (b - 0xE0) + (c - 0x80)) + (d - 0x80);
    SixBits(cp);
    SixBits(cp / 0x40);
    assert cp / 0x40 == 0x40 * (b - 0xE0) + (c - 0x80);
  }

  lemma ScalarOfFour(b: int, c: int, d: int, e: int) returns (cp: nat)
    requires 0xF0 <= b <= 0xF4 && 0x80 <= c <= 0xBF && 0x80 <= d <= 0xBF && 0x80 <= e <= 0xBF
    requires (b == 0xF0 ==> c >= 0x90) && (b == 0xF4 ==> c <= 0x8F)
    ensures IsScalar(cp) && Encoded(cp) == [b as char, c as char, d as char, e as char]
  {
    cp := 0x40 * (0x40 * (0x40 * (b - 0xF0) + (c - 0x80)) + (d - 0x80)) + (e - 0x80);
    SixBits(cp);
    SixBits(cp / 0x40);
    SixBits(cp / 0x40 / 0x40);
    assert cp / 0x40 == 0x40 * (0x40 * (b - 0xF0) + (c - 0x80)) + (d - 0x80);
    assert cp / 0x40 / 0x40 == 0x40 * (b - 0xF0) + (c - 0x80);
  }

  lemma {:induction false} EncodedIsUtf8(cps: seq<nat>)
    requires AllScalars(cps)
    ensures IsUtf8(EncodedAll(cps))
    decreases |cps|
  {
    if cps != [] {
      assert IsScalar(cps[0]);
      var first := Encoded(cps[0]);
      EncodedIsSequence(cps[0]);
      OneSequence(first);
      assert first[..|first|] == first;
      hide SequenceLength, IsUtf8, Encoded;
      EncodedIsUtf8(cps[1..]);
      Utf8Concat(first, EncodedAll(cps[1..]));
    }
  }

  lemma {:induction false} ScalarsOf(s: string) returns (cps: seq<nat>)
    requires IsUtf8(s)
    ensures AllScalars(cps) && EncodedAll(cps) == s
    decreases |s|
  {
    hide SequenceLength, IsUtf8, Encoded, IsScalar;
    if s == [] {
      cps := [];
    } else {
      FirstSequence(s);
      var n := SequenceLength(s);
      var cp := SequenceIsEncoded(s);
      cps := ScalarsOf(s[n..]);
      assert ([cp] + cps)[1..] == cps && s == s[..n] + s[n..];
      cps := [cp] + cps;
    }
  }

  /** Bytes are well-formed exactly if they spell some sequence of scalar values. */
  lemma WellFormedIsEncoded(s: string)
    ensures IsUtf8(s) <==> exists cps :: AllScalars(cps) && EncodedAll(cps) == s
  {
    hide IsUtf8, IsScalar, EncodedAll;
    if IsUtf8(s) {
      var cps := ScalarsOf(s);
      assert AllScalars(cps) && EncodedAll(cps) == s;
    }
    if cps :| AllScalars(cps) && EncodedAll(cps) == s {
      EncodedIsUtf8(cps);
    }
  }

  lemma {:induction false} LossyAfter(x: string, y: string)
    requires IsUtf8(x)
    ensures Lossy(x + y) == x + Lossy(y)
    decreases |x|
  {
    hide SequenceLength, IsUtf8, Lossy;
    if x == [] {
      assert x + y == y;
    } else {
      FirstSequence(x);
      var n := SequenceLength(x);
      SequenceOfPrefix(x, y);
      LossyAfter(x[n..], y);
      LossyKeeps(x + y, n);
      assert (x + y)[n..] == x[n..] + y && (x + y)[..n] == x[..n];
      assert x == x[..n] + x[n..];
      assert x[..n] + (x[n..] + Lossy(y)) == x[..n] + x[n..] + Lossy(y);
    }
  }

  lemma LossyKeeps(s: string, n: nat)
    requires s != [] && n == SequenceLength(s) > 0
    ensures Lossy(s) == s[..n] + Lossy(s[n..])
  {
    hide SequenceLength;
  }

  /** Text that breaks off inside a character is read up to it, and one replacement stands for what there is
      of that character. */
  lemma LossyOfCut(x: string, cp: nat, n: nat)
    requires IsUtf8(x) && IsScalar(cp) && 0 < n < |Encoded(cp)|
    ensures Lossy(x + Encoded(cp)[..n]) == x + [0xEF as char, 0xBF as char, 0xBD as char]
  {
    var part := Encoded(cp)[..n];
    LossyAfter(x, part);
    PartOfSequence(Encoded(cp), n, cp);
    hide IsUtf8, Encoded, SequenceLength, MalformedLength;
    assert part[|part|..] == [] && Lossy([]) == [];
  }

  lemma PartOfSequence(s: string, n: nat, cp: nat)
    requires IsScalar(cp) && s == Encoded(cp) && 0 < n < |s|
    ensures SequenceLength(s[..n]) == 0 && MalformedLength(s[..n]) == n
  {
    EncodedIsSequence(cp);
    hide Encoded;
    var part := s[..n];
    assert forall i: nat, low, high :: i < n ==> InRange(part, i, low, high) == InRange(s, i, low, high);
  }
}
