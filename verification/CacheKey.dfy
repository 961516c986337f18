/** The key of the capture cache: a digest of length-prefixed fields, and when two keys are fed the same bytes. */
module CacheKey {
  import opened Wrappers

  // ----- a field: its length in eight bytes, then its bytes (one `char` a byte) -----

  const LENGTH_BYTES: nat := 8

  function Pow256(k: nat): (p: nat)
    ensures p > 0
  {
    if k == 0 then 1 else 256 * Pow256(k - 1)
  }

  /** The bytes of `n`, least significant first. */
  function LittleEndian(n: nat, k: nat): (bytes: string)
    ensures |bytes| == k
  {
    if k == 0 then [] else [(n % 256) as char] + LittleEndian(n / 256, k - 1)
  }

  function FromLittleEndian(bytes: string): nat {
    if bytes == [] then 0 else bytes[0] as nat + 256 * FromLittleEndian(bytes[1..])
  }

  lemma {:induction false} LittleEndianRoundTrip(n: nat, k: nat)
    requires n < Pow256(k)
    ensures FromLittleEndian(LittleEndian(n, k)) == n
    decreases k
  {
    if k > 0 {
      assert n / 256 < Pow256(k - 1);
      LittleEndianRoundTrip(n / 256, k - 1);
      assert LittleEndian(n, k)[1..] == LittleEndian(n / 256, k - 1);
    }
  }

  /** A length that fits the machine's 64 bits. */
  predicate Fits(s: string) {
    |s| < Pow256(LENGTH_BYTES)
  }

  function Field(s: string): string {
    LittleEndian(|s|, LENGTH_BYTES) + s
  }

  function Encode(fields: seq<string>): string {
    if fields == [] then [] else Field(fields[0]) + Encode(fields[1..])
  }

  /** A reader of what was fed: fields until the bytes end. */
  function Decode(bytes: string): Option<seq<string>>
    decreases |bytes|
  {
    if bytes == [] then Some([])
    else if |bytes| < LENGTH_BYTES then None
    else
      var n := LENGTH_BYTES + FromLittleEndian(bytes[..LENGTH_BYTES]);
      if |bytes| < n then None
      else
        match Decode(bytes[n..])
        case None => None
        case Some(more) => Some([bytes[LENGTH_BYTES..n]] + more)
  }

  /** The fields are recovered from the bytes, so no two lists of fields feed the same bytes. */
  lemma {:induction false} DecodeEncode(fields: seq<string>)
    requires forall i :: 0 <= i < |fields| ==> Fits(fields[i])
    ensures Decode(Encode(fields)) == Some(fields)
    decreases |fields|
  {
    hide Pow256, LittleEndian, FromLittleEndian;
    if fields != [] {
      var s, rest := fields[0], Encode(fields[1..]);
      var bytes := Field(s) + rest;
      assert Fits(s);
      LittleEndianRoundTrip(|s|, LENGTH_BYTES);
      assert bytes[..LENGTH_BYTES] == LittleEndian(|s|, LENGTH_BYTES);
      assert bytes[LENGTH_BYTES..LENGTH_BYTES + |s|] == s && bytes[LENGTH_BYTES + |s|..] == rest;
      DecodeEncode(fields[1..]);
      assert [s] + fields[1..] == fields;
    }
  }

  // ----- the key -----

  datatype ChangeType = Add | Edit | Delete | Move

  function ChangeText(c: ChangeType): string {
    match c case Add => "add" case Edit => "edit" case Delete => "delete" case Move => "move"
  }

  datatype KeyParts = KeyParts(
    identity: string, vcs: string, workingRoot: string, changeType: ChangeType, source: string,
    movedFrom: Option<string>, baseDigest: Option<string>, modifiedDigest: Option<string>)

  const SCHEMA: string := "cross-review/capture-cache/v1"
  const NO_MOVE: string := "\0none"
  const NO_SIDE: string := "\0absent"

  function UnwrapOr(o: Option<string>, absent: string): string {
    match o case None => absent case Some(s) => s
  }

  function FieldsOf(p: KeyParts): seq<string> {
    [SCHEMA, p.identity, p.vcs, p.workingRoot, ChangeText(p.changeType), p.source,
     UnwrapOr(p.movedFrom, NO_MOVE), UnwrapOr(p.baseDigest, NO_SIDE), UnwrapOr(p.modifiedDigest, NO_SIDE)]
  }

  predicate PartsFit(p: KeyParts) {
    forall i :: 0 <= i < |FieldsOf(p)| ==> Fits(FieldsOf(p)[i])
  }

  /** The parts as the key sees them: a text that spells absence is absence. */
  function Seen(p: KeyParts): KeyParts {
    p.(movedFrom := SeenOption(p.movedFrom, NO_MOVE),
       baseDigest := SeenOption(p.baseDigest, NO_SIDE),
       modifiedDigest := SeenOption(p.modifiedDigest, NO_SIDE))
  }

  function SeenOption(o: Option<string>, absent: string): Option<string> {
    if o == Some(absent) then None else o
  }

  lemma SeenOptionExact(a: Option<string>, b: Option<string>, absent: string)
    ensures UnwrapOr(a, absent) == UnwrapOr(b, absent) <==> SeenOption(a, absent) == SeenOption(b, absent)
  {
  }

  lemma ChangeTextInjective(c: ChangeType, d: ChangeType)
    ensures ChangeText(c) == ChangeText(d) <==> c == d
  {
    assert |"add"| == 3 && |"edit"| == 4 && |"delete"| == 6 && |"move"| == 4 && "edit"[0] != "move"[0];
  }

  /** Two keys are fed the same bytes exactly when they see the same parts. */
  lemma SameBytesExactly(p: KeyParts, q: KeyParts)
    requires PartsFit(p) && PartsFit(q)
    ensures Encode(FieldsOf(p)) == Encode(FieldsOf(q)) <==> Seen(p) == Seen(q)
  {
    hide Encode, Decode, ChangeText, UnwrapOr, SeenOption, Fits;
    DecodeEncode(FieldsOf(p));
    DecodeEncode(FieldsOf(q));
    ChangeTextInjective(p.changeType, q.changeType);
    SeenOptionExact(p.movedFrom, q.movedFrom, NO_MOVE);
    SeenOptionExact(p.baseDigest, q.baseDigest, NO_SIDE);
    SeenOptionExact(p.modifiedDigest, q.modifiedDigest, NO_SIDE);
    FieldsEqual(p, q);
  }

  lemma FieldsEqual(p: KeyParts, q: KeyParts)
    ensures FieldsOf(p) == FieldsOf(q) <==>
      && p.identity == q.identity && p.vcs == q.vcs && p.workingRoot == q.workingRoot
      && ChangeText(p.changeType) == ChangeText(q.changeType) && p.source == q.source
      && UnwrapOr(p.movedFrom, NO_MOVE) == UnwrapOr(q.movedFrom, NO_MOVE)
      && UnwrapOr(p.baseDigest, NO_SIDE) == UnwrapOr(q.baseDigest, NO_SIDE)
      && UnwrapOr(p.modifiedDigest, NO_SIDE) == UnwrapOr(q.modifiedDigest, NO_SIDE)
  {
    hide ChangeText, UnwrapOr;
    var x, y := FieldsOf(p), FieldsOf(q);
    if x == y {
      assert forall i :: 0 <= i < 9 ==> x[i] == y[i];
      assert x[1] == p.identity && x[2] == p.vcs && x[3] == p.workingRoot && x[5] == p.source;
    }
  }

  predicate NoNul(o: Option<string>) {
    o.Some? ==> '\0' !in o.value
  }

  predicate PartsNoNul(p: KeyParts) {
    NoNul(p.movedFrom) && NoNul(p.baseDigest) && NoNul(p.modifiedDigest)
  }

  lemma NoNulSeen(o: Option<string>, absent: string)
    requires NoNul(o) && absent != [] && absent[0] == '\0'
    ensures SeenOption(o, absent) == o
  {
    assert absent[0] in absent;
  }

  /** Paths and digests hold no NUL, and then the bytes determine every part. */
  lemma KeyIsInjective(p: KeyParts, q: KeyParts)
    requires PartsFit(p) && PartsFit(q) && PartsNoNul(p) && PartsNoNul(q)
    ensures Encode(FieldsOf(p)) == Encode(FieldsOf(q)) <==> p == q
  {
    hide Encode, FieldsOf, PartsFit, SeenOption, NoNul;
    SameBytesExactly(p, q);
    NoNulSeen(p.movedFrom, NO_MOVE);
    NoNulSeen(q.movedFrom, NO_MOVE);
    NoNulSeen(p.baseDigest, NO_SIDE);
    NoNulSeen(q.baseDigest, NO_SIDE);
    NoNulSeen(p.modifiedDigest, NO_SIDE);
    NoNulSeen(q.modifiedDigest, NO_SIDE);
  }

  /** Without that, absence and the text that spells it share a key. */
  lemma AbsenceCanBeSpelled(p: KeyParts)
    ensures var q := p.(movedFrom := None);
            var r := p.(movedFrom := Some(NO_MOVE));
            q != r && Encode(FieldsOf(q)) == Encode(FieldsOf(r))
  {
    hide Encode;
    assert FieldsOf(p.(movedFrom := None)) == FieldsOf(p.(movedFrom := Some(NO_MOVE)));
  }

  // ----- feeding the digest -----

  lemma {:induction false} EncodeSnoc(fields: seq<string>, s: string)
    ensures Encode(fields + [s]) == Encode(fields) + Field(s)
    decreases |fields|
  {
    hide Field;
    if fields == [] {
      assert [s][1..] == [] && fields + [s] == [s];
    } else {
      assert (fields + [s])[1..] == fields[1..] + [s];
      EncodeSnoc(fields[1..], s);
    }
  }

  class DigestStream {
    var taken: string
    ghost var fields: seq<string>

    ghost predicate Valid()
      reads this
    {
      taken == Encode(fields)
    }

    constructor ()
      ensures Valid() && fields == []
    {
      taken, fields := [], [];
    }

    method AddField(bytes: string)
      requires Valid()
      modifies this
      ensures Valid() && fields == old(fields) + [bytes]
    {
      hide LittleEndian, Encode;
      taken := taken + LittleEndian(|bytes|, LENGTH_BYTES);
      taken := taken + bytes;
      EncodeSnoc(fields, bytes);
      fields := fields + [bytes];
      assert taken == old(taken) + Field(bytes);
    }

    method Finish(digest: string -> Option<string>) returns (r: Option<string>)
      requires Valid()
      ensures r == digest(Encode(fields))
    {
      r := digest(taken);
    }
  }

  /** The digest is fed the parts' fields in their order, and nothing else. */
  method Key(digest: string -> Option<string>, p: KeyParts) returns (r: Option<string>)
    ensures r == digest(Encode(FieldsOf(p)))
  {
    hide Encode, Field, ChangeText, UnwrapOr, DigestStream.Valid;
    var h := new DigestStream();
    h.AddField(SCHEMA);
    h.AddField(p.identity);
    h.AddField(p.vcs);
    h.AddField(p.workingRoot);
    h.AddField(ChangeText(p.changeType));
    h.AddField(p.source);
    h.AddField(UnwrapOr(p.movedFrom, NO_MOVE));
    h.AddField(UnwrapOr(p.baseDigest, NO_SIDE));
    h.AddField(UnwrapOr(p.modifiedDigest, NO_SIDE));
    assert h.fields == FieldsOf(p);
    r := h.Finish(digest);
  }

  /** Eight bytes stand before each field, and every length below 2^64 fits them. */
  lemma EightBytesOfLength(s: string)
    ensures |Field(s)| == 8 + |s| && Field(s)[8..] == s
    ensures |s| < 0x1_0000_0000_0000_0000 ==> Fits(s) && FromLittleEndian(Field(s)[..8]) == |s|
  {
    PowersOf256();
    hide Pow256, LittleEndian, FromLittleEndian;
    if Fits(s) {
      LittleEndianRoundTrip(|s|, LENGTH_BYTES);
      assert Field(s)[..8] == LittleEndian(|s|, 8);
    }
  }

  lemma PowersOf256()
    ensures Pow256(8) == 0x1_0000_0000_0000_0000
  {
    assert Pow256(4) == 0x1_0000_0000;
  }

  /** No key is fed what anything else of another schema, or of none, is fed. */
  lemma SchemaSeparates(p: KeyParts, other: seq<string>)
    requires PartsFit(p) && forall i :: 0 <= i < |other| ==> Fits(other[i])
    requires other == [] || other[0] != "cross-review/capture-cache/v1"
    ensures Encode(FieldsOf(p)) != Encode(other)
  {
    DecodeEncode(FieldsOf(p));
    DecodeEncode(other);
    hide Encode, Decode, ChangeText, UnwrapOr, Fits;
    assert FieldsOf(p)[0] == SCHEMA;
  }
}
