/** The glob matcher: nested choice against a declarative reading of patterns. */
module Glob {

  datatype Token = Literal(c: char) | One | Run | DeepRun

  /** A pattern as tokens: `**` with an optional `/` after it, `*`, `?`, or a literal. */
  function Tokens(p: string): (tokens: seq<Token>)
    ensures |tokens| <= |p|
    decreases |p|
  {
    if p == [] then []
    else if |p| >= 2 && p[0] == '*' && p[1] == '*' then
      [DeepRun] + Tokens(if |p| >= 3 && p[2] == '/' then p[3..] else p[2..])
    else [if p[0] == '*' then Run else if p[0] == '?' then One else Literal(p[0])] + Tokens(p[1..])
  }

  /** What one token may stand for. */
  predicate Fits(token: Token, piece: string) {
    match token
    case Literal(c) => piece == [c]
    case One => |piece| == 1 && piece[0] != '/'
    case Run => '/' !in piece
    case DeepRun => true
  }

  function Concat(pieces: seq<string>): string {
    if pieces == [] then [] else pieces[0] + Concat(pieces[1..])
  }

  /** `s` can be cut into pieces, one a token, that fit their tokens. */
  ghost predicate Cut(tokens: seq<Token>, pieces: seq<string>, s: string) {
    |pieces| == |tokens| && Concat(pieces) == s && forall i :: 0 <= i < |tokens| ==> Fits(tokens[i], pieces[i])
  }

  ghost predicate Matches(p: string, s: string) {
    MatchesTokens(Tokens(p), s)
  }

  lemma CutCons(token: Token, tokens: seq<Token>, piece: string, pieces: seq<string>, s: string)
    requires Fits(token, piece) && Cut(tokens, pieces, s)
    ensures Cut([token] + tokens, [piece] + pieces, piece + s)
  {
    assert ([piece] + pieces)[1..] == pieces;
  }

  lemma CutUncons(token: Token, tokens: seq<Token>, pieces: seq<string>, s: string)
    requires Cut([token] + tokens, pieces, s)
    ensures pieces != [] && Fits(token, pieces[0]) && pieces[0] <= s
    ensures Cut(tokens, pieces[1..], s[|pieces[0]|..])
  {
    var all := [token] + tokens;
    assert all[0] == token;
    forall i | 0 <= i < |tokens|
      ensures Fits(tokens[i], pieces[1..][i])
    {
      assert all[i + 1] == tokens[i];
    }
  }

  /** The first token takes a prefix and the rest matches what is left. */
  ghost predicate Splits(token: Token, rest: string, s: string, i: nat) {
    i <= |s| && Fits(token, s[..i]) && Matches(rest, s[i..])
  }

  ghost predicate MatchesTokens(tokens: seq<Token>, s: string) {
    exists pieces :: Cut(tokens, pieces, s)
  }

  lemma MatchesSplits(token: Token, rest: string, s: string)
    ensures MatchesTokens([token] + Tokens(rest), s) <==> exists i: nat :: Splits(token, rest, s, i)
  {
    var tokens := [token] + Tokens(rest);
    if MatchesTokens(tokens, s) {
      var pieces :| Cut(tokens, pieces, s);
      CutUncons(token, Tokens(rest), pieces, s);
      assert s[..|pieces[0]|] == pieces[0];
      assert Splits(token, rest, s, |pieces[0]|);
    }
    if exists i: nat :: Splits(token, rest, s, i) {
      var i: nat :| Splits(token, rest, s, i);
      var pieces := SplitGivesCut(token, rest, s, i);
      assert Cut(tokens, pieces, s);
    }
  }

  lemma SplitGivesCut(token: Token, rest: string, s: string, i: nat) returns (pieces: seq<string>)
    requires Splits(token, rest, s, i)
    ensures Cut([token] + Tokens(rest), pieces, s)
  {
    var tail :| Cut(Tokens(rest), tail, s[i..]);
    CutCons(token, Tokens(rest), s[..i], tail, s[i..]);
    assert s[..i] + s[i..] == s;
    pieces := [s[..i]] + tail;
  }

  /** The recursive matcher: it recurses on the pattern. */
  method GlobAt(p: string, s: string) returns (matched: bool)
    ensures matched <==> Matches(p, s)
    decreases |p|, 0
  {
    if p == [] {
      EmptyPattern(s);
      return s == [];
    }
    hide Matches, Splits;
    if |p| >= 2 && p[0] == '*' && p[1] == '*' {
      var rest := if |p| >= 3 && p[2] == '/' then p[3..] else p[2..];
      FirstToken(p, DeepRun, rest, s);
      matched := ResumeAnywhere(rest, s);
    } else if p[0] == '*' {
      FirstToken(p, Run, p[1..], s);
      matched := ResumeInComponent(p[1..], s);
    } else {
      var token := if p[0] == '?' then One else Literal(p[0]);
      FirstToken(p, token, p[1..], s);
      OneCharacter(token, p[1..], s);
      if s == [] || !(if p[0] == '?' then s[0] != '/' else s[0] == p[0]) {
        return false;
      }
      matched := GlobAt(p[1..], s[1..]);
    }
  }

  /** After `**`: the rest may match from anywhere. */
  method ResumeAnywhere(rest: string, s: string) returns (matched: bool)
    ensures matched <==> exists i: nat :: Splits(DeepRun, rest, s, i)
    decreases |rest|, 1
  {
    hide Matches;
    for i := 0 to |s| + 1
      invariant forall j: nat :: j < i ==> !Splits(DeepRun, rest, s, j)
    {
      var here := GlobAt(rest, s[i..]);
      if here {
        assert Splits(DeepRun, rest, s, i);
        return true;
      }
    }
    return false;
  }

  /** After `*`: the rest may match from anywhere up to the next separator. */
  method ResumeInComponent(rest: string, s: string) returns (matched: bool)
    ensures matched <==> exists i: nat :: Splits(Run, rest, s, i)
    decreases |rest|, 1
  {
    hide Matches;
    var i := 0;
    while true
      invariant 0 <= i <= |s| && '/' !in s[..i]
      invariant forall j: nat :: j < i ==> !Splits(Run, rest, s, j)
      decreases |s| - i
    {
      var here := GlobAt(rest, s[i..]);
      if here {
        assert Splits(Run, rest, s, i);
        return true;
      }
      if i == |s| || s[i] == '/' {
        RunEnds(rest, s, i);
        return false;
      }
      assert s[..i + 1] == s[..i] + [s[i]];
      i := i + 1;
    }
  }

  lemma EmptyPattern(s: string)
    ensures Matches([], s) <==> s == []
  {
    var none: seq<string> := [];
    if s == [] {
      assert Cut(Tokens([]), none, s);
    }
  }

  lemma FirstToken(p: string, token: Token, rest: string, s: string)
    requires Tokens(p) == [token] + Tokens(rest)
    ensures Matches(p, s) <==> exists i: nat :: Splits(token, rest, s, i)
  {
    MatchesSplits(token, rest, s);
  }

  lemma RunEnds(rest: string, s: string, i: nat)
    requires i <= |s| && (i == |s| || s[i] == '/')
    requires forall j: nat :: j <= i ==> !Splits(Run, rest, s, j)
    ensures forall j: nat :: !Splits(Run, rest, s, j)
  {
    hide Matches;
    forall j: nat
      ensures !Splits(Run, rest, s, j)
    {
      if i < j <= |s| {
        assert s[..j][i] == '/';
      }
    }
  }

  lemma OneCharacter(token: Token, rest: string, s: string)
    requires token.One? || token.Literal?
    ensures (exists i: nat :: Splits(token, rest, s, i)) <==>
      s != [] && Fits(token, [s[0]]) && Matches(rest, s[1..])
  {
    hide Matches;
    if i: nat :| Splits(token, rest, s, i) {
      assert |s[..i]| == 1;
      assert s[..i] == [s[0]];
    }
    if s != [] && Fits(token, [s[0]]) && Matches(rest, s[1..]) {
      assert s[..1] == [s[0]];
      assert Splits(token, rest, s, 1);
    }
  }

  function Slashes(s: string): nat {
    if s == [] then 0 else (if s[0] == '/' then 1 else 0) + Slashes(s[1..])
  }

  lemma {:induction false} SlashesConcat(s: string, t: string)
    ensures Slashes(s + t) == Slashes(s) + Slashes(t)
    decreases |s|
  {
    if s == [] {
      assert s + t == t;
    } else {
      assert (s + t)[1..] == s[1..] + t;
      SlashesConcat(s[1..], t);
    }
  }

  lemma {:induction false} NoSlashes(s: string)
    requires '/' !in s
    ensures Slashes(s) == 0
    decreases |s|
  {
    if s != [] {
      NoSlashes(s[1..]);
    }
  }

  predicate HasDeepRun(p: string) {
    exists i :: 0 <= i < |p| - 1 && p[i] == '*' && p[i + 1] == '*'
  }

  /** Without `**` a pattern matches only paths with as many separators as it has itself. */
  lemma {:induction false} SameDepth(p: string, s: string)
    requires Matches(p, s) && !HasDeepRun(p)
    ensures Slashes(s) == Slashes(p)
    decreases |p|
  {
    if p == [] {
      EmptyPattern(s);
    } else {
      var token := if p[0] == '*' then Run else if p[0] == '?' then One else Literal(p[0]);
      var rest := p[1..];
      NoDeepRun(p);
      FirstToken(p, token, rest, s);
      hide Tokens, Matches, HasDeepRun, Fits, Cut;
      var i: nat :| Splits(token, rest, s, i);
      SameDepth(rest, s[i..]);
      SlashesConcat(s[..i], s[i..]);
      assert s == s[..i] + s[i..];
      PieceDepth(token, s[..i]);
    }
  }

  lemma NoDeepRun(p: string)
    requires p != [] && !HasDeepRun(p)
    ensures !HasDeepRun(p[1..])
    ensures Tokens(p) == [if p[0] == '*' then Run else if p[0] == '?' then One else Literal(p[0])] + Tokens(p[1..])
  {
  }

  lemma PieceDepth(token: Token, piece: string)
    requires !token.DeepRun? && Fits(token, piece)
    ensures Slashes(piece) == if token == Literal('/') then 1 else 0
  {
    if token.Run? {
      NoSlashes(piece);
    } else {
      assert piece[1..] == [];
    }
  }

  // ----- what patterns mean, in their own characters -----

  /** A pattern character that stands for itself. */
  predicate IsPlain(c: char) {
    c != '*' && c != '?'
  }

  predicate AllPlain(p: string) {
    forall i :: 0 <= i < |p| ==> IsPlain(p[i])
  }

  /** Some rest of the path matches. */
  ghost predicate MatchesFrom(rest: string, s: string, i: int) {
    0 <= i <= |s| && Matches(rest, s[i..])
  }

  /** A plain character stands for itself, `?` for one character that is no separator. */
  lemma OneMeans(c: char, rest: string, s: string)
    requires c != '*'
    ensures Matches([c] + rest, s) <==>
      s != [] && (if c == '?' then s[0] != '/' else s[0] == c) && Matches(rest, s[1..])
  {
    var token := if c == '?' then One else Literal(c);
    assert ([c] + rest)[1..] == rest;
    FirstToken([c] + rest, token, rest, s);
    OneCharacter(token, rest, s);
    hide Matches, Splits;
  }

  /** `*` stands for any run without a separator. */
  lemma StarMeans(rest: string, s: string)
    requires rest == [] || rest[0] != '*'
    ensures Matches("*" + rest, s) <==> exists i :: MatchesFrom(rest, s, i) && '/' !in s[..i]
  {
    assert ("*" + rest)[1..] == rest;
    FirstToken("*" + rest, Run, rest, s);
    hide Matches;
    if i: nat :| Splits(Run, rest, s, i) {
      assert MatchesFrom(rest, s, i);
    }
    if i :| MatchesFrom(rest, s, i) && '/' !in s[..i] {
      assert Splits(Run, rest, s, i);
    }
  }

  /** `**` stands for any run of characters, and `**` with a separator after it for the same: the separator
      need not be there. */
  lemma DoubleStarMeans(rest: string, s: string)
    ensures Matches("**/" + rest, s) <==> exists i :: MatchesFrom(rest, s, i)
    ensures rest == [] || rest[0] != '/' ==> (Matches("**" + rest, s) <==> exists i :: MatchesFrom(rest, s, i))
  {
    assert ("**/" + rest)[3..] == rest && ("**" + rest)[2..] == rest;
    FirstToken("**/" + rest, DeepRun, rest, s);
    if rest == [] || rest[0] != '/' {
      FirstToken("**" + rest, DeepRun, rest, s);
    }
    hide Matches;
    if i: nat :| Splits(DeepRun, rest, s, i) {
      assert MatchesFrom(rest, s, i);
    }
    if i :| MatchesFrom(rest, s, i) {
      assert Splits(DeepRun, rest, s, i);
    }
  }

  /** Plain text stands for itself. */
  lemma {:induction false} PlainMeans(text: string, rest: string, s: string)
    requires AllPlain(text)
    ensures Matches(text + rest, s) <==> text <= s && Matches(rest, s[|text|..])
    decreases |text|
  {
    hide Matches;
    if text == [] {
      assert text + rest == rest && s[0..] == s;
    } else {
      var more := text[1..];
      assert text + rest == [text[0]] + (more + rest);
      OneMeans(text[0], more + rest, s);
      if s != [] {
        PlainMeans(more, rest, s[1..]);
        assert s == [s[0]] + s[1..] && text == [text[0]] + more;
        assert text <= s <==> text[0] == s[0] && more <= s[1..];
        if text <= s {
          assert s[1..][|more|..] == s[|text|..];
        }
      }
    }
  }

  lemma PlainMatchesItself(text: string, s: string)
    requires AllPlain(text)
    ensures Matches(text, s) <==> s == text
  {
    assert text + [] == text;
    PlainMeans(text, [], s);
    hide Matches;
    if text <= s {
      EmptyPattern(s[|text|..]);
    }
  }

  predicate EndsWith(s: string, suffix: string) {
    |suffix| <= |s| && s[|s| - |suffix|..] == suffix
  }

  /** `*.ext` matches exactly the names with that ending, in the pattern's own directory. */
  lemma ExtensionHere(ext: string, s: string)
    requires AllPlain(ext)
    ensures Matches("*" + ext, s) <==> EndsWith(s, ext) && '/' !in s[..|s| - |ext|]
  {
    StarMeans(ext, s);
    hide Matches;
    if i :| MatchesFrom(ext, s, i) && '/' !in s[..i] {
      PlainMatchesItself(ext, s[i..]);
    }
    if EndsWith(s, ext) && '/' !in s[..|s| - |ext|] {
      PlainMatchesItself(ext, s[|s| - |ext|..]);
      assert MatchesFrom(ext, s, |s| - |ext|);
    }
  }

  /** `**` with a separator and `*.ext` matches exactly the paths with that ending, at any depth, the top
      included. */
  lemma ExtensionAnywhere(ext: string, s: string)
    requires AllPlain(ext)
    ensures Matches("**/*" + ext, s) <==> EndsWith(s, ext)
  {
    assert "**/*" + ext == "**/" + ("*" + ext);
    DoubleStarMeans("*" + ext, s);
    hide Matches, AllPlain, EndsWith;
    if i :| MatchesFrom("*" + ext, s, i) {
      ExtensionHere(ext, s[i..]);
      EndOfRest(s, i, ext);
    }
    if EndsWith(s, ext) {
      EndItself(s, ext);
      ExtensionHere(ext, ext);
      assert MatchesFrom("*" + ext, s, |s| - |ext|);
    }
  }

  lemma EndOfRest(s: string, i: nat, suffix: string)
    requires i <= |s| && EndsWith(s[i..], suffix)
    ensures EndsWith(s, suffix)
  {
    assert s[i..][|s| - i - |suffix|..] == s[|s| - |suffix|..];
  }

  lemma EndItself(s: string, suffix: string)
    requires EndsWith(s, suffix)
    ensures |suffix| <= |s| && s[|s| - |suffix|..] == suffix && EndsWith(suffix, suffix) && '/' !in suffix[..0]
  {
    assert suffix[0..] == suffix;
  }

  /** A directory's name, a separator and a double star match exactly the paths below that directory. */
  lemma EverythingBelow(dir: string, s: string)
    requires AllPlain(dir)
    ensures Matches(dir + "/**", s) <==> dir + "/" <= s
  {
    assert dir + "/**" == (dir + "/") + "**" && "**" + [] == "**";
    PlainMeans(dir + "/", "**", s);
    hide Matches;
    if dir + "/" <= s {
      var below := s[|dir| + 1..];
      DoubleStarMeans([], below);
      EmptyPattern(below[|below|..]);
      assert MatchesFrom([], below, |below|);
    }
  }
}
