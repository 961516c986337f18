/** Path identity: normalising two spellings and comparing them without regard to ASCII case is the
    same as comparing the locations they spell. */
module PathIdentity {

  // ----- locations -----

  /** What a path starts from. The drive of a drive root is kept as its letter. */
  datatype Root =
    | Unc
    | DriveAbsolute(letter: char)
    | DriveRelative(letter: char)
    | CurrentDrive
    | NoRoot

  datatype Location = Location(root: Root, components: seq<string>)

  predicate IsSep(c: char) {
    c == '/' || c == '\\'
  }

  predicate IsLetter(c: char) {
    'a' <= c <= 'z' || 'A' <= c <= 'Z'
  }

  /** Length of the longest prefix without a separator. */
  function RunLength(s: string): (n: nat)
    ensures n <= |s| && (n < |s| ==> IsSep(s[n]))
    ensures forall i :: 0 <= i < n ==> !IsSep(s[i])
  {
    if s == [] || IsSep(s[0]) then 0 else RunLength(s[1..]) + 1
  }

  /** The non-empty pieces between separators. */
  function Components(s: string): seq<string>
    decreases |s|
  {
    if s == [] then []
    else if IsSep(s[0]) then Components(s[1..])
    else [s[..RunLength(s)]] + Components(s[RunLength(s)..])
  }

  predicate HasDrive(s: string) {
    |s| >= 2 && IsLetter(s[0]) && s[1] == ':'
  }

  /** The location a path spells. */
  function Locate(s: string): Location {
    if |s| >= 2 && IsSep(s[0]) && IsSep(s[1]) then Location(Unc, Components(s))
    else if HasDrive(s) then
      Location(if |s| >= 3 && IsSep(s[2]) then DriveAbsolute(s[0]) else DriveRelative(s[0]), Components(s[2..]))
    else if |s| >= 1 && IsSep(s[0]) then Location(CurrentDrive, Components(s))
    else Location(NoRoot, Components(s))
  }

  function Join(components: seq<string>): string {
    if components == [] then []
    else if |components| == 1 then components[0]
    else components[0] + "\\" + Join(components[1..])
  }

  function ShowRoot(root: Root): string {
    match root
    case Unc => "\\\\"
    case DriveAbsolute(letter) => [letter] + ":\\"
    case DriveRelative(letter) => [letter] + ":"
    case CurrentDrive => "\\"
    case NoRoot => ""
  }

  /** The canonical spelling of a location. */
  function Show(loc: Location): string {
    ShowRoot(loc.root) + Join(loc.components)
  }

  predicate IsComponent(s: string) {
    s != [] && forall i :: 0 <= i < |s| ==> !IsSep(s[i])
  }

  predicate AllComponents(components: seq<string>) {
    forall i :: 0 <= i < |components| ==> IsComponent(components[i])
  }

  /** A location some path spells. */
  predicate IsLocation(loc: Location) {
    && AllComponents(loc.components)
    && (match loc.root
        case DriveAbsolute(letter) => IsLetter(letter)
        case DriveRelative(letter) => IsLetter(letter)
        case NoRoot => loc.components != [] ==> !HasDrive(loc.components[0])
        case _ => true)
  }

  lemma {:induction false} ComponentsAreComponents(s: string)
    ensures AllComponents(Components(s))
    decreases |s|
  {
    if s != [] {
      if IsSep(s[0]) {
        ComponentsAreComponents(s[1..]);
      } else {
        var n := RunLength(s);
        ComponentsAreComponents(s[n..]);
        assert IsComponent(s[..n]);
        hide RunLength;
      }
    }
  }

  lemma LocateIsLocation(s: string)
    ensures IsLocation(Locate(s))
  {
    hide AllComponents, Components;
    ComponentsAreComponents(s);
    if |s| >= 2 {
      ComponentsAreComponents(s[2..]);
    }
    if s != [] && !IsSep(s[0]) {
      FirstComponent(s);
    }
    if s == [] {
      NoComponents();
    }
  }

  lemma NoComponents()
    ensures Components([]) == []
  {
  }

  lemma FirstComponent(s: string)
    requires s != [] && !IsSep(s[0])
    ensures Components(s) != [] && Components(s)[0] <= s
    ensures HasDrive(Components(s)[0]) ==> HasDrive(s)
  {
  }

  // ----- a canonical spelling spells its location -----

  lemma {:induction false} RunOfComponent(c: string, rest: string)
    requires (forall i :: 0 <= i < |c| ==> !IsSep(c[i])) && (rest != [] ==> IsSep(rest[0]))
    ensures RunLength(c + rest) == |c|
    decreases |c|
  {
    if c == [] {
      assert c + rest == rest;
    } else {
      assert (c + rest)[1..] == c[1..] + rest;
      RunOfComponent(c[1..], rest);
    }
  }

  lemma ComponentsCons(c: string, rest: string)
    requires IsComponent(c) && (rest != [] ==> IsSep(rest[0]))
    ensures Components(c + rest) == [c] + Components(rest)
  {
    RunOfComponent(c, rest);
    hide RunLength;
    assert (c + rest)[..|c|] == c && (c + rest)[|c|..] == rest;
  }

  lemma ComponentsSkip(c: char, rest: string)
    requires IsSep(c)
    ensures Components([c] + rest) == Components(rest)
  {
    assert ([c] + rest)[1..] == rest;
  }

  lemma {:induction false} ComponentsOfJoin(components: seq<string>)
    requires AllComponents(components)
    ensures Components(Join(components)) == components
    decreases |components|
  {
    hide Components;
    if components == [] {
      NoComponents();
    } else {
      var c := components[0];
      assert IsComponent(c);
      if |components| == 1 {
        ComponentsCons(c, []);
        assert c + [] == c;
        NoComponents();
      } else {
        var rest := Join(components[1..]);
        ComponentsOfJoin(components[1..]);
        ComponentsSkip('\\', rest);
        ComponentsCons(c, "\\" + rest);
        assert c + ("\\" + rest) == c + "\\" + rest;
        assert components == [c] + components[1..];
      }
    }
  }

  lemma JoinStart(components: seq<string>)
    requires AllComponents(components)
    ensures components == [] ==> Join(components) == []
    ensures components != [] ==>
      && Join(components) != [] && !IsSep(Join(components)[0])
      && (HasDrive(Join(components)) ==> HasDrive(components[0]))
  {
    if components != [] {
      assert IsComponent(components[0]);
    }
  }

  /** Reading a canonical spelling gives the location back. */
  lemma LocateShow(loc: Location)
    requires IsLocation(loc)
    ensures Locate(Show(loc)) == loc
  {
    hide Components, Join, AllComponents;
    var body := Join(loc.components);
    JoinStart(loc.components);
    ComponentsOfJoin(loc.components);
    ComponentsSkip('\\', body);
    ComponentsSkip('\\', "\\" + body);
    match loc.root
    case Unc =>
      assert Show(loc) == "\\" + ("\\" + body);
    case DriveAbsolute(letter) =>
      assert Show(loc)[2..] == "\\" + body;
    case DriveRelative(letter) =>
      assert Show(loc)[2..] == body;
    case CurrentDrive =>
      assert Show(loc) == "\\" + body;
    case NoRoot =>
      assert Show(loc) == body;
  }

  // ----- normalising -----

  function Backslashed(s: string): (r: string)
    ensures |r| == |s|
    ensures forall i :: 0 <= i < |s| ==> r[i] == (if s[i] == '/' then '\\' else s[i])
  {
    seq(|s|, i requires 0 <= i < |s| => if s[i] == '/' then '\\' else s[i])
  }

  /** No forward slash is left. */
  predicate OneSeparator(s: string) {
    forall i :: 0 <= i < |s| && IsSep(s[i]) ==> s[i] == '\\'
  }

  /** Two paths that differ only in which separators they use. */
  ghost predicate SameUpToSeparators(s: string, t: string) {
    |s| == |t| && forall i :: 0 <= i < |s| ==> s[i] == t[i] || (IsSep(s[i]) && IsSep(t[i]))
  }

  lemma {:induction false} SameRun(s: string, t: string)
    requires SameUpToSeparators(s, t)
    ensures RunLength(s) == RunLength(t) && s[..RunLength(s)] == t[..RunLength(t)]
    decreases |s|
  {
    if s != [] && !IsSep(s[0]) {
      SameRun(s[1..], t[1..]);
      var n := RunLength(s[1..]);
      assert s[..n + 1] == [s[0]] + s[1..][..n] && t[..n + 1] == [t[0]] + t[1..][..n];
    }
  }

  lemma {:induction false} SameComponents(s: string, t: string)
    requires SameUpToSeparators(s, t)
    ensures Components(s) == Components(t)
    decreases |s|
  {
    if s != [] {
      if IsSep(s[0]) {
        SameComponents(s[1..], t[1..]);
      } else {
        SameRun(s, t);
        var n := RunLength(s);
        hide RunLength;
        SameComponents(s[n..], t[n..]);
      }
    }
  }

  /** Which separators a path uses does not matter. */
  lemma LocateBackslashed(s: string)
    ensures Locate(Backslashed(s)) == Locate(s) && OneSeparator(Backslashed(s))
  {
    hide Components;
    SameComponents(s, Backslashed(s));
    if |s| >= 2 {
      SameComponents(s[2..], Backslashed(s)[2..]);
    }
  }

  /** Runs of separators reduced to one; `prev` says whether one came just before. */
  function Collapse(s: string, prev: bool): string
    decreases |s|
  {
    if s == [] then []
    else if IsSep(s[0]) then (if prev then [] else [s[0]]) + Collapse(s[1..], true)
    else [s[0]] + Collapse(s[1..], false)
  }

  lemma RunStep(s: string, prev: bool)
    requires s != [] && !IsSep(s[0])
    ensures Collapse(s, prev) == [s[0]] + Collapse(s[1..], false) && RunLength(s) == RunLength(s[1..]) + 1
  {
  }

  lemma NoRun(s: string)
    requires s == [] || IsSep(s[0])
    ensures RunLength(s) == 0
  {
  }

  lemma {:induction false} CollapseRun(s: string, prev: bool)
    ensures Collapse(s, prev) == s[..RunLength(s)] + Collapse(s[RunLength(s)..], if RunLength(s) == 0 then prev else false)
    decreases |s|
  {
    hide Collapse, RunLength, IsSep;
    if s == [] || IsSep(s[0]) {
      NoRun(s);
      assert s[..0] == [] && s[0..] == s;
    } else {
      RunStep(s, prev);
      CollapseRun(s[1..], false);
      var n := RunLength(s[1..]);
      var rest := Collapse(s[n + 1..], false);
      assert s[1..][n..] == s[n + 1..];
      assert Collapse(s[1..], false) == s[1..][..n] + rest;
      assert s[..n + 1] == [s[0]] + s[1..][..n];
    }
  }

  /** A leading and a trailing separator survive as one each. */
  function Lead(s: string, prev: bool): string {
    if s != [] && IsSep(s[0]) && !prev then "\\" else ""
  }

  function Trail(s: string): string {
    if s != [] && IsSep(s[|s| - 1]) && Components(s) != [] then "\\" else ""
  }

  lemma {:induction false} CollapseShape(s: string, prev: bool)
    requires OneSeparator(s)
    ensures Collapse(s, prev) == Lead(s, prev) + Join(Components(s)) + Trail(s)
    decreases |s|
  {
    if s == [] {
      NoComponents();
    } else if IsSep(s[0]) {
      hide *;
      OneSeparatorInRest(s, 1);
      CollapseShape(s[1..], true);
      ShapeAfterSeparator(s, prev);
    } else {
      hide *;
      var n := RunLength(s);
      OneSeparatorInRest(s, n);
      RunThenRest(s);
      CollapseShape(s[n..], false);
      ShapeAfterRun(s, prev);
    }
  }

  lemma ShapeAfterSeparator(s: string, prev: bool)
    requires OneSeparator(s) && s != [] && IsSep(s[0])
    requires Collapse(s[1..], true) == Lead(s[1..], true) + Join(Components(s[1..])) + Trail(s[1..])
    ensures Collapse(s, prev) == Lead(s, prev) + Join(Components(s)) + Trail(s)
  {
    assert s[0] == '\\';
    hide *;
    SkippedSeparator(s);
    SeparatorFirst(s, prev);
    WithoutLead(Lead(s, prev), Join(Components(s)), Trail(s));
  }

  lemma ShapeAfterRun(s: string, prev: bool)
    requires s != [] && !IsSep(s[0])
    requires
      var rest := s[RunLength(s)..];
      Collapse(rest, false) == Lead(rest, false) + Join(Components(rest)) + Trail(rest)
    ensures Collapse(s, prev) == Lead(s, prev) + Join(Components(s)) + Trail(s)
  {
    hide *;
    var n := RunLength(s);
    var run, rest := s[..n], s[n..];
    CollapseRun(s, prev);
    RunThenRest(s);
    NoLead(s, prev);
    JoinCons(run, Components(rest), Lead(rest, false), Trail(rest), Trail(s));
    NothingBefore(Join(Components(s)), Trail(s));
  }

  lemma NothingBefore(x: string, y: string)
    ensures "" + x + y == x + y
  {
  }

  lemma WithoutLead(first: string, middle: string, last: string)
    ensures first + ("" + middle + last) == first + middle + last
  {
  }

  lemma OneSeparatorInRest(s: string, n: nat)
    requires n <= |s| && OneSeparator(s)
    ensures OneSeparator(s[n..])
  {
  }

  lemma SeparatorFirst(s: string, prev: bool)
    requires s != [] && s[0] == '\\'
    ensures Collapse(s, prev) == Lead(s, prev) + Collapse(s[1..], true) && Lead(s[1..], true) == ""
  {
  }

  lemma SkippedSeparator(s: string)
    requires s != [] && IsSep(s[0])
    ensures Components(s) == Components(s[1..]) && Trail(s[1..]) == Trail(s)
  {
    if |s| > 1 {
      assert s[1..][|s| - 2] == s[|s| - 1];
    }
  }

  lemma NoLead(s: string, prev: bool)
    requires s != [] && !IsSep(s[0])
    ensures Lead(s, prev) == "" && RunLength(s) > 0
  {
  }

  lemma RunThenRest(s: string)
    requires s != [] && !IsSep(s[0])
    ensures
      var n := RunLength(s);
      var rest := s[n..];
      && n > 0 && Components(s) == [s[..n]] + Components(rest)
      && Lead(rest, false) == (if rest == [] then "" else "\\")
      && Trail(s) == (if rest == [] then "" else if Components(rest) == [] then "\\" else Trail(rest))
      && (Components(rest) == [] ==> Trail(rest) == "")
      && (rest == [] ==> Components(rest) == [])
  {
    var n := RunLength(s);
    var rest := s[n..];
    assert n > 0;
    hide RunLength;
    assert Components(s) == [s[..n]] + Components(rest);
    hide Components;
    if rest != [] {
      assert rest[|rest| - 1] == s[|s| - 1];
      if Components(rest) == [] {
        OnlySeparators(rest);
      }
    } else {
      NoComponents();
      assert s[|s| - 1] == s[n - 1];
    }
  }

  lemma {:induction false} OnlySeparators(s: string)
    requires Components(s) == []
    ensures forall i :: 0 <= i < |s| ==> IsSep(s[i])
    decreases |s|
  {
    if s != [] {
      assert IsSep(s[0]);
      OnlySeparators(s[1..]);
    }
  }

  lemma JoinCons(run: string, rest: seq<string>, lead: string, trail: string, trail': string)
    requires rest != [] ==> lead == "\\" && trail' == trail
    requires rest == [] ==> trail == "" && trail' == lead
    ensures run + (lead + Join(rest) + trail) == Join([run] + rest) + trail'
  {
    if rest == [] {
      assert Join([run] + rest) == run;
    } else {
      assert ([run] + rest)[1..] == rest;
    }
  }

  /** How many backslashes a string begins with, and how many other characters. */
  function Backslashes(s: string): (n: nat)
    ensures n <= |s| && (n < |s| ==> s[n] != '\\') && forall i :: 0 <= i < n ==> s[i] == '\\'
  {
    if s == [] || s[0] != '\\' then 0 else Backslashes(s[1..]) + 1
  }

  function NameLength(s: string): (n: nat)
    ensures n <= |s| && (n < |s| ==> s[n] == '\\') && forall i :: 0 <= i < n ==> s[i] != '\\'
  {
    if s == [] || s[0] == '\\' then 0 else NameLength(s[1..]) + 1
  }

  /** The length of a UNC path through its share, or through its server if no share follows. */
  function UncRoot(s: string): (n: nat)
    ensures n <= |s|
  {
    var server := Backslashes(s);
    var shareSep := server + NameLength(s[server..]);
    if shareSep == |s| then shareSep
    else
      var end := shareSep + 1 + NameLength(s[shareSep + 1..]);
      if end == shareSep + 1 then shareSep else end
  }

  lemma {:induction false} BackslashesOf(s: string, n: nat)
    requires n <= |s| && (n < |s| ==> s[n] != '\\') && forall i :: 0 <= i < n ==> s[i] == '\\'
    ensures Backslashes(s) == n
  {
    hide Backslashes;
  }

  lemma {:induction false} NameLengthOf(s: string, n: nat)
    requires n <= |s| && (n < |s| ==> s[n] == '\\') && forall i :: 0 <= i < n ==> s[i] != '\\'
    ensures NameLength(s) == n
  {
    hide NameLength;
  }

  /** Length of the root that trimming must keep. */
  method RootLength(s: string, isUnc: bool) returns (r: nat)
    ensures r <= |s|
    ensures isUnc ==> r == UncRoot(s)
    ensures !isUnc ==>
      r == if HasDrive(s) then (if |s| >= 3 && s[2] == '\\' then 3 else 2)
           else if s != [] && s[0] == '\\' then 1 else 0
  {
    hide Backslashes, NameLength;
    if isUnc {
      var i := 0;
      while i < |s| && s[i] == '\\'
        invariant i <= |s| && forall j :: 0 <= j < i ==> s[j] == '\\'
      {
        i := i + 1;
      }
      ghost var server := i;
      BackslashesOf(s, server);
      while i < |s| && s[i] != '\\'
        invariant server <= i <= |s|
        invariant forall j :: server <= j < i ==> s[j] != '\\'
      {
        i := i + 1;
      }
      NameLengthOf(s[server..], i - server);
      if i >= |s| {
        return i;
      }
      var shareSep := i;
      i := i + 1;
      var shareStart := i;
      while i < |s| && s[i] != '\\'
        invariant shareStart <= i <= |s|
        invariant forall j :: shareStart <= j < i ==> s[j] != '\\'
      {
        i := i + 1;
      }
      NameLengthOf(s[shareStart..], i - shareStart);
      if i == shareStart {
        return shareSep;
      }
      return i;
    }
    if |s| >= 2 && s[1] == ':' && IsLetter(s[0]) {
      if |s| >= 3 && s[2] == '\\' {
        return 3;
      }
      return 2;
    }
    if s != [] && s[0] == '\\' {
      return 1;
    }
    return 0;
  }

  /** A collapsed path is the canonical spelling of its location, perhaps with one more separator
      at the end. */
  ghost predicate AlmostCanonical(s: string, loc: Location) {
    || s == Show(loc)
    || (loc.components != [] && s == Show(loc) + "\\")
  }

  lemma TrailShape(s: string)
    ensures Trail(s) == "" || (Trail(s) == "\\" && Components(s) != [])
  {
    hide Components;
  }

  /** Collapsing, and restoring the second leading separator of a UNC path. */
  function Collapsed(b: string): string {
    (if "\\\\" <= b then "\\" else "") + Collapse(b, false)
  }

  lemma CollapsedIsAlmostCanonical(b: string)
    requires OneSeparator(b)
    ensures AlmostCanonical(Collapsed(b), Locate(b))
  {
    if |b| >= 2 && IsSep(b[0]) && IsSep(b[1]) {
      CollapsedUnc(b);
    } else if HasDrive(b) {
      CollapsedDrive(b);
    } else {
      CollapsedOther(b);
    }
  }

  lemma CollapsedUnc(b: string)
    requires OneSeparator(b) && |b| >= 2 && IsSep(b[0]) && IsSep(b[1])
    ensures AlmostCanonical(Collapsed(b), Locate(b))
  {
    CollapseShape(b, false);
    TrailShape(b);
    assert b[0] == '\\' && b[1] == '\\';
    hide Collapse, Components, Trail, Join, OneSeparator;
    assert "\\" + ("\\" + Join(Components(b))) == "\\\\" + Join(Components(b));
  }

  lemma CollapsedDrive(b: string)
    requires OneSeparator(b) && HasDrive(b)
    ensures AlmostCanonical(Collapsed(b), Locate(b))
  {
    CollapseTwo(b);
    CollapseShape(b[2..], false);
    TrailShape(b[2..]);
    hide Collapse, Components, Trail, Join;
    DriveSpelling(b);
    hide Show, OneSeparator;
  }

  lemma CollapseTwo(b: string)
    requires HasDrive(b)
    ensures Collapse(b, false) == [b[0]] + ([b[1]] + Collapse(b[2..], false))
  {
    assert b[1..][1..] == b[2..];
  }

  lemma CollapsedOther(b: string)
    requires OneSeparator(b) && !HasDrive(b) && !(|b| >= 2 && IsSep(b[0]) && IsSep(b[1]))
    ensures AlmostCanonical(Collapsed(b), Locate(b))
  {
    CollapseShape(b, false);
    TrailShape(b);
    hide Collapse, Components, Trail, Join, OneSeparator;
  }

  lemma DriveSpelling(b: string)
    requires HasDrive(b) && OneSeparator(b)
    ensures [b[0]] + ([b[1]] + (Lead(b[2..], false) + Join(Components(b[2..])) + Trail(b[2..])))
         == Show(Locate(b)) + Trail(b[2..])
  {
    hide Components, Trail, Join;
  }

  lemma {:induction false} JoinEnd(components: seq<string>)
    requires AllComponents(components) && components != []
    ensures Join(components) != [] && !IsSep(Join(components)[|Join(components)| - 1])
    decreases |components|
  {
    assert IsComponent(components[|components| - 1]);
    if |components| > 1 {
      JoinEnd(components[1..]);
    }
  }

  /** A canonical spelling ends in a separator only if it is a bare root. */
  lemma ShowEnd(loc: Location)
    requires IsLocation(loc)
    ensures loc.components == [] ==> Show(loc) == ShowRoot(loc.root)
    ensures loc.components != [] ==> Show(loc) != [] && !IsSep(Show(loc)[|Show(loc)| - 1])
  {
    if loc.components != [] {
      JoinEnd(loc.components);
      hide Join;
      var body := Join(loc.components);
      assert Show(loc)[|Show(loc)| - 1] == body[|body| - 1];
    }
  }

  /** The drive of an almost canonical spelling is its location's. */
  lemma DriveOfCollapsed(s: string, loc: Location)
    requires IsLocation(loc) && AlmostCanonical(s, loc) && !loc.root.Unc?
    ensures HasDrive(s) <==> loc.root.DriveAbsolute? || loc.root.DriveRelative?
    ensures loc.root.DriveAbsolute? <==> HasDrive(s) && |s| >= 3 && s[2] == '\\'
    ensures loc.root.CurrentDrive? <==> s != [] && s[0] == '\\'
  {
    var body := Join(loc.components);
    JoinStart(loc.components);
    hide Join, AllComponents;
    assert loc.root.NoRoot? ==> Show(loc) == body;
    if loc.root.NoRoot? && loc.components != [] && s != body {
      assert s == body + "\\" && HasDrive(s) ==> |body| >= 2;
    }
  }

  method Normalize(input: string) returns (r: string)
    ensures r == Show(Locate(input))
  {
    hide Show, Locate, Collapse, AlmostCanonical, OneSeparator, IsLocation;
    var backslashed := Backslashed(input);
    LocateBackslashed(input);
    var isUnc := "\\\\" <= backslashed;
    var collapsed := CollapseRuns(backslashed);
    if isUnc {
      collapsed := "\\" + collapsed;
    }
    ghost var loc := Locate(backslashed);
    LocateIsLocation(backslashed);
    CollapsedIsAlmostCanonical(backslashed);
    assert collapsed == Collapsed(backslashed) by {
      assert "" + Collapse(backslashed, false) == Collapse(backslashed, false);
    }
    UncIffLocated(backslashed);
    r := TrimToRoot(collapsed, isUnc, loc);
  }

  lemma UncIffLocated(b: string)
    requires OneSeparator(b)
    ensures "\\\\" <= b <==> Locate(b).root.Unc?
  {
    hide Components;
  }

  lemma CollapseNext(s: string, i: nat, prev: bool)
    requires i < |s|
    ensures Collapse(s[i..], prev) ==
      if IsSep(s[i]) then (if prev then [] else [s[i]]) + Collapse(s[i + 1..], true)
      else [s[i]] + Collapse(s[i + 1..], false)
  {
    assert s[i..][1..] == s[i + 1..];
  }

  lemma CollapseNothing(s: string)
    ensures Collapse(s[|s|..], true) == [] == Collapse(s[|s|..], false)
  {
  }

  method CollapseRuns(s: string) returns (r: string)
    ensures OneSeparator(s) ==> r == Collapse(s, false)
  {
    hide Collapse;
    r := "";
    var prevSep := false;
    assert s[0..] == s;
    CollapseNothing(s);
    for i := 0 to |s|
      invariant OneSeparator(s) ==> r + Collapse(s[i..], prevSep) == Collapse(s, false)
    {
      ghost var before := r;
      CollapseNext(s, i, prevSep);
      if s[i] == '\\' {
        if prevSep {
          continue;
        }
        prevSep := true;
      } else {
        prevSep := false;
      }
      r := r + [s[i]];
      assert before + ([s[i]] + Collapse(s[i + 1..], prevSep)) == r + Collapse(s[i + 1..], prevSep);
    }
  }

  /** Trim trailing separators down to the root. */
  method TrimToRoot(s: string, isUnc: bool, ghost loc: Location) returns (r: string)
    requires IsLocation(loc) && AlmostCanonical(s, loc) && isUnc == loc.root.Unc?
    ensures r == Show(loc)
  {
    var min := RootLength(s, isUnc);
    RootWithinShow(s, loc, min);
    ShowEnd(loc);
    hide Join, AllComponents;
    var end := |s|;
    while end > min && s[end - 1] == '\\'
      invariant |Show(loc)| <= end <= |s|
    {
      end := end - 1;
    }
    r := s[..end];
  }

  /** The server and the share of a UNC path, or what there is of them. */
  function ServerAndShare(components: seq<string>): seq<string> {
    if |components| <= 2 then components else components[..2]
  }

  lemma JoinCut(components: seq<string>)
    requires components != []
    ensures |components| == 1 ==> Join(components) == components[0]
    ensures |components| > 1 ==> Join(components) == components[0] + "\\" + Join(components[1..])
  {
  }

  /** What follows server and share in a joined path. */
  function AfterShare(components: seq<string>): string {
    if |components| <= 2 then "" else "\\" + Join(components[2..])
  }

  lemma Regroup(x: string, y: string, z: string)
    ensures x + (y + z) == x + y + z
  {
  }

  lemma JoinPair(x: string, y: string)
    ensures Join([x, y]) == x + "\\" + y
  {
    JoinCut([x, y]);
    JoinCut([y]);
    assert [x, y][1..] == [y];
  }

  lemma JoinTwo(components: seq<string>)
    requires |components| >= 2
    ensures Join(ServerAndShare(components)) == components[0] + "\\" + components[1]
    ensures Join(components) == components[0] + "\\" + components[1] + AfterShare(components)
  {
    hide Join;
    var c, tail := components, components[1..];
    assert ServerAndShare(c) == [c[0], c[1]];
    JoinPair(c[0], c[1]);
    if |c| == 2 {
      assert c == [c[0], c[1]];
    } else {
      JoinCut(c);
      JoinCut(tail);
      assert tail[1..] == c[2..];
      hide ServerAndShare;
      var rest := Join(c[2..]);
      Regroup(c[1], "\\", rest);
      Regroup(c[0] + "\\", c[1], "\\" + rest);
    }
  }

  lemma UncRootAt(s: string, server: nat, share: nat)
    requires server + 2 < |s| && s[0] == s[1] == '\\' && s[2] != '\\'
    requires NameLength(s[2..]) == server && NameLength(s[server + 3..]) == share > 0
    ensures UncRoot(s) == server + 3 + share
  {
    hide NameLength;
    BackslashesOf(s, 2);
  }

  lemma UncRootOfNames(server: string, share: string, rest: string)
    requires server != [] && (forall i :: 0 <= i < |server| ==> server[i] != '\\')
    requires share != [] && (forall i :: 0 <= i < |share| ==> share[i] != '\\')
    requires rest != [] ==> rest[0] == '\\'
    ensures
      var s, root := "\\\\" + (server + "\\" + share + rest), "\\\\" + (server + "\\" + share);
      UncRoot(s) == |root| && root <= s
  {
    hide NameLength, UncRoot;
    var s, afterServer := "\\\\" + (server + "\\" + share + rest), "\\" + share + rest;
    var n := |server| + 2;
    assert s[2] == server[0];
    assert s[2..] == server + afterServer && s[n + 1..] == share + rest;
    NameOf(server, afterServer);
    NameOf(share, rest);
    UncRootAt(s, |server|, |share|);
    assert s == "\\\\" + (server + "\\" + share) + rest;
  }

  lemma NameOf(name: string, rest: string)
    requires (forall i :: 0 <= i < |name| ==> name[i] != '\\') && (rest != [] ==> rest[0] == '\\')
    ensures NameLength(name + rest) == |name|
  {
    NameLengthOf(name + rest, |name|);
  }

  lemma UncRootOfServer(server: string, trail: string)
    requires server != [] && (forall i :: 0 <= i < |server| ==> server[i] != '\\')
    requires trail == "" || trail == "\\"
    ensures
      var s, root := "\\\\" + server + trail, "\\\\" + server;
      UncRoot(s) == |root| && root <= s
  {
    hide Backslashes, NameLength;
    var s := "\\\\" + server + trail;
    BackslashesOf(s, 2);
    assert s[2..] == server + trail;
    NameOf(server, trail);
    if trail == "\\" {
      assert s[|server| + 3..] == [];
      NameOf("", "");
    }
  }

  /** The protected root of a collapsed UNC path is exactly its server and its share. */
  lemma UncRootIsServerAndShare(s: string, loc: Location)
    requires IsLocation(loc) && loc.root.Unc? && AlmostCanonical(s, loc)
    ensures s[..UncRoot(s)] == Show(Location(Unc, ServerAndShare(loc.components)))
  {
    var c := loc.components;
    var trail := if s == Show(loc) then "" else "\\";
    assert s == Show(loc) + trail;
    if c == [] {
      BareUncRoot();
    } else if |c| == 1 {
      assert IsComponent(c[0]);
      JoinCut(c);
      hide UncRoot, Join;
      UncRootOfServer(c[0], trail);
    } else {
      assert IsComponent(c[0]) && IsComponent(c[1]);
      JoinTwo(c);
      hide UncRoot, Join;
      var names, rest := c[0] + "\\" + c[1], AfterShare(c);
      UncRootOfNames(c[0], c[1], rest + trail);
      Regroup(names, rest, trail);
      Regroup("\\\\", names + rest, trail);
    }
  }

  lemma BareUncRoot()
    ensures UncRoot("\\\\") == 2
  {
    BackslashesOf("\\\\", 2);
    NameLengthOf([], 0);
    assert "\\\\"[2..] == [];
  }

  lemma ServerAndShareFit(loc: Location)
    requires IsLocation(loc) && loc.root.Unc?
    ensures |Show(Location(Unc, ServerAndShare(loc.components)))| <= |Show(loc)|
    ensures loc.components == [] ==> ServerAndShare(loc.components) == loc.components
  {
    if |loc.components| >= 2 {
      JoinTwo(loc.components);
    }
    hide Join;
  }

  /** The protected root lies within the canonical spelling, and is all of it if that is bare. */
  lemma RootWithinShow(s: string, loc: Location, min: nat)
    requires IsLocation(loc) && AlmostCanonical(s, loc) && min <= |s|
    requires loc.root.Unc? ==> min == UncRoot(s)
    requires !loc.root.Unc? ==>
      min == if HasDrive(s) then (if |s| >= 3 && s[2] == '\\' then 3 else 2)
             else if s != [] && s[0] == '\\' then 1 else 0
    ensures min <= |Show(loc)|
    ensures loc.components == [] ==> min == |Show(loc)|
  {
    ShowEnd(loc);
    if !loc.root.Unc? {
      DriveOfCollapsed(s, loc);
    } else {
      UncRootIsServerAndShare(s, loc);
      ServerAndShareFit(loc);
      hide UncRoot;
    }
    hide Join, AllComponents;
  }

  // ----- identity -----

  function Lower(c: char): char {
    if 'A' <= c <= 'Z' then ((c as int) + 32) as char else c
  }

  function Fold(s: string): string {
    seq(|s|, i requires 0 <= i < |s| => Lower(s[i]))
  }

  function FoldAll(components: seq<string>): seq<string> {
    seq(|components|, i requires 0 <= i < |components| => Fold(components[i]))
  }

  function FoldRoot(root: Root): Root {
    match root
    case DriveAbsolute(letter) => DriveAbsolute(Lower(letter))
    case DriveRelative(letter) => DriveRelative(Lower(letter))
    case _ => root
  }

  function FoldLocation(loc: Location): Location {
    Location(FoldRoot(loc.root), FoldAll(loc.components))
  }

  /** Same root, drive letters compared without case, and the same components without case. */
  predicate SameLocation(x: Location, y: Location) {
    FoldLocation(x) == FoldLocation(y)
  }

  lemma LowerKeepsSyntax(c: char)
    ensures IsSep(Lower(c)) == IsSep(c) && IsLetter(Lower(c)) == IsLetter(c)
    ensures Lower(c) == ':' <==> c == ':'
    ensures Lower(c) == '\\' <==> c == '\\'
    ensures Lower(Lower(c)) == Lower(c)
  {
  }

  lemma {:induction false} FoldJoin(components: seq<string>)
    ensures Join(FoldAll(components)) == Fold(Join(components))
    decreases |components|
  {
    if |components| > 1 {
      FoldJoin(components[1..]);
      assert FoldAll(components)[1..] == FoldAll(components[1..]);
    }
  }

  lemma FoldShow(loc: Location)
    ensures Show(FoldLocation(loc)) == Fold(Show(loc))
  {
    FoldJoin(loc.components);
    hide Join;
  }

  lemma FoldIsLocation(loc: Location)
    requires IsLocation(loc)
    ensures IsLocation(FoldLocation(loc))
  {
    var folded := FoldAll(loc.components);
    forall i | 0 <= i < |folded|
      ensures IsComponent(folded[i])
    {
      var c := loc.components[i];
      assert IsComponent(c);
      forall j | 0 <= j < |c|
        ensures !IsSep(folded[i][j])
      {
        LowerKeepsSyntax(c[j]);
      }
    }
    if loc.root.NoRoot? && loc.components != [] && |loc.components[0]| >= 2 {
      LowerKeepsSyntax(loc.components[0][0]);
      LowerKeepsSyntax(loc.components[0][1]);
    }
  }

  /** Canonical spellings are equal up to case exactly when the locations are the same. */
  lemma SpellingDecidesLocation(x: Location, y: Location)
    requires IsLocation(x) && IsLocation(y)
    ensures Fold(Show(x)) == Fold(Show(y)) <==> SameLocation(x, y)
  {
    hide Fold, Show, FoldLocation, Locate, IsLocation;
    FoldShow(x);
    FoldShow(y);
    FoldIsLocation(x);
    FoldIsLocation(y);
    LocateShow(FoldLocation(x));
    LocateShow(FoldLocation(y));
  }

  /** The identity comparison: true exactly when both spellings name the same location. */
  method IdentityEq(a: string, b: string) returns (same: bool)
    ensures same <==> SameLocation(Locate(a), Locate(b))
  {
    hide SameLocation, Locate, Show, Fold, IsLocation;
    var x := Normalize(a);
    var y := Normalize(b);
    same := Fold(x) == Fold(y);
    LocateIsLocation(a);
    LocateIsLocation(b);
    SpellingDecidesLocation(Locate(a), Locate(b));
  }

  /** Normalising twice changes nothing more. */
  lemma NormalizeIdempotent(s: string)
    ensures Show(Locate(Show(Locate(s)))) == Show(Locate(s))
  {
    LocateIsLocation(s);
    hide Locate, Show, IsLocation;
    LocateShow(Locate(s));
  }

  /** Folding case commutes with normalising. */
  lemma NormalizeCommutesWithFold(s: string)
    ensures Show(Locate(Fold(s))) == Fold(Show(Locate(s)))
  {
    FoldLocate(s);
    hide Locate, Show, FoldLocation;
    FoldShow(Locate(s));
  }

  lemma FoldLocate(s: string)
    ensures Locate(Fold(s)) == FoldLocation(Locate(s))
  {
    FoldComponents(s);
    if |s| >= 1 {
      LowerKeepsSyntax(s[0]);
    }
    if |s| >= 2 {
      LowerKeepsSyntax(s[1]);
      FoldComponents(s[2..]);
      assert Fold(s)[2..] == Fold(s[2..]);
    }
    if |s| >= 3 {
      LowerKeepsSyntax(s[2]);
    }
    hide Components;
  }

  lemma {:induction false} FoldRun(s: string)
    ensures RunLength(Fold(s)) == RunLength(s)
    decreases |s|
  {
    if s != [] {
      LowerKeepsSyntax(s[0]);
      assert Fold(s)[1..] == Fold(s[1..]);
      FoldRun(s[1..]);
    }
  }

  lemma ComponentsStep(s: string)
    requires s != [] && !IsSep(s[0])
    ensures 0 < RunLength(s) && Components(s) == [s[..RunLength(s)]] + Components(s[RunLength(s)..])
  {
  }

  lemma FoldStep(s: string, n: nat)
    requires n <= |s|
    ensures Fold(s)[..n] == Fold(s[..n]) && Fold(s)[n..] == Fold(s[n..])
  {
  }

  lemma FoldAllCons(c: string, rest: seq<string>)
    ensures FoldAll([c] + rest) == [Fold(c)] + FoldAll(rest)
  {
    hide Fold;
  }

  lemma {:induction false} FoldComponents(s: string)
    ensures Components(Fold(s)) == FoldAll(Components(s))
    decreases |s|
  {
    if s != [] {
      LowerKeepsSyntax(s[0]);
      hide Components, RunLength;
      if IsSep(s[0]) {
        FoldStep(s, 1);
        assert Fold(s) == [Lower(s[0])] + Fold(s[1..]) && s == [s[0]] + s[1..];
        ComponentsSkip(s[0], s[1..]);
        ComponentsSkip(Lower(s[0]), Fold(s[1..]));
        FoldComponents(s[1..]);
      } else {
        var n := RunLength(s);
        ComponentsStep(s);
        FoldRun(s);
        ComponentsStep(Fold(s));
        FoldStep(s, n);
        FoldComponents(s[n..]);
        hide Fold, FoldAll;
        FoldAllCons(s[..n], Components(s[n..]));
      }
    }
  }

  // ----- any spelling, and what case means -----

  const UPPER: string := "ABCDEFGHIJKLMNOPQRSTUVWXYZ"

  const LOWER: string := "abcdefghijklmnopqrstuvwxyz"

  /** The two cases of one letter. */
  predicate IsPair(c: char, d: char, i: int) {
    0 <= i < 26 && c == UPPER[i] && d == LOWER[i]
  }

  /** The same character, or the two cases of one ASCII letter. */
  predicate SameLetter(c: char, d: char) {
    c == d || exists i :: 0 <= i < 26 && (IsPair(c, d, i) || IsPair(d, c, i))
  }

  lemma Alphabets(i: nat)
    requires i < 26
    ensures UPPER[i] as int == 'A' as int + i && LOWER[i] as int == 'a' as int + i
  {
  }

  lemma PairIs(c: char, d: char, i: nat)
    requires i < 26
    ensures IsPair(c, d, i) <==> c as int == 'A' as int + i && d as int == 'a' as int + i
  {
    Alphabets(i);
  }

  lemma LowerIsAsciiCase(c: char, d: char)
    ensures Lower(c) == Lower(d) <==> SameLetter(c, d)
  {
    hide IsPair;
    if SameLetter(c, d) && c != d {
      var i :| 0 <= i < 26 && (IsPair(c, d, i) || IsPair(d, c, i));
      PairIs(c, d, i);
      PairIs(d, c, i);
    }
    if Lower(c) == Lower(d) && c != d {
      var i: nat := if 'A' <= c <= 'Z' then c as int - 'A' as int else d as int - 'A' as int;
      PairIs(c, d, i);
      PairIs(d, c, i);
    }
  }

  predicate SameName(x: string, y: string) {
    |x| == |y| && forall i :: 0 <= i < |x| ==> SameLetter(x[i], y[i])
  }

  predicate SameRoot(x: Root, y: Root) {
    match (x, y)
    case (DriveAbsolute(c), DriveAbsolute(d)) => SameLetter(c, d)
    case (DriveRelative(c), DriveRelative(d)) => SameLetter(c, d)
    case _ => x == y
  }

  lemma FoldIsAsciiCase(x: string, y: string)
    ensures Fold(x) == Fold(y) <==> SameName(x, y)
  {
    hide SameLetter, Lower;
    forall i | 0 <= i < |x| && i < |y|
      ensures Lower(x[i]) == Lower(y[i]) <==> SameLetter(x[i], y[i])
    {
      LowerIsAsciiCase(x[i], y[i]);
    }
    if Fold(x) == Fold(y) {
      forall i | 0 <= i < |x|
        ensures SameLetter(x[i], y[i])
      {
        assert Fold(x)[i] == Lower(x[i]) && Fold(y)[i] == Lower(y[i]);
      }
    }
  }

  /** Two locations are the same exactly if their roots are of one kind, with the same drive letter up to
      case, and their components are the same, one by one, up to the case of ASCII letters. */
  lemma SameLocationIs(x: Location, y: Location)
    ensures SameLocation(x, y) <==>
      && SameRoot(x.root, y.root) && |x.components| == |y.components|
      && forall i :: 0 <= i < |x.components| ==> SameName(x.components[i], y.components[i])
  {
    hide Fold, Lower, SameName, SameLetter;
    forall i | 0 <= i < |x.components| && i < |y.components|
      ensures Fold(x.components[i]) == Fold(y.components[i]) <==> SameName(x.components[i], y.components[i])
    {
      FoldIsAsciiCase(x.components[i], y.components[i]);
    }
    SameRoots(x.root, y.root);
    SameFoldedNames(x.components, y.components);
  }

  lemma SameRoots(x: Root, y: Root)
    ensures FoldRoot(x) == FoldRoot(y) <==> SameRoot(x, y)
  {
    hide Lower, SameLetter;
    if (x.DriveAbsolute? && y.DriveAbsolute?) || (x.DriveRelative? && y.DriveRelative?) {
      LowerIsAsciiCase(x.letter, y.letter);
    }
  }

  lemma SameFoldedNames(x: seq<string>, y: seq<string>)
    ensures FoldAll(x) == FoldAll(y) <==> |x| == |y| && forall i :: 0 <= i < |x| ==> Fold(x[i]) == Fold(y[i])
  {
    hide Fold;
    if FoldAll(x) == FoldAll(y) {
      assert |x| == |FoldAll(x)| == |FoldAll(y)| == |y|;
      forall i | 0 <= i < |x|
        ensures Fold(x[i]) == Fold(y[i])
      {
        assert FoldAll(x)[i] == Fold(x[i]) && FoldAll(y)[i] == Fold(y[i]);
      }
    }
  }

  /** One or more separators of either kind. */
  predicate IsGap(s: string) {
    s != [] && forall i :: 0 <= i < |s| ==> s[i] == '/' || s[i] == '\\'
  }

  /** Components with a gap after each but the last, which may have one. */
  predicate IsSpelling(components: seq<string>, gaps: seq<string>) {
    |components| == |gaps| && AllComponents(components)
    && forall i :: 0 <= i < |gaps| ==> IsGap(gaps[i]) || (i == |gaps| - 1 && gaps[i] == [])
  }

  function Spell(components: seq<string>, gaps: seq<string>): string
    requires |components| == |gaps|
  {
    if components == [] then [] else components[0] + (gaps[0] + Spell(components[1..], gaps[1..]))
  }

  lemma {:induction false} ComponentsAfterGap(gap: string, rest: string)
    requires gap == [] || IsGap(gap)
    ensures Components(gap + rest) == Components(rest)
    decreases |gap|
  {
    hide Components;
    if gap == [] {
      assert gap + rest == rest;
    } else {
      assert gap + rest == [gap[0]] + (gap[1..] + rest);
      ComponentsSkip(gap[0], gap[1..] + rest);
      ComponentsAfterGap(gap[1..], rest);
    }
  }

  lemma {:induction false} ComponentsOfSpelling(components: seq<string>, gaps: seq<string>)
    requires IsSpelling(components, gaps)
    ensures Components(Spell(components, gaps)) == components
    decreases |components|
  {
    if components == [] {
      NoComponents();
    } else {
      var c, gap, rest := components[0], gaps[0], Spell(components[1..], gaps[1..]);
      assert IsComponent(c);
      assert gap == [] ==> |components| == 1 && rest == [];
      hide Components;
      ComponentsOfSpelling(components[1..], gaps[1..]);
      ComponentsCons(c, gap + rest);
      ComponentsAfterGap(gap, rest);
      assert components == [c] + components[1..];
    }
  }

  lemma SpellingStarts(components: seq<string>, gaps: seq<string>)
    requires IsSpelling(components, gaps)
    ensures
      var s := Spell(components, gaps);
      && (components == [] <==> s == [])
      && (s != [] ==> !IsSep(s[0]) && (HasDrive(s) ==> HasDrive(components[0])))
  {
    if components != [] {
      assert IsComponent(components[0]);
    }
  }

  /** However a path is spelled, with separators of either kind, any number of them between components and at
      the end, it is located by what it starts with and its components: two or more separators are UNC, one is
      the current drive's root, a letter and a colon a drive, and anything else is relative. */
  lemma SpellingIsLocated(lead: string, components: seq<string>, gaps: seq<string>, letter: char)
    requires IsSpelling(components, gaps) && (lead == [] || IsGap(lead))
    ensures
      var s := lead + Spell(components, gaps);
      && (|lead| >= 2 ==> Locate(s) == Location(Unc, components))
      && (|lead| == 1 ==> Locate(s) == Location(CurrentDrive, components))
      && (|lead| == 0 && (components == [] || !HasDrive(components[0])) ==> Locate(s) == Location(NoRoot, components))
    ensures 'a' <= letter <= 'z' || 'A' <= letter <= 'Z' ==>
      Locate([letter] + ":" + (lead + Spell(components, gaps)))
        == Location(if lead == [] then DriveRelative(letter) else DriveAbsolute(letter), components)
  {
    var body := Spell(components, gaps);
    SpellingStarts(components, gaps);
    ComponentsOfSpelling(components, gaps);
    ComponentsAfterGap(lead, body);
    hide *;
    if lead == [] {
      assert lead + body == body;
      LocateRelative(body);
    } else {
      LocateLed(lead, body);
    }
    LocateOnDrive(letter, lead, body);
  }

  lemma LocateRelative(body: string)
    requires body == [] || !IsSep(body[0])
    ensures !HasDrive(body) ==> Locate(body) == Location(NoRoot, Components(body))
  {
    hide Components;
  }

  lemma LocateLed(lead: string, body: string)
    requires IsGap(lead) && (body == [] || !IsSep(body[0]))
    ensures |lead| >= 2 ==> Locate(lead + body) == Location(Unc, Components(lead + body))
    ensures |lead| == 1 ==> Locate(lead + body) == Location(CurrentDrive, Components(lead + body))
  {
    hide Components;
    var s := lead + body;
    assert s[0] == lead[0];
    if |lead| >= 2 {
      assert s[1] == lead[1];
    } else if body != [] {
      assert s[1] == body[0];
    }
  }

  lemma LocateOnDrive(letter: char, lead: string, body: string)
    requires (lead == [] || IsGap(lead)) && (body == [] || !IsSep(body[0]))
    ensures 'a' <= letter <= 'z' || 'A' <= letter <= 'Z' ==>
      Locate([letter] + ":" + (lead + body))
        == Location(if lead == [] then DriveRelative(letter) else DriveAbsolute(letter), Components(lead + body))
  {
    hide Components;
    var s := lead + body;
    var drive := [letter] + ":" + s;
    assert drive[0] == letter && drive[1] == ':' && drive[2..] == s;
    if s != [] {
      assert drive[2] == if lead == [] then body[0] else lead[0];
    }
  }
}
