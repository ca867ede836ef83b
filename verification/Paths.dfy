/** Windows paths as immutable values of three parts - type, root text and whole text - and the
    operations that build new paths from them, with the laws they obey. */
module Paths {
  import opened Text
  import opened CaseFold

  const SEP := '\\'
  const SLASH := "\\"

  datatype Kind = Absolute | Unc | Relative | DirectoryRelative | DriveRelative

  datatype Path = Path(kind: Kind, root: string, path: string) {
    predicate IsEmpty() { path == "" }
    predicate IsAbsolute() { kind.Absolute? || kind.Unc? }
  }

  const EMPTY := Path(Relative, "", "")

  // ----- Well-formed paths

  predicate IsLetter(c: char) { 'a' <= c <= 'z' || 'A' <= c <= 'Z' }

  predicate IsDrive(s: string) { |s| == 2 && IsLetter(s[0]) && s[1] == ':' }

  /** `\\host\share\`, seen as pieces between separators. */
  predicate IsUncRoot(s: string) {
    var pieces := Split(s, SEP);
    |pieces| == 5 && pieces[0] == "" && pieces[1] == "" && pieces[2] != "" && pieces[3] != "" && pieces[4] == ""
  }

  predicate RootOk(kind: Kind, root: string) {
    match kind
    case Absolute => |root| == 3 && IsDrive(root[..2]) && root[2] == SEP
    case Unc => IsUncRoot(root)
    case Relative => root == ""
    case DirectoryRelative => root == SLASH
    case DriveRelative => IsDrive(root)
  }

  predicate Clean(name: string) {
    name != "" && SEP !in name && ':' !in name
  }

  predicate AllClean(names: seq<string>) {
    forall i | 0 <= i < |names| :: Clean(names[i])
  }

  function Pieces(rest: string): seq<string> {
    if rest == "" then [] else Split(rest, SEP)
  }

  /** The names after the root; the empty path has none. */
  function NamesOf(p: Path): seq<string>
    requires |p.root| <= |p.path|
  {
    Pieces(p.path[|p.root|..])
  }

  /** The elements the path reports: its names, except that the empty path has one empty element. */
  function Elements(p: Path): seq<string>
    requires |p.root| <= |p.path|
  {
    if p.IsEmpty() then [""] else NamesOf(p)
  }

  predicate Valid(p: Path) {
    RootOk(p.kind, p.root) && p.root <= p.path && AllClean(NamesOf(p))
  }

  function Make(kind: Kind, root: string, names: seq<string>): Path {
    Path(kind, root, root + Join(names, SEP))
  }

  lemma CleanJoin(names: seq<string>)
    requires AllClean(names)
    ensures Pieces(Join(names, SEP)) == names
    ensures names != [] ==> Join(names, SEP) != ""
    ensures names != [] ==> Join(names, SEP)[0] != SEP
  {
    if names != [] {
      SplitOfJoin(names, SEP);
      assert Clean(names[0]);
      assert Join(names, SEP)[0] == names[0][0];
    }
  }

  lemma MakeNames(kind: Kind, root: string, names: seq<string>)
    requires RootOk(kind, root) && AllClean(names)
    ensures Valid(Make(kind, root, names)) && NamesOf(Make(kind, root, names)) == names
  {
    CleanJoin(names);
    assert (root + Join(names, SEP))[|root|..] == Join(names, SEP);
  }

  /** Splitting and joining are inverse: root and names rebuild the path. */
  lemma Rebuild(p: Path)
    requires Valid(p)
    ensures Make(p.kind, p.root, NamesOf(p)) == p
  {
    var rest := p.path[|p.root|..];
    if rest != "" {
      JoinOfSplit(rest, SEP);
    }
    assert p.root + rest == p.path;
  }

  lemma ElementsOfValid(p: Path)
    requires Valid(p)
    ensures Elements(p) == if p.kind.Relative? && NamesOf(p) == [] then [""] else NamesOf(p)
    ensures p.IsEmpty() <==> p.kind.Relative? && NamesOf(p) == []
  {
    assert Split("", SEP) == [""];
    if p.kind.Relative? && NamesOf(p) == [] {
      Rebuild(p);
    }
  }

  // ----- The text determines type and root

  /** The tests on leading characters that tell the five types apart. */
  lemma KindTests(p: Path)
    requires Valid(p)
    ensures p.kind.Unc? <==> |p.path| > 1 && p.path[0] == SEP && p.path[1] == SEP
    ensures p.kind.DirectoryRelative? <==> p.path != "" && p.path[0] == SEP && !p.kind.Unc?
    ensures p.kind.Absolute? || p.kind.DriveRelative? <==> |p.path| > 1 && p.path[0] != SEP && p.path[1] == ':'
    ensures p.kind.Absolute? <==> |p.path| > 2 && p.path[0] != SEP && p.path[1] == ':' && p.path[2] == SEP
  {
    var names := NamesOf(p);
    Rebuild(p);
    CleanJoin(names);
    var rest := Join(names, SEP);
    assert p.path == p.root + rest;
    match p.kind {
      case Absolute => assert p.path[..3] == p.root;
      case DriveRelative => assert p.path[..2] == p.root;
      case Unc => UncRootShape(p.root);
      case DirectoryRelative =>
      case Relative => NoColonSecond(names);
    }
  }

  lemma NoColonSecond(names: seq<string>)
    requires AllClean(names)
    ensures |Join(names, SEP)| > 1 ==> Join(names, SEP)[1] != ':'
  {
    if names != [] {
      var n := names[0];
      assert Clean(n);
      if |n| > 1 {
        assert Join(names, SEP)[1] == n[1] && n[1] in n;
      }
    }
  }

  lemma UncRootShape(root: string)
    requires IsUncRoot(root)
    ensures |root| > 4 && root[0] == SEP && root[1] == SEP && root[|root| - 1] == SEP
    ensures Split(root[..|root| - 1], SEP) == Split(root, SEP)[..4]
    ensures |root| == 4 + |Split(root, SEP)[2]| + |Split(root, SEP)[3]|
  {
    var s := Split(root, SEP);
    JoinOfSplit(root, SEP);
    SplitIsFree(root, SEP);
    assert s == s[..4] + [""];
    JoinAppend(s[..4], [""], SEP);
    assert root == Join(s[..4], SEP) + SLASH;
    SplitOfJoin(s[..4], SEP);
    assert root[..|root| - 1] == Join(s[..4], SEP);
    var t := s[..4];
    assert t[1..][1..][1..] == [s[3]];
    assert Join(t[1..][1..], SEP) == s[2] + SLASH + s[3];
    assert Join(t[1..], SEP) == s[1] + SLASH + Join(t[1..][1..], SEP);
  }

  function RootLength(kind: Kind, text: string): nat {
    match kind
    case Absolute => 3
    case Unc =>
      var pieces := Split(text, SEP);
      if |pieces| > 4 then 4 + |pieces[2]| + |pieces[3]| else |text|
    case Relative => 0
    case DirectoryRelative => 1
    case DriveRelative => 2
  }

  function KindOfText(text: string): Kind {
    if |text| > 1 && text[0] == SEP && text[1] == SEP then Unc
    else if |text| > 1 && IsLetter(text[0]) && text[1] == ':' then
      if |text| > 2 && text[2] == SEP then Absolute else DriveRelative
    else if text != "" && text[0] == SEP then DirectoryRelative
    else Relative
  }

  /** The one assumption about the parser, whose class is not part of the repository: on text that is
      already well formed, `createFromNormalizedPath` reads type and root off the leading characters. */
  function Parse(text: string): Path {
    var kind := KindOfText(text);
    var n := RootLength(kind, text);
    Path(kind, if n <= |text| then text[..n] else text, text)
  }

  lemma RootLengthIsRoot(p: Path)
    requires Valid(p)
    ensures RootLength(p.kind, p.path) == |p.root|
  {
    if p.kind.Unc? {
      UncRootShape(p.root);
      var head, rest := p.root[..|p.root| - 1], p.path[|p.root|..];
      assert p.path == head + [SEP] + rest;
      SplitAtSeparator(head, rest, SEP);
    }
  }

  /** Reading the text of a well-formed path gives that path back. */
  lemma ParseRebuilds(p: Path)
    requires Valid(p)
    ensures Parse(p.path) == p
  {
    KindTests(p);
    RootLengthIsRoot(p);
    assert p.path[..|p.root|] == p.root;
    if p.kind.Absolute? || p.kind.DriveRelative? {
      assert p.path[0] == p.root[0] && p.root[0] == p.root[..2][0];
    }
  }

  // ----- Equality up to case

  /** `equals` (through `compareTo`): whole texts agree up to the folding. */
  predicate Equal(g: char -> char, p: Path, q: Path) {
    Same(g, p.path, q.path)
  }

  lemma {:induction false} SplitRespectsFold(g: char -> char, a: string, b: string)
    requires KeepsStructure(g) && Same(g, a, b)
    ensures SameNames(g, Split(a, SEP), Split(b, SEP))
  {
    if a != "" {
      SplitRespectsFold(g, a[1..], b[1..]);
      var x, y := Split(a[1..], SEP), Split(b[1..], SEP);
      assert a[0] == SEP <==> b[0] == SEP;
    }
  }

  lemma {:induction false} JoinRespectsFold(g: char -> char, a: seq<string>, b: seq<string>)
    requires KeepsStructure(g) && SameNames(g, a, b)
    ensures Same(g, Join(a, SEP), Join(b, SEP))
  {
    if |a| > 1 {
      JoinRespectsFold(g, a[1..], b[1..]);
      SameConcat(g, a[0] + [SEP], b[0] + [SEP], Join(a[1..], SEP), Join(b[1..], SEP));
    }
  }

  lemma EqualKind(g: char -> char, p: Path, q: Path)
    requires KeepsStructure(g) && Valid(p) && Valid(q) && Equal(g, p, q)
    ensures p.kind == q.kind
  {
    KindTests(p);
    KindTests(q);
    forall i | 0 <= i < |p.path|
      ensures (p.path[i] == SEP <==> q.path[i] == SEP) && (p.path[i] == ':' <==> q.path[i] == ':')
    {
      assert g(p.path[i]) == g(q.path[i]);
    }
  }

  lemma EqualRootLength(g: char -> char, p: Path, q: Path)
    requires KeepsStructure(g) && Valid(p) && Valid(q) && Equal(g, p, q) && p.kind == q.kind
    ensures |p.root| == |q.root|
  {
    RootLengthIsRoot(p);
    RootLengthIsRoot(q);
    SplitRespectsFold(g, p.path, q.path);
  }

  /** Equal paths have the same type, and agree root by root and name by name. */
  lemma EqualShape(g: char -> char, p: Path, q: Path)
    requires KeepsStructure(g) && Valid(p) && Valid(q) && Equal(g, p, q)
    ensures p.kind == q.kind && Same(g, p.root, q.root) && SameNames(g, NamesOf(p), NamesOf(q))
  {
    EqualKind(g, p, q);
    EqualRootLength(g, p, q);
    RootAndRest(p);
    RootAndRest(q);
    EqualParts(g, p.root, p.path[|p.root|..], q.root, q.path[|q.root|..]);
  }

  lemma RootAndRest(p: Path)
    requires Valid(p)
    ensures p.path == p.root + p.path[|p.root|..]
  {
  }

  lemma EqualParts(g: char -> char, r: string, a: string, s: string, b: string)
    requires KeepsStructure(g) && |r| == |s| && Same(g, r + a, s + b)
    ensures Same(g, r, s) && SameNames(g, Pieces(a), Pieces(b))
  {
    SameConcat(g, r, s, a, b);
    SplitRespectsFold(g, a, b);
  }

  lemma EqualFromShape(g: char -> char, p: Path, q: Path)
    requires KeepsStructure(g) && Valid(p) && Valid(q)
    requires |p.root| == |q.root| && SameNames(g, NamesOf(p), NamesOf(q))
    ensures Equal(g, p, q) <==> Same(g, p.root, q.root)
  {
    Rebuild(p);
    Rebuild(q);
    JoinRespectsFold(g, NamesOf(p), NamesOf(q));
    SameConcat(g, p.root, q.root, Join(NamesOf(p), SEP), Join(NamesOf(q), SEP));
  }
}
