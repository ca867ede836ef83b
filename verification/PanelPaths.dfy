/** Names and paths the web panel accepts: `SafeName`, resolution under the panel's root, and the targets
    of its create, upload and rename operations. */
module PanelPaths {
  import opened Text
  import Names

  // ----- Safe names

  predicate Forbidden(c: char) {
    c == '\\' || c == '/' || c == ':' || c == '*' || c == '?' || c == '"' || c == '<' || c == '>' || c == '|'
  }

  predicate Trimmed(c: char) {
    c == ' ' || c == '.'
  }

  function Allowed(s: string): string {
    if s == "" then "" else (if Forbidden(s[0]) then "" else [s[0]]) + Allowed(s[1..])
  }

  function TrimEnd(s: string): string {
    if s != "" && Trimmed(s[|s| - 1]) then TrimEnd(s[..|s| - 1]) else s
  }

  function SafeName(n: string): string {
    TrimEnd(Allowed(n))
  }

  /** Nothing to strip: no forbidden character, and no blank or dot at the end. */
  predicate IsSafe(s: string) {
    (forall i | 0 <= i < |s| :: !Forbidden(s[i])) && (s != "" ==> !Trimmed(s[|s| - 1]))
  }

  method MakeSafeName(n: string) returns (out: string)
    ensures out == SafeName(n)
  {
    out := "";
    var i := 0;
    assert n[0..] == n;
    while i < |n|
      invariant i <= |n| && out + Allowed(n[i..]) == Allowed(n)
    {
      AllowedStep(n, i, out);
      if !Forbidden(n[i]) {
        out := out + [n[i]];
      }
      i := i + 1;
    }
    assert n[i..] == "" && out + "" == out;
    while out != "" && Trimmed(out[|out| - 1])
      invariant TrimEnd(out) == SafeName(n)
      decreases |out|
    {
      out := out[..|out| - 1];
    }
    SafeNameIsSafe(n);
    if out == "." || out == ".." {
      out := "";
    }
  }

  lemma AllowedStep(n: string, i: nat, out: string)
    requires i < |n|
    ensures out + Allowed(n[i..]) == (if Forbidden(n[i]) then out else out + [n[i]]) + Allowed(n[i + 1..])
  {
    assert n[i..][1..] == n[i + 1..];
    assert out + ([n[i]] + Allowed(n[i + 1..])) == (out + [n[i]]) + Allowed(n[i + 1..]);
  }

  lemma {:induction false} AllowedIsAllowed(s: string, i: nat)
    requires i < |Allowed(s)|
    ensures !Forbidden(Allowed(s)[i])
  {
    if s != "" {
      var k := if Forbidden(s[0]) then 0 else 1;
      if i >= k {
        AllowedIsAllowed(s[1..], i - k);
      }
    }
  }

  lemma {:induction false} TrimEndIsPrefix(s: string)
    ensures TrimEnd(s) <= s && (TrimEnd(s) != "" ==> !Trimmed(TrimEnd(s)[|TrimEnd(s)| - 1]))
  {
    if s != "" && Trimmed(s[|s| - 1]) {
      TrimEndIsPrefix(s[..|s| - 1]);
    }
  }

  lemma {:induction false} AllowedOfClean(s: string)
    requires forall i | 0 <= i < |s| :: !Forbidden(s[i])
    ensures Allowed(s) == s
  {
    if s != "" {
      AllowedOfClean(s[1..]);
    }
  }

  lemma SafeNameIsSafe(n: string)
    ensures IsSafe(SafeName(n))
  {
    TrimEndIsPrefix(Allowed(n));
    forall i | 0 <= i < |SafeName(n)| ensures !Forbidden(SafeName(n)[i]) {
      AllowedIsAllowed(n, i);
    }
  }

  /** `SafeName` changes exactly the names that are not safe, and is therefore idempotent. */
  lemma SafeNameFixesSafe(n: string)
    ensures SafeName(n) == n <==> IsSafe(n)
    ensures SafeName(SafeName(n)) == SafeName(n)
  {
    SafeNameIsSafe(n);
    SafeIsFixed(SafeName(n));
    if IsSafe(n) {
      SafeIsFixed(n);
    }
  }

  lemma SafeIsFixed(n: string)
    requires IsSafe(n)
    ensures SafeName(n) == n
  {
    AllowedOfClean(n);
  }

  lemma {:induction false} AllowedConcat(a: string, b: string)
    ensures Allowed(a + b) == Allowed(a) + Allowed(b)
  {
    if a == "" {
      assert a + b == b;
    } else {
      assert (a + b)[1..] == a[1..] + b;
      AllowedConcat(a[1..], b);
    }
  }

  /** Of each character: the nine that Windows refuses in names go, all others stay, in their order. */
  lemma AllowedByChar(a: string, c: char, b: string)
    ensures Allowed("") == ""
    ensures Allowed(a + [c] + b) == Allowed(a) + (if c in "\\/:*?\"<>|" then "" else [c]) + Allowed(b)
  {
    AllowedConcat(a + [c], b);
    AllowedConcat(a, [c]);
    assert [c][1..] == "";
  }

  lemma {:induction false} TrimEndDrops(s: string) returns (tail: string)
    ensures TrimEnd(s) + tail == s && forall i | 0 <= i < |tail| :: tail[i] in " ."
  {
    if s != "" && Trimmed(s[|s| - 1]) {
      var front := TrimEndDrops(s[..|s| - 1]);
      tail := front + [s[|s| - 1]];
      assert s == s[..|s| - 1] + [s[|s| - 1]];
      assert TrimEnd(s) + tail == TrimEnd(s) + front + [s[|s| - 1]];
    } else {
      tail := "";
      assert s + "" == s;
    }
  }

  /** The safe name of any name: what is allowed of it, without the blanks and dots at its end - all of them,
      and no more. */
  lemma SafeNameMeaning(n: string) returns (tail: string)
    ensures SafeName(n) + tail == Allowed(n) && forall i | 0 <= i < |tail| :: tail[i] in " ."
    ensures SafeName(n) != "" ==> SafeName(n)[|SafeName(n)| - 1] !in " ."
    ensures forall i | 0 <= i < |SafeName(n)| :: SafeName(n)[i] !in "\\/:*?\"<>|"
  {
    tail := TrimEndDrops(Allowed(n));
    SafeNameIsSafe(n);
  }

  // ----- Resolution under a root

  predicate IsSep(c: char) { c == '/' || c == '\\' }

  /** The non-empty pieces between separators of either kind; `cur` is the piece being read. */
  function Tokens(s: string, cur: string): seq<string>
    decreases |s|
  {
    if s == "" then (if cur == "" then [] else [cur])
    else if IsSep(s[0]) then (if cur == "" then [] else [cur]) + Tokens(s[1..], "")
    else Tokens(s[1..], cur + [s[0]])
  }

  predicate Refused(part: string) {
    part == ".." || ':' in part
  }

  predicate AnyRefused(parts: seq<string>) {
    exists i | 0 <= i < |parts| :: Refused(parts[i])
  }

  function Kept(parts: seq<string>): seq<string> {
    if parts == [] then [] else (if parts[0] == "." then [] else [parts[0]]) + Kept(parts[1..])
  }

  /** Each part behind a backslash, hung under the root. */
  function Under(root: string, parts: seq<string>): string {
    if parts == [] then root
    else Under(root, parts[..|parts| - 1]) + "\\" + parts[|parts| - 1]
  }

  datatype Resolved = Resolved(full: string, norm: string)

  /** `None` when a part would leave the root or name a drive or stream. */
  function Resolve(root: string, rel: string): Option<Resolved> {
    var parts := Tokens(rel, "");
    if AnyRefused(parts) then None
    else Some(Resolved(Under(root, Kept(parts)), Join(Kept(parts), '/')))
  }

  method SplitParts(rel: string) returns (parts: seq<string>)
    ensures parts == Tokens(rel, "")
  {
    parts := [];
    var cur := "";
    var i := 0;
    while i < |rel|
      invariant i <= |rel| && parts + Tokens(rel[i..], cur) == Tokens(rel, "")
    {
      assert rel[i..][1..] == rel[i + 1..];
      if IsSep(rel[i]) {
        if cur != "" {
          parts := parts + [cur];
          cur := "";
        }
      } else {
        cur := cur + [rel[i]];
      }
      i := i + 1;
    }
    if cur != "" {
      parts := parts + [cur];
    }
  }

  method ResolveUnderRoot(root: string, rel: string) returns (ok: bool, outFull: string, outRelNorm: string)
    ensures ok == Resolve(root, rel).Some?
    ensures ok ==> Some(Resolved(outFull, outRelNorm)) == Resolve(root, rel)
    ensures ok <==> forall i | 0 <= i < |PathNames(rel)| :: PlainName(PathNames(rel)[i])
    ensures ok ==> outFull == Join([root] + PathNames(rel), '\\') && outRelNorm == Join(PathNames(rel), '/')
  {
    ResolvesPlainNames(root, rel);
    var parts := SplitParts(rel);
    TokensAreParts(rel, "");
    outFull, outRelNorm := "", "";
    var full, norm := root, "";
    ghost var kept := [];
    var i := 0;
    while i < |parts|
      invariant i <= |parts| && !AnyRefused(parts[..i]) && kept == Kept(parts[..i])
      invariant full == Under(root, kept) && norm == Join(kept, '/') && (norm == "" <==> kept == [])
    {
      var p := parts[i];
      PartStep(root, parts, i, kept);
      if p != "" && p != "." {
        if p == ".." || ':' in p {
          return false, "", "";
        }
        kept := kept + [p];
        full := full + "\\" + p;
        if norm != "" {
          norm := norm + "/";
        }
        norm := norm + p;
      }
      i := i + 1;
    }
    assert parts[..i] == parts;
    return true, full, norm;
  }

  /** What one more part does to the list of kept parts and to the two texts made of it. */
  lemma PartStep(root: string, parts: seq<string>, i: nat, kept: seq<string>)
    requires i < |parts| && !AnyRefused(parts[..i]) && kept == Kept(parts[..i]) && AreParts(parts)
    requires Join(kept, '/') == "" <==> kept == []
    ensures var p := parts[i];
            p != ""
            && (p == "." ==> !AnyRefused(parts[..i + 1]) && Kept(parts[..i + 1]) == kept)
            && (p != "." && Refused(p) ==> AnyRefused(parts))
            && (p != "." && !Refused(p) ==>
                  !AnyRefused(parts[..i + 1]) && Kept(parts[..i + 1]) == kept + [p]
                  && Under(root, kept + [p]) == Under(root, kept) + "\\" + p
                  && Join(kept + [p], '/') == (if Join(kept, '/') != "" then Join(kept, '/') + "/" else "") + p)
  {
    var p := parts[i];
    KeptAppend(parts, i);
    JoinOneMore(kept, p);
    assert (kept + [p])[..|kept|] == kept;
  }

  lemma {:induction false} KeptConcat(a: seq<string>, b: seq<string>)
    ensures Kept(a + b) == Kept(a) + Kept(b)
  {
    if a == [] {
      assert a + b == b;
    } else {
      assert (a + b)[1..] == a[1..] + b;
      KeptConcat(a[1..], b);
    }
  }

  lemma KeptAppend(parts: seq<string>, i: nat)
    requires i < |parts|
    ensures Kept(parts[..i + 1]) == if parts[i] == "." then Kept(parts[..i]) else Kept(parts[..i]) + [parts[i]]
    ensures AnyRefused(parts[..i + 1]) <==> AnyRefused(parts[..i]) || Refused(parts[i])
  {
    var a := parts[..i];
    assert parts[..i + 1] == a + [parts[i]];
    KeptConcat(a, [parts[i]]);
    if AnyRefused(a) {
      var j :| 0 <= j < |a| && Refused(a[j]);
      assert (a + [parts[i]])[j] == a[j];
    }
    if Refused(parts[i]) {
      assert (a + [parts[i]])[i] == parts[i];
    }
  }

  lemma JoinOneMore(parts: seq<string>, p: string)
    ensures Join(parts + [p], '/') == (if parts == [] then "" else Join(parts, '/') + "/") + p
    ensures Under("", []) == ""
  {
    if parts != [] {
      JoinAppend(parts, [p], '/');
    } else {
      assert parts + [p] == [p];
    }
  }

  /** A part as the tokeniser delivers it: not empty, no separator. */
  predicate IsPart(p: string) {
    p != "" && forall i | 0 <= i < |p| :: !IsSep(p[i])
  }

  predicate AreParts(parts: seq<string>) {
    forall i | 0 <= i < |parts| :: IsPart(parts[i])
  }

  lemma {:induction false} TokensAreParts(s: string, cur: string)
    requires cur == "" || IsPart(cur)
    ensures AreParts(Tokens(s, cur))
    decreases |s|
  {
    if s != "" {
      if IsSep(s[0]) {
        TokensAreParts(s[1..], "");
      } else {
        TokensAreParts(s[1..], cur + [s[0]]);
      }
    }
  }

  lemma {:induction false} TokensOfPart(p: string, cur: string, rest: string)
    requires forall i | 0 <= i < |p| :: !IsSep(p[i])
    ensures Tokens(p + rest, cur) == Tokens(rest, cur + p)
    decreases |p|
  {
    if p == "" {
      assert p + rest == rest && cur + p == cur;
    } else {
      assert (p + rest)[1..] == p[1..] + rest;
      assert cur + [p[0]] + p[1..] == cur + p;
      TokensOfPart(p[1..], cur + [p[0]], rest);
    }
  }

  lemma {:induction false} TokensConcat(s: string, cur: string, t: string)
    ensures Tokens(s + "/" + t, cur) == Tokens(s, cur) + Tokens(t, "")
    decreases |s|
  {
    var whole := s + "/" + t;
    if s == "" {
      assert whole == "/" + t && whole[1..] == t;
    } else {
      assert whole[0] == s[0] && whole[1..] == s[1..] + "/" + t;
      if IsSep(s[0]) {
        TokensConcat(s[1..], "", t);
      } else {
        TokensConcat(s[1..], cur + [s[0]], t);
      }
    }
  }

  lemma TokensOfOne(p: string)
    requires IsPart(p)
    ensures Tokens(p, "") == [p]
  {
    TokensOfPart(p, "", "");
    assert p + "" == p && "" + p == p;
  }

  /** Reading a joined list of parts gives the parts. */
  lemma {:induction false} TokensOfJoin(parts: seq<string>)
    requires AreParts(parts)
    ensures Tokens(Join(parts, '/'), "") == parts
  {
    if parts != [] {
      TokensOfOne(parts[0]);
      if |parts| > 1 {
        TokensOfJoin(parts[1..]);
        TokensConcat(parts[0], "", Join(parts[1..], '/'));
        assert parts == [parts[0]] + parts[1..];
      } else {
        assert parts == [parts[0]];
      }
    }
  }

  lemma KeptSingle(p: string)
    ensures Kept([p]) == if p == "." then [] else [p]
  {
    assert [p][1..] == [];
  }

  lemma {:induction false} KeptFacts(parts: seq<string>)
    requires AreParts(parts)
    ensures AreParts(Kept(parts)) && Kept(Kept(parts)) == Kept(parts)
    ensures !AnyRefused(parts) ==> !AnyRefused(Kept(parts)) && Names.AllOrdinary(Kept(parts))
  {
    if parts != [] {
      KeptFacts(parts[1..]);
      var k := Kept(parts[1..]);
      if !AnyRefused(parts) {
        assert !Refused(parts[0]);
        forall i | 0 <= i < |parts[1..]| ensures !Refused(parts[1..][i]) {
          assert parts[1..][i] == parts[i + 1];
        }
      }
      if parts[0] != "." {
        KeptConcat([parts[0]], k);
        KeptSingle(parts[0]);
        assert Kept([parts[0]] + k) == [parts[0]] + k;
        assert Kept(parts) == [parts[0]] + k;
      } else {
        assert Kept(parts) == k;
      }
    }
  }

  // ----- What is resolved, and what is refused

  /** Both separators written alike. */
  function Slashes(s: string): string {
    if s == "" then "" else (if s[0] == '\\' then "/" else [s[0]]) + Slashes(s[1..])
  }

  function Filled(pieces: seq<string>): seq<string> {
    if pieces == [] then [] else (if pieces[0] == "" then [] else [pieces[0]]) + Filled(pieces[1..])
  }

  /** The pieces between separators of either kind but for the empty ones and the dots. */
  function PathNames(rel: string): seq<string> {
    WithoutDots(Filled(Split(Slashes(rel), '/')))
  }

  function WithoutDots(names: seq<string>): seq<string> {
    if names == [] then [] else (if names[0] == "." then [] else [names[0]]) + WithoutDots(names[1..])
  }

  lemma {:induction false} TokensArePieces(s: string, cur: string)
    requires forall i | 0 <= i < |cur| :: !IsSep(cur[i])
    ensures var pieces := Split(Slashes(s), '/');
            Tokens(s, cur) == Filled([cur + pieces[0]] + pieces[1..])
    decreases |s|
  {
    var pieces := Split(Slashes(s), '/');
    if s == "" {
      assert Split("", '/') == [""] && cur + "" == cur && [""][1..] == [];
      FilledCons(cur, []);
    } else {
      var rest := Split(Slashes(s[1..]), '/');
      SlashesStep(s);
      if IsSep(s[0]) {
        TokensArePieces(s[1..], "");
        assert pieces == [""] + rest && pieces[1..] == rest && cur + "" == cur;
        assert "" + rest[0] == rest[0] && [rest[0]] + rest[1..] == rest;
        FilledCons(cur, rest);
      } else {
        TokensArePieces(s[1..], cur + [s[0]]);
        assert pieces == [[s[0]] + rest[0]] + rest[1..] && pieces[1..] == rest[1..];
        assert cur + ([s[0]] + rest[0]) == cur + [s[0]] + rest[0];
      }
    }
  }

  lemma SlashesStep(s: string)
    requires s != ""
    ensures Slashes(s)[0] == (if IsSep(s[0]) then '/' else s[0]) && Slashes(s)[1..] == Slashes(s[1..])
  {
  }

  lemma FilledCons(piece: string, rest: seq<string>)
    ensures Filled([piece] + rest) == (if piece == "" then [] else [piece]) + Filled(rest)
    ensures Filled([]) == []
  {
    assert ([piece] + rest)[1..] == rest;
  }

  lemma {:induction false} KeptIsWithoutDots(parts: seq<string>)
    ensures Kept(parts) == WithoutDots(parts)
  {
    if parts != [] {
      KeptIsWithoutDots(parts[1..]);
    }
  }

  lemma {:induction false} UnderIsJoin(root: string, parts: seq<string>)
    ensures Under(root, parts) == Join([root] + parts, '\\')
    decreases |parts|
  {
    if parts == [] {
      assert [root] + [] == [root];
    } else {
      var front, last := parts[..|parts| - 1], parts[|parts| - 1];
      UnderIsJoin(root, front);
      JoinAppend([root] + front, [last], '\\');
      assert [root] + parts == [root] + front + [last];
    }
  }

  /** A name that neither leads elsewhere nor holds another name. */
  predicate PlainName(n: string) {
    n != "" && n != "." && n != ".." && '/' !in n && '\\' !in n && ':' !in n
  }

  /** A place below the root: the root, and behind a backslash each one plain name after the other. */
  ghost predicate IsBelow(root: string, place: string) {
    exists names | names != [] && (forall i | 0 <= i < |names| :: PlainName(names[i])) ::
      place == Join([root] + names, '\\')
  }

  lemma {:induction false} RefusedNames(parts: seq<string>)
    ensures AnyRefused(parts) <==> AnyRefused(WithoutDots(parts))
  {
    if parts != [] {
      RefusedNames(parts[1..]);
      RefusedCons(parts[0], parts[1..]);
      RefusedCons(parts[0], WithoutDots(parts[1..]));
      assert parts == [parts[0]] + parts[1..];
      assert parts[0] == "." ==> WithoutDots(parts) == WithoutDots(parts[1..]);
    }
  }

  lemma RefusedCons(part: string, rest: seq<string>)
    ensures AnyRefused([part] + rest) <==> Refused(part) || AnyRefused(rest)
  {
    var all := [part] + rest;
    if Refused(part) {
      assert Refused(all[0]);
    }
    if AnyRefused(rest) {
      var i :| 0 <= i < |rest| && Refused(rest[i]);
      assert Refused(all[i + 1]);
    }
  }

  /** The whole of `ResolveUnderRoot`: a path is refused exactly when one of its names is `..` or has a colon;
      else it is the root with every name behind a backslash, and the names joined by slashes. */
  lemma ResolveMeaning(root: string, rel: string)
    ensures var names := PathNames(rel);
            Resolve(root, rel)
            == if exists i | 0 <= i < |names| :: names[i] == ".." || ':' in names[i] then None
               else Some(Resolved(Join([root] + names, '\\'), Join(names, '/')))
  {
    var pieces, parts := Split(Slashes(rel), '/'), Tokens(rel, "");
    TokensArePieces(rel, "");
    assert "" + pieces[0] == pieces[0] && [pieces[0]] + pieces[1..] == pieces;
    KeptIsWithoutDots(parts);
    RefusedNames(parts);
    UnderIsJoin(root, Kept(parts));
    var names := PathNames(rel);
    assert forall i | 0 <= i < |names| :: Refused(names[i]) <==> names[i] == ".." || ':' in names[i];
  }

  /** And then its names are plain, so it is the root or a place below it. */
  lemma ResolvedIsBelow(root: string, rel: string)
    requires Resolve(root, rel).Some?
    ensures var names := PathNames(rel);
            && (forall i | 0 <= i < |names| :: PlainName(names[i]))
            && Resolve(root, rel).value.full == Join([root] + names, '\\')
            && (Resolve(root, rel).value.norm == "" <==> names == [])
            && (names == [] ==> Resolve(root, rel).value.full == root)
            && (names != [] ==> IsBelow(root, Resolve(root, rel).value.full))
  {
    var pieces, parts, names := Split(Slashes(rel), '/'), Tokens(rel, ""), PathNames(rel);
    ResolveMeaning(root, rel);
    TokensAreParts(rel, "");
    TokensArePieces(rel, "");
    assert "" + pieces[0] == pieces[0] && [pieces[0]] + pieces[1..] == pieces;
    KeptIsWithoutDots(parts);
    KeptFacts(parts);
    JoinIsEmpty(names);
    forall i | 0 <= i < |names| ensures PlainName(names[i]) {
      assert IsPart(names[i]);
      assert !Refused(names[i]) && Names.Ordinary(names[i]);
    }
  }

  lemma ResolvesPlainNames(root: string, rel: string)
    ensures Resolve(root, rel).Some? <==> forall i | 0 <= i < |PathNames(rel)| :: PlainName(PathNames(rel)[i])
    ensures Resolve(root, rel).Some? ==>
              Resolve(root, rel).value == Resolved(Join([root] + PathNames(rel), '\\'), Join(PathNames(rel), '/'))
  {
    ResolveMeaning(root, rel);
    if Resolve(root, rel).Some? {
      ResolvedIsBelow(root, rel);
    }
  }

  /** What was resolved: a list of ordinary names hung under the root, so the walk it describes goes
      down from the root and never up. */
  lemma ResolvedStaysUnder(root: string, rel: string)
    requires Resolve(root, rel).Some?
    ensures var kept := Kept(Tokens(rel, ""));
            AreParts(kept) && !AnyRefused(kept)
            && Resolve(root, rel).value == Resolved(Under(root, kept), Join(kept, '/'))
            && forall at :: Names.Walk(at, kept) == at + kept
  {
    TokensAreParts(rel, "");
    KeptFacts(Tokens(rel, ""));
    forall at ensures Names.Walk(at, Kept(Tokens(rel, ""))) == at + Kept(Tokens(rel, "")) {
      Names.WalkOrdinary(at, Kept(Tokens(rel, "")));
    }
  }

  lemma ResolveParts(root: string, parts: seq<string>)
    requires AreParts(parts) && !AnyRefused(parts) && Kept(parts) == parts
    ensures Resolve(root, Join(parts, '/')) == Some(Resolved(Under(root, parts), Join(parts, '/')))
  {
    TokensOfJoin(parts);
  }

  /** Resolving the normalised relative path gives the same full and relative path. */
  lemma ResolveRoundTrip(root: string, rel: string)
    requires Resolve(root, rel).Some?
    ensures Resolve(root, Resolve(root, rel).value.norm) == Resolve(root, rel)
  {
    TokensAreParts(rel, "");
    KeptFacts(Tokens(rel, ""));
    ResolveParts(root, Kept(Tokens(rel, "")));
  }

  // ----- Targets of the operations

  /** The page's `join` and `parent`. */
  function JoinPath(b: string, n: string): string {
    if b == "" then n else b + "/" + n
  }

  function ParentPath(p: string): string {
    var i := LastIndex(p, '/');
    if i < 0 then "" else p[..i]
  }

  /** Where create and upload write. */
  function ChildTarget(full: string, name: string): string {
    full + "\\" + name
  }

  /** Where rename moves to. */
  function RenameTarget(full: string, name: string): string {
    var slash := LastIndex(full, '\\');
    (if slash < 0 then full else full[..slash]) + "\\" + name
  }

  lemma SafePart(n: string)
    requires IsSafe(n) && n != ""
    ensures IsPart(n) && !Refused(n) && n != "."
  {
    assert !Trimmed(n[|n| - 1]);
  }

  lemma ResolveOneMore(root: string, parts: seq<string>, n: string)
    requires AreParts(parts) && !AnyRefused(parts) && Kept(parts) == parts
    requires IsSafe(n) && n != ""
    ensures Resolve(root, JoinPath(Join(parts, '/'), n))
            == Some(Resolved(ChildTarget(Under(root, parts), n), JoinPath(Join(parts, '/'), n)))
  {
    SafePart(n);
    var more := parts + [n];
    KeptConcat(parts, [n]);
    assert Kept([n]) == [n];
    forall i | 0 <= i < |more| ensures IsPart(more[i]) && !Refused(more[i]) {
      assert i < |parts| ==> more[i] == parts[i];
    }
    JoinOneMore(parts, n);
    JoinIsEmpty(parts);
    ResolveParts(root, more);
    assert more[..|parts|] == parts;
  }

  lemma JoinIsEmpty(parts: seq<string>)
    requires AreParts(parts)
    ensures Join(parts, '/') == "" <==> parts == []
  {
    if parts != [] {
      assert IsPart(parts[0]);
    }
  }

  /** Create and upload write to exactly what the page's own joined path resolves to. */
  lemma ChildIsResolved(root: string, rel: string, name: string)
    requires Resolve(root, rel).Some? && SafeName(name) != ""
    ensures var r, n := Resolve(root, rel).value, SafeName(name);
            Resolve(root, JoinPath(r.norm, n)) == Some(Resolved(ChildTarget(r.full, n), JoinPath(r.norm, n)))
  {
    TokensAreParts(rel, "");
    KeptFacts(Tokens(rel, ""));
    SafeNameIsSafe(name);
    ResolveOneMore(root, Kept(Tokens(rel, "")), SafeName(name));
  }

  /** Rename moves to exactly what the parent of the resolved path joined with the new name resolves to. */
  lemma RenameIsResolved(root: string, rel: string, name: string)
    requires Resolve(root, rel).Some? && Resolve(root, rel).value.norm != "" && SafeName(name) != ""
    ensures var r, n := Resolve(root, rel).value, SafeName(name);
            var to := JoinPath(ParentPath(r.norm), n);
            Resolve(root, to) == Some(Resolved(RenameTarget(r.full, n), to))
  {
    TokensAreParts(rel, "");
    KeptFacts(Tokens(rel, ""));
    SafeNameIsSafe(name);
    RenameOfParts(root, Kept(Tokens(rel, "")), SafeName(name));
  }

  lemma RenameOfParts(root: string, kept: seq<string>, n: string)
    requires AreParts(kept) && !AnyRefused(kept) && Kept(kept) == kept && kept != []
    requires IsSafe(n) && n != ""
    ensures var to := JoinPath(ParentPath(Join(kept, '/')), n);
            Resolve(root, to) == Some(Resolved(RenameTarget(Under(root, kept), n), to))
  {
    var m := |kept| - 1;
    var front, last := kept[..m], kept[m];
    assert kept == front + [last] && IsPart(last);
    KeptOfFront(front, last);
    TargetOfFront(root, front, last, n);
    ParentOfFront(front, last);
    ResolveOneMore(root, front, n);
  }

  lemma TargetOfFront(root: string, front: seq<string>, last: string, n: string)
    requires IsPart(last)
    ensures RenameTarget(Under(root, front + [last]), n) == ChildTarget(Under(root, front), n)
  {
    assert (front + [last])[..|front|] == front;
    var full := Under(root, front) + ['\\'] + last;
    assert Under(root, front + [last]) == full;
    LastIndexBehind(Under(root, front), '\\', last);
    assert full[..|Under(root, front)|] == Under(root, front);
  }

  lemma ParentOfFront(front: seq<string>, last: string)
    requires IsPart(last)
    ensures ParentPath(Join(front + [last], '/')) == Join(front, '/')
  {
    JoinOneMore(front, last);
    if front == [] {
      LastIndexAt(last, '/', -1);
    } else {
      var norm := Join(front, '/') + ['/'] + last;
      assert Join(front + [last], '/') == norm;
      LastIndexBehind(Join(front, '/'), '/', last);
      assert norm[..|Join(front, '/')|] == Join(front, '/');
    }
  }

  lemma KeptOfFront(front: seq<string>, last: string)
    requires AreParts(front + [last]) && !AnyRefused(front + [last]) && Kept(front + [last]) == front + [last]
    ensures AreParts(front) && !AnyRefused(front) && Kept(front) == front
  {
    var all := front + [last];
    forall i | 0 <= i < |front| ensures IsPart(front[i]) && !Refused(front[i]) {
      assert all[i] == front[i];
    }
    KeptConcat(front, [last]);
    KeptLength(front);
    assert |Kept([last])| <= 1;
    assert Kept(front) == (Kept(front) + Kept([last]))[..|front|];
  }

  lemma {:induction false} KeptLength(parts: seq<string>)
    ensures |Kept(parts)| <= |parts|
  {
    if parts != [] {
      KeptLength(parts[1..]);
    }
  }
}
