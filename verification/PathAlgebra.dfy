/** `normalize`, `resolve` and `relativize` on path values, and how they undo one another. */
module PathAlgebra {
  import opened Text
  import opened CaseFold
  import opened Names
  import opened Paths

  // ----- normalize

  /** Types whose root cannot be climbed above. */
  predicate Clamped(kind: Kind) {
    kind.Absolute? || kind.Unc? || kind.DirectoryRelative?
  }

  function Reduced(p: Path): seq<string>
    requires |p.root| <= |p.path|
  {
    Reduce(Clamped(p.kind), [], NamesOf(p))
  }

  /** What `normalize` is for: the same root, with the names reduced. */
  function Normalize(p: Path): Path
    requires |p.root| <= |p.path|
  {
    Make(p.kind, p.root, Reduced(p))
  }

  lemma ReducedIsClean(p: Path)
    requires Valid(p)
    ensures AllClean(Reduced(p)) && Normal(Clamped(p.kind), Reduced(p))
  {
    ReduceIsNormal(Clamped(p.kind), [], NamesOf(p));
    var r := Reduced(p);
    forall i | 0 <= i < |r| ensures Clean(r[i]) {
      ReduceKeepsElements(Clamped(p.kind), [], NamesOf(p), r[i]);
    }
  }

  lemma NormalizeIsValid(p: Path)
    requires Valid(p)
    ensures Valid(Normalize(p)) && NamesOf(Normalize(p)) == Reduced(p)
  {
    ReducedIsClean(p);
    MakeNames(p.kind, p.root, Reduced(p));
  }

  lemma NormalizeIdempotent(p: Path)
    requires Valid(p)
    ensures Normalize(Normalize(p)) == Normalize(p)
  {
    NormalizeIsValid(p);
    ReduceIdempotent(Clamped(p.kind), NamesOf(p));
  }

  /** A normalised path leads where the path leads: from the root when it hangs at one, otherwise from
      every directory. */
  lemma NormalizeKeepsMeaning(p: Path, at: seq<string>)
    requires Valid(p)
    ensures Clamped(p.kind) ==> Walk([], NamesOf(Normalize(p))) == Walk([], NamesOf(p))
    ensures !Clamped(p.kind) ==> Walk(at, NamesOf(Normalize(p))) == Walk(at, NamesOf(p))
  {
    NormalizeIsValid(p);
    if Clamped(p.kind) {
      ClampedReduceIsWalk([], NamesOf(p));
      ReduceIdempotent(true, NamesOf(p));
      ClampedReduceIsWalk([], Reduced(p));
    } else {
      ReduceKeepsWalk(at, [], NamesOf(p));
    }
  }

  /** Normal forms are canonical: same root and same meaning is the same normalised path. */
  lemma NormalizeIsCanonical(p: Path, q: Path)
    requires Valid(p) && Valid(q) && p.kind == q.kind && p.root == q.root
    ensures Normalize(p) == Normalize(q) <==>
            if Clamped(p.kind) then Walk([], NamesOf(p)) == Walk([], NamesOf(q))
            else forall at :: Walk(at, NamesOf(p)) == Walk(at, NamesOf(q))
  {
    NormalizeIsValid(p);
    NormalizeIsValid(q);
    if Clamped(p.kind) {
      ClampedReduceIsWalk([], NamesOf(p));
      ClampedReduceIsWalk([], NamesOf(q));
    } else {
      SameReductionIffSameWalk(NamesOf(p), NamesOf(q));
    }
  }

  /** Equal paths have equal normal forms. */
  lemma NormalizeRespectsCase(g: char -> char, p: Path, q: Path)
    requires KeepsStructure(g) && Valid(p) && Valid(q) && Equal(g, p, q)
    ensures Equal(g, Normalize(p), Normalize(q))
  {
    EqualShape(g, p, q);
    ReduceRespectsFold(g, Clamped(p.kind), [], [], NamesOf(p), NamesOf(q));
    NormalizeIsValid(p);
    NormalizeIsValid(q);
    EqualFromShape(g, Normalize(p), Normalize(q));
  }

  // ----- resolve

  predicate EndsWithSep(s: string) {
    s != "" && s[|s| - 1] == SEP
  }

  function Resolve(f: Fold, p: Path, q: Path): (r: Path)
    requires |p.root| <= |p.path| && |q.root| <= |q.path|
    ensures |r.root| <= |r.path|
  {
    if q.IsEmpty() then p
    else if q.IsAbsolute() then q
    else match q.kind
      case Relative =>
        Path(p.kind, p.root,
             if EndsWithSep(p.path) || |p.root| == |p.path| then p.path + q.path else p.path + SLASH + q.path)
      case DirectoryRelative =>
        Parse(if EndsWithSep(p.root) then p.root + q.path[1..] else p.root + q.path)
      case DriveRelative =>
        if !EndsWithSep(p.root) then q
        else if !Same(f.Caseless(), p.root[..|p.root| - 1], q.root) then q
        else
          var remaining := q.path[|q.root|..];
          Parse(if EndsWithSep(p.path) then p.path + remaining else p.path + SLASH + remaining)
  }

  /** Both name an item below the same drive: `C:\...` and `C:...`. */
  predicate SameDrive(f: Fold, p: Path, q: Path) {
    p.kind.Absolute? && q.kind.DriveRelative? && p.root != "" && Same(f.Caseless(), p.root[..|p.root| - 1], q.root)
  }

  lemma PathEnd(p: Path)
    requires Valid(p)
    ensures NamesOf(p) != [] ==> !EndsWithSep(p.path) && |p.path| > |p.root|
    ensures NamesOf(p) == [] ==> p.path == p.root
    ensures EndsWithSep(p.root) <==> Clamped(p.kind)
  {
    Rebuild(p);
    if NamesOf(p) != [] {
      JoinEnd(NamesOf(p));
    }
    if p.kind.Unc? {
      UncRootShape(p.root);
    }
  }

  lemma {:induction false} JoinEnd(names: seq<string>)
    requires AllClean(names) && names != []
    ensures var s := Join(names, SEP); s != "" && s[|s| - 1] != SEP
  {
    if |names| == 1 {
      assert Clean(names[0]);
    } else {
      JoinEnd(names[1..]);
    }
  }

  lemma AppendText(root: string, a: seq<string>, b: seq<string>)
    requires a != [] && b != []
    ensures root + Join(a + b, SEP) == root + Join(a, SEP) + SLASH + Join(b, SEP)
  {
    JoinAppend(a, b, SEP);
  }

  /** Appending names to a path, the way three of the branches of `resolve` do it. */
  lemma AppendNames(p: Path, names: seq<string>)
    requires Valid(p) && names != []
    ensures var glue := if EndsWithSep(p.path) || |p.root| == |p.path| then "" else SLASH;
            Make(p.kind, p.root, NamesOf(p) + names).path == p.path + glue + Join(names, SEP)
  {
    PathEnd(p);
    Rebuild(p);
    if NamesOf(p) != [] {
      AppendText(p.root, NamesOf(p), names);
    } else {
      assert NamesOf(p) + names == names;
      assert p.path + "" == p.path;
    }
  }

  /** Resolving a relative path appends its names. */
  lemma ResolveRelative(f: Fold, p: Path, q: Path)
    requires Valid(p) && Valid(q) && q.kind.Relative?
    ensures Valid(Resolve(f, p, q))
    ensures Resolve(f, p, q) == Make(p.kind, p.root, NamesOf(p) + NamesOf(q))
    ensures NamesOf(Resolve(f, p, q)) == NamesOf(p) + NamesOf(q)
  {
    var names := NamesOf(p) + NamesOf(q);
    MakeNames(p.kind, p.root, names);
    assert Resolve(f, p, q) == Make(p.kind, p.root, names) by {
      ElementsOfValid(q);
      if NamesOf(q) == [] {
        Rebuild(p);
        assert names == NamesOf(p);
      } else {
        Rebuild(q);
        assert q.path == Join(NamesOf(q), SEP);
        AppendNames(p, NamesOf(q));
        assert p.path + "" == p.path;
      }
    }
  }

  /** Resolving an absolute path gives that path. */
  lemma ResolveAbsolute(f: Fold, p: Path, q: Path)
    requires Valid(p) && Valid(q) && q.IsAbsolute()
    ensures Resolve(f, p, q) == q
  {
    ElementsOfValid(q);
  }

  /** The root a root-relative path `\...` is hung at when resolved against `p`. */
  function HangAt(p: Path): (Kind, string) {
    match p.kind
    case Relative => (DirectoryRelative, SLASH)
    case DriveRelative => (Absolute, p.root + SLASH)
    case _ => (p.kind, p.root)
  }

  /** Resolving a root-relative path keeps the drive, share or root of the first path only. */
  lemma ResolveDirectoryRelative(f: Fold, p: Path, q: Path)
    requires Valid(p) && Valid(q) && q.kind.DirectoryRelative?
    ensures Resolve(f, p, q) == Make(HangAt(p).0, HangAt(p).1, NamesOf(q))
    ensures Valid(Resolve(f, p, q))
  {
    var (kind, root) := HangAt(p);
    PathEnd(p);
    ElementsOfValid(q);
    HangAtIsRoot(p);
    RootedText(q);
    MakeNames(kind, root, NamesOf(q));
    if p.kind.Relative? || p.kind.DriveRelative? {
      assert p.root + q.path == root + Join(NamesOf(q), SEP);
    }
    ParseRebuilds(Make(kind, root, NamesOf(q)));
  }

  lemma HangAtIsRoot(p: Path)
    requires Valid(p)
    ensures RootOk(HangAt(p).0, HangAt(p).1)
  {
    if p.kind.DriveRelative? {
      assert (p.root + SLASH)[..2] == p.root;
    }
  }

  lemma RootedText(q: Path)
    requires Valid(q) && q.kind.DirectoryRelative?
    ensures q.path == SLASH + Join(NamesOf(q), SEP) && q.path[1..] == Join(NamesOf(q), SEP)
  {
    Rebuild(q);
  }

  /** Resolving a drive-relative path against an absolute path of that drive appends its names - and
      yields a path with a trailing separator, which no well-formed path has, exactly when there are
      no names to append to a path that has some. */
  lemma ResolveDriveRelative(f: Fold, p: Path, q: Path)
    requires Valid(p) && Valid(q) && q.kind.DriveRelative?
    ensures !SameDrive(f, p, q) ==> Resolve(f, p, q) == q
    ensures SameDrive(f, p, q) && (NamesOf(q) != [] || NamesOf(p) == []) ==>
              Resolve(f, p, q) == Make(p.kind, p.root, NamesOf(p) + NamesOf(q)) && Valid(Resolve(f, p, q))
    ensures SameDrive(f, p, q) && NamesOf(q) == [] && NamesOf(p) != [] ==>
              Resolve(f, p, q).path == p.path + SLASH && !Valid(Resolve(f, p, q))
  {
    PathEnd(p);
    PathEnd(q);
    ElementsOfValid(q);
    if p.kind.Unc? {
      UncRootShape(p.root);
    }
    if SameDrive(f, p, q) {
      Rebuild(q);
      assert q.path[|q.root|..] == Join(NamesOf(q), SEP);
      if NamesOf(q) != [] {
        SameDriveNames(f, p, q);
      } else {
        SameDriveBare(f, p, q);
      }
    }
  }

  lemma SameDriveNames(f: Fold, p: Path, q: Path)
    requires Valid(p) && Valid(q) && q.kind.DriveRelative? && SameDrive(f, p, q)
    requires NamesOf(q) != [] && q.path[|q.root|..] == Join(NamesOf(q), SEP)
    ensures Resolve(f, p, q) == Make(p.kind, p.root, NamesOf(p) + NamesOf(q)) && Valid(Resolve(f, p, q))
  {
    PathEnd(p);
    ElementsOfValid(q);
    Rebuild(p);
    AppendNames(p, NamesOf(q));
    MakeNames(p.kind, p.root, NamesOf(p) + NamesOf(q));
    ParseRebuilds(Make(p.kind, p.root, NamesOf(p) + NamesOf(q)));
  }

  lemma SameDriveBare(f: Fold, p: Path, q: Path)
    requires Valid(p) && Valid(q) && q.kind.DriveRelative? && SameDrive(f, p, q)
    requires NamesOf(q) == [] && q.path[|q.root|..] == ""
    ensures NamesOf(p) == [] ==>
              Resolve(f, p, q) == Make(p.kind, p.root, NamesOf(p) + NamesOf(q)) && Valid(Resolve(f, p, q))
    ensures NamesOf(p) != [] ==> Resolve(f, p, q).path == p.path + SLASH && !Valid(Resolve(f, p, q))
  {
    PathEnd(p);
    Rebuild(p);
    if NamesOf(p) == [] {
      assert p.path + "" == p.path;
      assert NamesOf(p) + NamesOf(q) == [];
      ParseRebuilds(p);
    } else {
      assert p.path + SLASH + "" == p.path + SLASH;
      TrailingSeparator(p, Parse(p.path + SLASH));
    }
  }

  lemma TrailingSeparator(p: Path, r: Path)
    requires Valid(p) && NamesOf(p) != [] && p.kind.Absolute? && r.path == p.path + SLASH
    requires |r.root| == 3
    ensures !Valid(r)
  {
    PathEnd(p);
    if Valid(r) {
      PathEnd(r);
    }
  }

  /** `resolve` returns a well-formed path except in that one case. */
  lemma ResolveIsValid(f: Fold, p: Path, q: Path)
    requires Valid(p) && Valid(q)
    ensures Valid(Resolve(f, p, q)) <==> !(SameDrive(f, p, q) && NamesOf(q) == [] && NamesOf(p) != [])
  {
    match q.kind {
      case Relative => ResolveRelative(f, p, q);
      case DirectoryRelative => ResolveDirectoryRelative(f, p, q);
      case DriveRelative => ResolveDriveRelative(f, p, q);
      case _ => ElementsOfValid(q);
    }
  }

  // ----- relativize

  datatype RelError = DifferentType | DifferentRoot | NoRelativePath
  datatype RelResult = Ok(value: Path) | Refused(error: RelError)

  function CommonPrefix(g: char -> char, a: seq<string>, b: seq<string>): (n: nat)
    ensures n <= |a| && n <= |b|
    ensures SameNames(g, a[..n], b[..n])
    ensures n < |a| && n < |b| ==> !Same(g, a[n], b[n])
  {
    if a == [] || b == [] || !Same(g, a[0], b[0]) then 0
    else
      var n := CommonPrefix(g, a[1..], b[1..]);
      assert a[..n + 1] == [a[0]] + a[1..][..n] && b[..n + 1] == [b[0]] + b[1..][..n];
      n + 1
  }

  function DotDots(n: nat): (r: seq<string>)
    ensures |r| == n && forall i | 0 <= i < n :: r[i] == DOTDOT
  {
    if n == 0 then [] else [DOTDOT] + DotDots(n - 1)
  }

  /** The relative path made of the given elements; one empty element is the empty path. */
  function RelativePath(elements: seq<string>): Path {
    Path(Relative, "", Join(elements, SEP))
  }

  predicate HasDots(elements: seq<string>) {
    exists i | 0 <= i < |elements| :: !Ordinary(elements[i])
  }

  /** What is left of the base is climbed, unless it has dots or is empty, and what is left of the child
      is descended. */
  function ClimbOver(baseRest: seq<string>, childRest: seq<string>): RelResult {
    if HasDots(baseRest) then Refused(NoRelativePath)
    else if RelativePath(baseRest).IsEmpty() then Ok(RelativePath(childRest))
    else Ok(Parse(Join(DotDots(|baseRest|) + (if RelativePath(childRest).IsEmpty() then [] else childRest), SEP)))
  }

  /** What follows once `i` leading elements are found to be shared. */
  function RelativizeFrom(be: seq<string>, ce: seq<string>, i: nat): RelResult
    requires i <= |be| && i <= |ce|
  {
    if i == |be| then Ok(RelativePath(ce[i..])) else ClimbOver(be[i..], ce[i..])
  }

  /** The way from `base` to `child`, both reduced. */
  function RelativizeReduced(g: char -> char, base: Path, child: Path): RelResult
    requires |base.root| <= |base.path| && |child.root| <= |child.path|
  {
    RelativizeFrom(Elements(base), Elements(child), CommonPrefix(g, Elements(base), Elements(child)))
  }

  function Relativize(f: Fold, p: Path, q: Path): RelResult
    requires |p.root| <= |p.path| && |q.root| <= |q.path|
  {
    if Equal(f.up, p, q) then Ok(EMPTY)
    else if p.kind != q.kind then Refused(DifferentType)
    else if !Same(f.Caseless(), p.root, q.root) then Refused(DifferentRoot)
    else if p.IsEmpty() then Ok(q)
    else if HasDots(Elements(p)) || HasDots(Elements(q)) then RelativizeReduced(f.up, Normalize(p), Normalize(q))
    else RelativizeReduced(f.up, p, q)
  }

  /** The same on lists of names alone. */
  function RelativeNames(g: char -> char, base: seq<string>, child: seq<string>): Option<seq<string>> {
    var i := CommonPrefix(g, base, child);
    if HasDots(base[i..]) then None else Some(DotDots(|base| - i) + child[i..])
  }

  lemma RelativeIsValid(names: seq<string>)
    requires AllClean(names)
    ensures RelativePath(names) == Make(Relative, "", names)
    ensures Valid(RelativePath(names)) && NamesOf(RelativePath(names)) == names
    ensures Parse(Join(names, SEP)) == RelativePath(names)
    ensures RelativePath(names).IsEmpty() <==> names == []
  {
    MakeNames(Relative, "", names);
    assert "" + Join(names, SEP) == Join(names, SEP);
    ParseRebuilds(RelativePath(names));
    CleanJoin(names);
  }

  lemma RelativizeFromEmpty(g: char -> char, base: Path, child: Path)
    requires Valid(base) && Valid(child) && base.kind == child.kind && base.IsEmpty()
    ensures RelativizeReduced(g, base, child) == Ok(RelativePath(NamesOf(child)))
  {
    var ce := Elements(child);
    ElementsOfValid(child);
    assert Elements(base) == [""];
    if ce == [""] {
      SameRefl(g, "");
      assert ce[1..] == [];
    } else {
      assert NamesOf(child) == ce && Clean(ce[0]);
      assert ce[0..] == ce;
    }
  }

  lemma RelativizeToEmpty(g: char -> char, base: Path, child: Path)
    requires Valid(base) && Valid(child) && base.kind == child.kind && child.IsEmpty() && !base.IsEmpty()
    ensures RelativizeReduced(g, base, child)
            == if HasDots(NamesOf(base)) then Refused(NoRelativePath) else Ok(RelativePath(DotDots(|NamesOf(base)|)))
  {
    var b := NamesOf(base);
    ElementsOfValid(base);
    ElementsOfValid(child);
    assert b != [] && Clean(b[0]);
    assert b[0..] == b && Elements(child) == [""] && [""][0..] == [""];
    RelativeIsValid(b);
    assert Clean(DOTDOT);
    RelativeIsValid(DotDots(|b|));
    assert DotDots(|b|) + [] == DotDots(|b|);
  }

  lemma {:induction false} RelativizeBetween(g: char -> char, base: Path, child: Path)
    requires Valid(base) && Valid(child) && base.kind == child.kind && !child.IsEmpty() && !base.IsEmpty()
    ensures var names := RelativeNames(g, NamesOf(base), NamesOf(child));
            RelativizeReduced(g, base, child)
              == if names.Some? then Ok(RelativePath(names.value)) else Refused(NoRelativePath)
  {
    FromShared(NamesOf(base), NamesOf(child), CommonPrefix(g, NamesOf(base), NamesOf(child)));
  }

  /** The way on once `i` names are shared. */
  lemma {:induction false} FromShared(b: seq<string>, c: seq<string>, i: nat)
    requires AllClean(b) && AllClean(c) && i <= |b| && i <= |c|
    ensures RelativizeFrom(b, c, i)
            == if HasDots(b[i..]) then Refused(NoRelativePath) else Ok(RelativePath(DotDots(|b| - i) + c[i..]))
  {
    if i == |b| {
      assert b[i..] == [] && DotDots(0) + c[i..] == c[i..];
    } else {
      assert b[i..] != [] && AllClean(b[i..]) && AllClean(c[i..]);
      ClimbOverNames(b[i..], c[i..]);
    }
  }

  lemma ClimbOverNames(b: seq<string>, c: seq<string>)
    requires b != [] && AllClean(b) && AllClean(c)
    ensures ClimbOver(b, c) == if HasDots(b) then Refused(NoRelativePath) else Ok(RelativePath(DotDots(|b|) + c))
  {
    RelativeIsValid(b);
    ClimbText(|b|, c);
  }

  lemma ClimbText(n: nat, rest: seq<string>)
    requires AllClean(rest)
    ensures Parse(Join(DotDots(n) + (if RelativePath(rest).IsEmpty() then [] else rest), SEP))
            == RelativePath(DotDots(n) + rest)
  {
    assert Clean(DOTDOT);
    RelativeIsValid(rest);
    RelativeIsValid(DotDots(n) + rest);
    assert (if RelativePath(rest).IsEmpty() then [] else rest) == rest;
  }

  lemma RelativizeReducedMeaning(g: char -> char, base: Path, child: Path)
    requires Valid(base) && Valid(child) && base.kind == child.kind
    ensures var names := RelativeNames(g, NamesOf(base), NamesOf(child));
            RelativizeReduced(g, base, child)
              == if names.Some? then Ok(RelativePath(names.value)) else Refused(NoRelativePath)
  {
    var b, c := NamesOf(base), NamesOf(child);
    ElementsOfValid(base);
    ElementsOfValid(child);
    if base.IsEmpty() {
      RelativizeFromEmpty(g, base, child);
      assert DotDots(0) + c[0..] == c;
    } else if child.IsEmpty() {
      RelativizeToEmpty(g, base, child);
      assert b[0..] == b && c[0..] == [] && DotDots(|b|) + [] == DotDots(|b|);
    } else {
      RelativizeBetween(g, base, child);
    }
  }

  lemma NoDotsIsReduced(p: Path)
    requires Valid(p) && !HasDots(Elements(p))
    ensures AllOrdinary(NamesOf(p)) && Reduced(p) == NamesOf(p) && Normalize(p) == p
  {
    ElementsOfValid(p);
    var names := NamesOf(p);
    forall i | 0 <= i < |names| ensures Ordinary(names[i]) {
      assert Elements(p)[i] == names[i];
    }
    assert [] + names == names;
    ReduceOfNormal(Clamped(p.kind), [], names);
    Rebuild(p);
  }

  /** All branches of `relativize` past its guards compute one thing: the climb and descent between
      the reduced names. */
  lemma RelativizeMeaning(f: Fold, p: Path, q: Path)
    requires Valid(p) && Valid(q) && p.kind == q.kind && Same(f.Caseless(), p.root, q.root)
    requires !Equal(f.up, p, q) && !p.IsEmpty()
    ensures var names := RelativeNames(f.up, Reduced(p), Reduced(q));
            Relativize(f, p, q) == if names.Some? then Ok(RelativePath(names.value)) else Refused(NoRelativePath)
  {
    NormalizeIsValid(p);
    NormalizeIsValid(q);
    if HasDots(Elements(p)) || HasDots(Elements(q)) {
      RelativizeReducedMeaning(f.up, Normalize(p), Normalize(q));
    } else {
      NoDotsIsReduced(p);
      NoDotsIsReduced(q);
      RelativizeReducedMeaning(f.up, p, q);
    }
  }

  lemma {:induction false} ClimbCancels(clamp: bool, stack: seq<string>, names: seq<string>)
    requires AllOrdinary(names)
    ensures Reduce(clamp, stack, names + DotDots(|names|)) == stack
    decreases |names|
  {
    if names == [] {
      assert names + DotDots(0) == [];
    } else {
      var n := |names|;
      DotDotsAtEnd(n - 1);
      var whole := names + DotDots(n);
      assert whole == [names[0]] + (names[1..] + DotDots(n - 1)) + [DOTDOT];
      ReduceAppend(clamp, stack, [names[0]] + (names[1..] + DotDots(n - 1)), [DOTDOT]);
      ReduceAppend(clamp, stack, [names[0]], names[1..] + DotDots(n - 1));
      assert Reduce(clamp, stack, [names[0]]) == stack + [names[0]];
      ClimbCancels(clamp, stack + [names[0]], names[1..]);
      assert Reduce(clamp, stack + [names[0]], [DOTDOT]) == stack;
    }
  }

  lemma {:induction false} DotDotsAtEnd(n: nat)
    ensures DotDots(n + 1) == DotDots(n) + [DOTDOT]
  {
    if n > 0 {
      DotDotsAtEnd(n - 1);
    }
  }

  lemma NotHasDots(names: seq<string>)
    ensures !HasDots(names) <==> AllOrdinary(names)
  {
  }

  lemma ClimbBack(clamp: bool, base: seq<string>, i: nat, rest: seq<string>)
    requires i <= |base| && AllOrdinary(base[i..])
    ensures Reduce(clamp, [], base + (DotDots(|base| - i) + rest)) == Reduce(clamp, [], base[..i] + rest)
  {
    var up := DotDots(|base| - i);
    assert base + (up + rest) == (base[..i] + (base[i..] + up)) + rest;
    ReduceAppend(clamp, [], base[..i] + (base[i..] + up), rest);
    ReduceAppend(clamp, [], base[..i], base[i..] + up);
    ClimbCancels(clamp, Reduce(clamp, [], base[..i]), base[i..]);
    ReduceAppend(clamp, [], base[..i], rest);
  }

  lemma SameNamesConcat(g: char -> char, a: seq<string>, b: seq<string>, c: seq<string>)
    requires SameNames(g, a, b)
    ensures SameNames(g, a + c, b + c)
  {
  }

  lemma ReducesToNormal(g: char -> char, clamp: bool, names: seq<string>, child: seq<string>)
    requires KeepsStructure(g) && Normal(clamp, child) && SameNames(g, names, child)
    ensures SameNames(g, Reduce(clamp, [], names), child)
  {
    ReduceRespectsFold(g, clamp, [], [], names, child);
    assert [] + child == child;
    ReduceOfNormal(clamp, [], child);
  }

  /** Climbing and descending from a reduced list leads to the other, up to case. */
  lemma RelativeNamesLead(g: char -> char, clamp: bool, base: seq<string>, child: seq<string>)
    requires KeepsStructure(g) && Normal(clamp, child)
    requires RelativeNames(g, base, child).Some?
    ensures SameNames(g, Reduce(clamp, [], base + RelativeNames(g, base, child).value), child)
  {
    var i := CommonPrefix(g, base, child);
    NotHasDots(base[i..]);
    ClimbBack(clamp, base, i, child[i..]);
    SameNamesConcat(g, base[..i], child[..i], child[i..]);
    assert child[..i] + child[i..] == child;
    ReducesToNormal(g, clamp, base[..i] + child[i..], child);
  }

  lemma SameRefl(g: char -> char, s: string)
    ensures Same(g, s, s)
  {
  }

  /** The answer `r` leads from `p` to `q`: name by name up to case always, and as an equal path exactly
      when the two roots agree under the folding of `equals`. */
  ghost predicate LeadsTo(f: Fold, p: Path, r: Path, q: Path)
    requires Valid(p) && Valid(q)
  {
    && Valid(r) && r.kind.Relative? && Valid(Resolve(f, p, r))
    && SameNames(f.up, NamesOf(Normalize(Resolve(f, p, r))), NamesOf(Normalize(q)))
    && (Equal(f.up, Normalize(Resolve(f, p, r)), Normalize(q)) <==> Same(f.up, p.root, q.root))
  }

  lemma LeadsByNames(f: Fold, p: Path, r: Path, q: Path)
    requires Valid(p) && Valid(q) && Valid(r) && r.kind.Relative? && |p.root| == |q.root|
    requires SameNames(f.up, Reduce(Clamped(p.kind), [], NamesOf(p) + NamesOf(r)), Reduced(q))
    ensures LeadsTo(f, p, r, q)
  {
    ResolveRelative(f, p, r);
    NormalizeIsValid(Resolve(f, p, r));
    NormalizeIsValid(q);
    EqualFromShape(f.up, Normalize(Resolve(f, p, r)), Normalize(q));
  }

  lemma RelativizeEqualPaths(f: Fold, p: Path, q: Path)
    requires Valid(p) && Valid(q) && Equal(f.up, p, q)
    ensures LeadsTo(f, p, EMPTY, q)
  {
    assert Valid(EMPTY) && NamesOf(EMPTY) == [];
    EqualShape(f.up, p, q);
    assert NamesOf(p) + [] == NamesOf(p);
    ReduceRespectsFold(f.up, Clamped(p.kind), [], [], NamesOf(p), NamesOf(q));
    LeadsByNames(f, p, EMPTY, q);
  }

  lemma RelativizeOtherPaths(f: Fold, p: Path, q: Path)
    requires Valid(p) && Valid(q) && !Equal(f.up, p, q) && !p.IsEmpty() && Relativize(f, p, q).Ok?
    ensures LeadsTo(f, p, Relativize(f, p, q).value, q)
  {
    RelativizeMeaning(f, p, q);
    ReducedIsClean(p);
    ReducedIsClean(q);
    var names := RelativeNames(f.up, Reduced(p), Reduced(q)).value;
    RelativeIsValid(names);
    RelativeNamesLead(f.up, Clamped(p.kind), Reduced(p), Reduced(q));
    ReduceHead(Clamped(p.kind), NamesOf(p), names);
    LeadsByNames(f, p, RelativePath(names), q);
  }

  /** `relativize` is right: whenever it returns, resolving its answer and normalising gives the
      normal form of the target. (The guard compares roots by the coarser `equalsIgnoreCase`, which is
      why the roots appear in `LeadsTo`.) */
  lemma RelativizeCorrect(f: Fold, p: Path, q: Path)
    requires Valid(p) && Valid(q) && Relativize(f, p, q).Ok?
    ensures LeadsTo(f, p, Relativize(f, p, q).value, q)
    ensures p.kind == q.kind && Same(f.Caseless(), p.root, q.root)
  {
    RelativizeRefuses(f, p, q);
    if Equal(f.up, p, q) {
      RelativizeEqualPaths(f, p, q);
    } else if p.IsEmpty() {
      ElementsOfValid(p);
      assert NamesOf(p) + NamesOf(q) == NamesOf(q);
      forall s: string ensures Same(f.up, s, s) {
      }
      LeadsByNames(f, p, q, q);
    } else {
      RelativizeOtherPaths(f, p, q);
    }
  }

  /** A stack that starts with `k` climbs keeps them. */
  lemma {:induction false} ReduceKeepsUps(stack: seq<string>, names: seq<string>, k: nat)
    requires k <= |stack| && forall i | 0 <= i < k :: stack[i] == DOTDOT
    ensures var r := Reduce(false, stack, names); k <= |r| && forall i | 0 <= i < k :: r[i] == DOTDOT
    decreases |names|
  {
    if names != [] {
      ReduceKeepsUps(Push(false, stack, names[0]), names[1..], k);
    }
  }

  lemma CommonUps(g: char -> char, base: seq<string>, child: seq<string>, k: nat)
    requires k <= |base| && k <= |child|
    requires forall i | 0 <= i < k :: base[i] == DOTDOT && child[i] == DOTDOT
    ensures k <= CommonPrefix(g, base, child)
  {
    var i := CommonPrefix(g, base, child);
    if i < k {
      SameRefl(g, base[i]);
    }
  }

  /** Names can lead from one reduced list to another exactly when the first does not climb higher. */
  lemma NoWayAround(g: char -> char, base: seq<string>, child: seq<string>, names: seq<string>)
    requires KeepsStructure(g) && Normal(false, base)
    requires SameNames(g, Reduce(false, [], base + names), child)
    ensures RelativeNames(g, base, child).Some?
  {
    var k := Ups(base);
    assert [] + base == base;
    ReduceOfNormal(false, [], base);
    ReduceAppend(false, [], base, names);
    ReduceKeepsUps(base, names, k);
    var r := Reduce(false, [], base + names);
    forall i | 0 <= i < k ensures child[i] == DOTDOT {
      SameKeepsDots(g, r[i], child[i]);
    }
    CommonUps(g, base, child, k);
    OrdinaryTail(base, CommonPrefix(g, base, child));
    NotHasDots(base[CommonPrefix(g, base, child)..]);
  }

  lemma NamesAreFound(g: char -> char, clamp: bool, names: seq<string>, child: seq<string>, extra: seq<string>)
    requires KeepsStructure(g) && SameNames(g, Reduce(clamp, [], names + extra), child)
    ensures RelativeNames(g, Reduce(clamp, [], names), child).Some?
  {
    var base := Reduce(clamp, [], names);
    ReduceIsNormal(clamp, [], names);
    ReduceHead(clamp, names, extra);
    if clamp {
      assert base != [] ==> base[0] != DOTDOT;
      OrdinaryTail(base, CommonPrefix(g, base, child));
      NotHasDots(base[CommonPrefix(g, base, child)..]);
    } else {
      NoWayAround(g, base, child, extra);
    }
  }

  lemma AnAnswerIsFound(f: Fold, p: Path, q: Path, r: Path)
    requires Valid(p) && Valid(q) && p.kind == q.kind && Same(f.Caseless(), p.root, q.root)
    requires Valid(r) && r.kind.Relative? && SameNames(f.up, Reduced(Resolve(f, p, r)), Reduced(q))
    ensures Relativize(f, p, q).Ok?
  {
    if !Equal(f.up, p, q) && !p.IsEmpty() {
      RelativizeMeaning(f, p, q);
      ResolveRelative(f, p, r);
      NamesAreFound(f.up, Clamped(p.kind), NamesOf(p), Reduced(q), NamesOf(r));
    }
  }

  /** `relativize` refuses two paths of one type and root only when it has to: an answer is returned
      if and only if some relative path leads from the first to the second. */
  lemma RelativizeRefusesOnlyTheHopeless(f: Fold, p: Path, q: Path)
    requires Valid(p) && Valid(q) && p.kind == q.kind && Same(f.Caseless(), p.root, q.root)
    ensures Relativize(f, p, q).Ok? <==>
            exists r :: Valid(r) && r.kind.Relative?
                        && SameNames(f.up, Reduced(Resolve(f, p, r)), Reduced(q))
  {
    if Relativize(f, p, q).Ok? {
      TheAnswerLeads(f, p, q);
    }
    forall r | Valid(r) && r.kind.Relative? && SameNames(f.up, Reduced(Resolve(f, p, r)), Reduced(q))
      ensures Relativize(f, p, q).Ok?
    {
      AnAnswerIsFound(f, p, q, r);
    }
  }

  lemma TheAnswerLeads(f: Fold, p: Path, q: Path)
    requires Valid(p) && Valid(q) && Relativize(f, p, q).Ok?
    ensures var r := Relativize(f, p, q).value;
            Valid(r) && r.kind.Relative? && SameNames(f.up, Reduced(Resolve(f, p, r)), Reduced(q))
  {
    RelativizeCorrect(f, p, q);
    NormalizeIsValid(Resolve(f, p, Relativize(f, p, q).value));
    NormalizeIsValid(q);
  }

  /** What a caller can look at beforehand: without a root to stop at, an answer comes exactly when the
      reduced first path does not climb higher than the reduced second; under a root it always comes. */
  lemma RelativizeAnswersByClimbs(f: Fold, p: Path, q: Path)
    requires Valid(p) && Valid(q) && p.kind == q.kind && Same(f.Caseless(), p.root, q.root)
    ensures Relativize(f, p, q).Ok? <==> Clamped(p.kind) || Ups(Reduced(p)) <= Ups(Reduced(q))
  {
    ReduceIsNormal(Clamped(p.kind), [], NamesOf(p));
    ReduceIsNormal(Clamped(p.kind), [], NamesOf(q));
    if Equal(f.up, p, q) {
      EqualShape(f.up, p, q);
      ReduceRespectsFold(f.up, Clamped(p.kind), [], [], NamesOf(p), NamesOf(q));
      SameUps(f.up, Reduced(p), Reduced(q));
    } else if p.IsEmpty() {
      ElementsOfValid(p);
    } else {
      RelativizeMeaning(f, p, q);
      ClimbsDecide(f.up, Clamped(p.kind), Reduced(p), Reduced(q));
    }
  }

  /** When there is no answer, and why: for all paths, the types are compared first, then the roots without
      regard to case, and then the climbs. */
  lemma RelativizeRefuses(f: Fold, p: Path, q: Path)
    requires Valid(p) && Valid(q)
    ensures Relativize(f, p, q) == Refused(DifferentType) <==> p.kind != q.kind
    ensures Relativize(f, p, q) == Refused(DifferentRoot) <==> p.kind == q.kind && !Same(f.Caseless(), p.root, q.root)
    ensures Relativize(f, p, q) == Refused(NoRelativePath) <==>
            p.kind == q.kind && Same(f.Caseless(), p.root, q.root)
            && !Clamped(p.kind) && Ups(Reduced(p)) > Ups(Reduced(q))
  {
    if Equal(f.up, p, q) {
      EqualShape(f.up, p, q);
      UpImpliesCaseless(f, p.root, q.root);
    }
    if p.kind == q.kind && Same(f.Caseless(), p.root, q.root) {
      RelativizeAnswersByClimbs(f, p, q);
      PastTheGuards(f, p, q);
    }
  }

  lemma PastTheGuards(f: Fold, p: Path, q: Path)
    requires Valid(p) && Valid(q) && p.kind == q.kind && Same(f.Caseless(), p.root, q.root)
    ensures Relativize(f, p, q).Ok? || Relativize(f, p, q) == Refused(NoRelativePath)
  {
    if !Equal(f.up, p, q) && !p.IsEmpty() {
      RelativizeMeaning(f, p, q);
    }
  }

  lemma SameUps(g: char -> char, a: seq<string>, b: seq<string>)
    requires KeepsStructure(g) && SameNames(g, a, b)
    ensures Ups(a) == Ups(b)
  {
    var i, j := Ups(a), Ups(b);
    if i < j {
      SameKeepsDots(g, a[i], b[i]);
    } else if j < i {
      SameKeepsDots(g, a[j], b[j]);
    }
  }

  lemma ClimbsDecide(g: char -> char, clamp: bool, base: seq<string>, child: seq<string>)
    requires KeepsStructure(g) && Normal(clamp, base) && Normal(clamp, child)
    ensures RelativeNames(g, base, child).Some? <==> clamp || Ups(base) <= Ups(child)
  {
    var i, k := CommonPrefix(g, base, child), Ups(base);
    NotHasDots(base[i..]);
    if clamp || k <= Ups(child) {
      CommonUps(g, base, child, k);
      OrdinaryTail(base, i);
    } else {
      var l := Ups(child);
      if i > l {
        assert Same(g, base[..i][l], child[..i][l]);
        SameKeepsDots(g, base[l], child[l]);
      }
      assert base[i..][0] == DOTDOT;
    }
  }

  lemma {:induction false} PrefixIsCommon(g: char -> char, a: seq<string>, b: seq<string>)
    ensures CommonPrefix(g, a, a + b) == |a|
  {
    if a != [] {
      assert (a + b)[1..] == a[1..] + b;
      SameRefl(g, a[0]);
      PrefixIsCommon(g, a[1..], b);
    }
  }

  lemma NormalAppend(clamp: bool, a: seq<string>, b: seq<string>)
    requires Normal(clamp, a) && AllOrdinary(b)
    ensures Normal(clamp, a + b)
  {
    var s := a + b;
    forall i | 0 <= i < |s| ensures s[i] != DOT && (s[i] == DOTDOT ==> !clamp && i < |a|) {
      assert s[i] == if i < |a| then a[i] else b[i - |a|];
    }
  }

  lemma AppendOrdinary(g: char -> char, clamp: bool, names: seq<string>, b: seq<string>)
    requires AllOrdinary(b)
    ensures var a := Reduce(clamp, [], names);
            Reduce(clamp, [], names + b) == a + b && RelativeNames(g, a, a + b) == Some(b)
  {
    var a := Reduce(clamp, [], names);
    ReduceIsNormal(clamp, [], names);
    ReduceHead(clamp, names, b);
    NormalAppend(clamp, a, b);
    assert [] + (a + b) == a + b;
    ReduceOfNormal(clamp, [], a + b);
    PrefixIsCommon(g, a, b);
    assert a[|a|..] == [] && (a + b)[|a|..] == b && DotDots(0) + b == b;
  }

  /** `relativize` undoes `resolve` on ordinary names, to the letter, whatever dots the first path has. */
  lemma RelativizeUndoesResolve(f: Fold, p: Path, q: Path)
    requires Valid(p) && Valid(q) && q.kind.Relative? && AllOrdinary(NamesOf(q))
    ensures Valid(Resolve(f, p, q)) && Relativize(f, p, Resolve(f, p, q)) == Ok(q)
  {
    var t := Resolve(f, p, q);
    ResolveRelative(f, p, q);
    ElementsOfValid(q);
    SameRefl(f.up, p.path);
    if NamesOf(q) != [] {
      assert |t.path| > |p.path|;
      SameRefl(f.Caseless(), p.root);
      if !p.IsEmpty() {
        RelativizeMeaning(f, p, t);
        AppendOrdinary(f.up, Clamped(p.kind), NamesOf(p), NamesOf(q));
        RelativeIsValid(NamesOf(q));
        Rebuild(q);
      }
    }
  }
}
