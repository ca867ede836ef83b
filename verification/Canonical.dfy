/** Absolute and canonical paths: `toAbsolutePath`, and the fallback of `toRealPath` that the sandbox
    always takes. */
module Canonical {
  import opened Text
  import opened CaseFold
  import opened Names
  import opened Paths
  import opened PathAlgebra

  /** What a path consults beside itself: the case tables, the default directory, and the working
      directory of each drive by its upper-cased letter, `None` when Windows cannot tell it. */
  datatype FileSystem = FileSystem(fold: Fold, dir: Path, driveDir: char -> Option<Path>)

  ghost predicate FsOk(fs: FileSystem) {
    && Valid(fs.dir) && fs.dir.IsAbsolute()
    && forall c {:trigger fs.driveDir(c)} ::
         fs.driveDir(c).Some? ==> Valid(fs.driveDir(c).value) && fs.driveDir(c).value.kind.Absolute?
  }

  predicate IsSameDrive(f: Fold, root1: string, root2: string)
    requires root1 != "" && root2 != ""
  {
    f.up(root1[0]) == f.up(root2[0])
  }

  /** The text of `getAbsolutePath`; `None` is the `WindowsException` for an unknown drive. */
  function AbsoluteText(fs: FileSystem, p: Path): Option<string>
    requires Valid(p) && fs.dir.root != ""
  {
    var dd := fs.dir.path;
    if p.IsAbsolute() then Some(p.path)
    else if p.kind.Relative? then
      if p.IsEmpty() then Some(dd)
      else if EndsWithSep(dd) then Some(dd + p.path) else Some(dd + SLASH + p.path)
    else if p.kind.DirectoryRelative? then Some(fs.dir.root + p.path[1..])
    else
      var remaining := p.path[|p.root|..];
      if IsSameDrive(fs.fold, p.root, fs.dir.root) then
        if remaining == "" then Some(dd)
        else if EndsWithSep(dd) then Some(dd + remaining) else Some(dd + SLASH + remaining)
      else match fs.driveDir(fs.fold.up(p.root[0]))
        case None => None
        case Some(wd) =>
          if EndsWithSep(wd.path) then Some(wd.path + remaining)
          else if remaining == "" then Some(wd.path) else Some(wd.path + SLASH + remaining)
  }

  function ToAbsolute(fs: FileSystem, p: Path): Option<Path>
    requires Valid(p) && fs.dir.root != ""
  {
    if p.IsAbsolute() then Some(p)
    else match AbsoluteText(fs, p)
      case None => None
      case Some(text) => Some(Parse(text))
  }

  lemma DirHasRoot(fs: FileSystem)
    requires FsOk(fs)
    ensures fs.dir.root != "" && Clamped(fs.dir.kind)
  {
    assert Split("", SEP) == [""];
  }

  /** The directory a path that is not absolute is counted from. */
  function BaseDir(fs: FileSystem, p: Path): Option<Path>
    requires Valid(p) && fs.dir.root != ""
  {
    if p.kind.DirectoryRelative? then Some(Path(fs.dir.kind, fs.dir.root, fs.dir.root))
    else if p.kind.DriveRelative? && !IsSameDrive(fs.fold, p.root, fs.dir.root) then
      fs.driveDir(fs.fold.up(p.root[0]))
    else Some(fs.dir)
  }

  lemma HangsNames(base: Path, rest: string, names: seq<string>)
    requires Valid(base) && base.IsAbsolute() && AllClean(names) && rest == Join(names, SEP)
    ensures var m := Make(base.kind, base.root, NamesOf(base) + names);
            Valid(m) && NamesOf(m) == NamesOf(base) + names && Parse(m.path) == m
            && m.path == if rest == "" then base.path
                         else if EndsWithSep(base.path) then base.path + rest else base.path + SLASH + rest
  {
    var m := Make(base.kind, base.root, NamesOf(base) + names);
    MakeNames(base.kind, base.root, NamesOf(base) + names);
    ParseRebuilds(m);
    CleanJoin(names);
    PathEnd(base);
    if names == [] {
      assert NamesOf(base) + names == NamesOf(base);
      Rebuild(base);
    } else {
      AppendNames(base, names);
      if NamesOf(base) == [] {
        assert base.path + "" == base.path;
      }
    }
  }

  lemma RootedMeaning(fs: FileSystem, p: Path)
    requires FsOk(fs) && Valid(p) && p.kind.DirectoryRelative? && fs.dir.root != ""
    ensures var base := Make(fs.dir.kind, fs.dir.root, []);
            BaseDir(fs, p) == Some(base) && Valid(base)
            && ToAbsolute(fs, p) == Some(Make(base.kind, base.root, NamesOf(base) + NamesOf(p)))
  {
    Rebuild(p);
    var base, rest := Make(fs.dir.kind, fs.dir.root, []), Join(NamesOf(p), SEP);
    MakeNames(fs.dir.kind, fs.dir.root, []);
    assert base.path == fs.dir.root && p.path[1..] == rest;
    PathEnd(base);
    assert base.path + "" == base.path;
    HangsNames(base, rest, NamesOf(p));
  }

  lemma HangingMeaning(fs: FileSystem, p: Path)
    requires FsOk(fs) && Valid(p) && (p.kind.Relative? || p.kind.DriveRelative?) && fs.dir.root != ""
    requires BaseDir(fs, p).Some?
    ensures var base := BaseDir(fs, p).value;
            Valid(base) && ToAbsolute(fs, p) == Some(Make(base.kind, base.root, NamesOf(base) + NamesOf(p)))
  {
    Rebuild(p);
    var base, rest := BaseDir(fs, p).value, Join(NamesOf(p), SEP);
    assert p.path[|p.root|..] == rest;
    HangsNames(base, rest, NamesOf(p));
    assert base.path + "" == base.path;
  }

  /** `toAbsolutePath` hangs the names of a path under the directory it is counted from. */
  lemma ToAbsoluteMeaning(fs: FileSystem, p: Path)
    requires FsOk(fs) && Valid(p)
    ensures fs.dir.root != ""
    ensures p.IsAbsolute() ==> ToAbsolute(fs, p) == Some(p)
    ensures !p.IsAbsolute() && BaseDir(fs, p).None? ==> ToAbsolute(fs, p) == None
    ensures !p.IsAbsolute() && BaseDir(fs, p).Some? ==>
              var base := BaseDir(fs, p).value;
              Valid(base) && ToAbsolute(fs, p) == Some(Make(base.kind, base.root, NamesOf(base) + NamesOf(p)))
  {
    DirHasRoot(fs);
    if p.kind.DirectoryRelative? {
      RootedMeaning(fs, p);
    } else if !p.IsAbsolute() && BaseDir(fs, p).Some? {
      HangingMeaning(fs, p);
    }
  }

  /** A directory that is a place of its own, and names below it. */
  function Hung(dir: Path, p: Path): Option<Path>
    requires Valid(dir) && Valid(p)
  {
    Some(Make(dir.kind, dir.root, NamesOf(dir) + NamesOf(p)))
  }

  /** Each of the types: an absolute path stays; `x` hangs at the default directory, `\\x` at its root, and
      `D:x` at the default directory if that is on the drive D, in either case of the letter, and else at the
      working directory of D, which may be unknown. */
  lemma ToAbsoluteByType(fs: FileSystem, p: Path)
    requires FsOk(fs) && Valid(p)
    ensures fs.dir.root != ""
    ensures p.IsAbsolute() ==> ToAbsolute(fs, p) == Some(p)
    ensures p.kind.Relative? ==> ToAbsolute(fs, p) == Hung(fs.dir, p)
    ensures p.kind.DirectoryRelative? ==> ToAbsolute(fs, p) == Some(Make(fs.dir.kind, fs.dir.root, NamesOf(p)))
    ensures p.kind.DriveRelative? && fs.fold.up(p.root[0]) == fs.fold.up(fs.dir.root[0]) ==>
              ToAbsolute(fs, p) == Hung(fs.dir, p)
    ensures p.kind.DriveRelative? && fs.fold.up(p.root[0]) != fs.fold.up(fs.dir.root[0]) ==>
              var wd := fs.driveDir(fs.fold.up(p.root[0]));
              ToAbsolute(fs, p) == if wd.None? then None else Hung(wd.value, p)
  {
    ToAbsoluteMeaning(fs, p);
    if p.kind.DirectoryRelative? {
      MakeNames(fs.dir.kind, fs.dir.root, []);
      RootedMeaning(fs, p);
      assert [] + NamesOf(p) == NamesOf(p);
    }
  }

  /** What the system says of a drive is on that drive. */
  ghost predicate DrivesKnown(fs: FileSystem) {
    forall c {:trigger fs.driveDir(c)} | fs.driveDir(c).Some? && fs.driveDir(c).value.root != "" ::
      fs.fold.up(fs.driveDir(c).value.root[0]) == c
  }

  /** Then an absolute path made of `D:x` is on the drive D. */
  lemma StaysOnDrive(fs: FileSystem, p: Path)
    requires FsOk(fs) && DrivesKnown(fs) && Valid(p) && p.kind.DriveRelative?
    ensures fs.dir.root != ""
    ensures ToAbsolute(fs, p).Some? ==>
              var root := ToAbsolute(fs, p).value.root; root != "" && fs.fold.up(root[0]) == fs.fold.up(p.root[0])
  {
    ToAbsoluteByType(fs, p);
  }

  lemma ToAbsoluteIsValid(fs: FileSystem, p: Path)
    requires FsOk(fs) && Valid(p)
    ensures fs.dir.root != ""
    ensures ToAbsolute(fs, p).Some? ==> Valid(ToAbsolute(fs, p).value) && ToAbsolute(fs, p).value.IsAbsolute()
  {
    ToAbsoluteMeaning(fs, p);
    if !p.IsAbsolute() && BaseDir(fs, p).Some? {
      var base := BaseDir(fs, p).value;
      MakeNames(base.kind, base.root, NamesOf(base) + NamesOf(p));
    }
  }

  /** Spellings of one path that differ in case stay so when made absolute. */
  lemma ToAbsoluteRespectsCase(fs: FileSystem, p: Path, q: Path)
    requires FsOk(fs) && Valid(p) && Valid(q) && Equal(fs.fold.up, p, q)
    ensures fs.dir.root != ""
    ensures ToAbsolute(fs, p).Some? <==> ToAbsolute(fs, q).Some?
    ensures ToAbsolute(fs, p).Some? ==> Equal(fs.fold.up, ToAbsolute(fs, p).value, ToAbsolute(fs, q).value)
  {
    DirHasRoot(fs);
    EqualShape(fs.fold.up, p, q);
    ToAbsoluteMeaning(fs, p);
    ToAbsoluteMeaning(fs, q);
    if !p.IsAbsolute() {
      assert BaseDir(fs, p) == BaseDir(fs, q);
      if BaseDir(fs, p).Some? {
        HungNamesEqual(fs.fold.up, BaseDir(fs, p).value, NamesOf(p), NamesOf(q));
      }
    }
  }

  lemma HungNamesEqual(g: char -> char, base: Path, a: seq<string>, b: seq<string>)
    requires KeepsStructure(g) && Valid(base) && AllClean(a) && AllClean(b) && SameNames(g, a, b)
    ensures Equal(g, Make(base.kind, base.root, NamesOf(base) + a), Make(base.kind, base.root, NamesOf(base) + b))
  {
    MakeNames(base.kind, base.root, NamesOf(base) + a);
    MakeNames(base.kind, base.root, NamesOf(base) + b);
    SameRefl(g, base.root);
    EqualFromShape(g, Make(base.kind, base.root, NamesOf(base) + a), Make(base.kind, base.root, NamesOf(base) + b));
  }

  // ----- The canonical form

  /** `toAbsolutePath().normalize()`: what `toRealPath` answers when real paths are denied, and the key
      of the zip file system registry and of the loader's cache. `None` is the `IOError`. */
  function CanonicalPath(fs: FileSystem, p: Path): Option<Path>
    requires Valid(p) && fs.dir.root != ""
  {
    match ToAbsolute(fs, p)
    case None => None
    case Some(a) => if |a.root| <= |a.path| then Some(Normalize(a)) else None
  }

  lemma CanonicalIsValid(fs: FileSystem, p: Path)
    requires FsOk(fs) && Valid(p)
    ensures fs.dir.root != ""
    ensures CanonicalPath(fs, p).Some? <==> ToAbsolute(fs, p).Some?
    ensures CanonicalPath(fs, p).Some? ==>
              var c := CanonicalPath(fs, p).value;
              Valid(c) && c.IsAbsolute() && Normal(true, NamesOf(c)) && c == Normalize(ToAbsolute(fs, p).value)
  {
    ToAbsoluteIsValid(fs, p);
    if ToAbsolute(fs, p).Some? {
      NormalizeIsValid(ToAbsolute(fs, p).value);
      ReducedIsClean(ToAbsolute(fs, p).value);
    }
  }

  /** Canonical paths are their own canonical form. */
  lemma CanonicalIdempotent(fs: FileSystem, p: Path)
    requires FsOk(fs) && Valid(p)
    ensures fs.dir.root != ""
    ensures CanonicalPath(fs, p).Some? ==>
              Valid(CanonicalPath(fs, p).value)
              && CanonicalPath(fs, CanonicalPath(fs, p).value) == CanonicalPath(fs, p)
  {
    CanonicalIsValid(fs, p);
    ToAbsoluteIsValid(fs, p);
    if CanonicalPath(fs, p).Some? {
      NormalizeIdempotent(ToAbsolute(fs, p).value);
      ToAbsoluteMeaning(fs, CanonicalPath(fs, p).value);
    }
  }

  /** Equal paths have equal canonical forms. */
  lemma CanonicalRespectsCase(fs: FileSystem, p: Path, q: Path)
    requires FsOk(fs) && Valid(p) && Valid(q) && Equal(fs.fold.up, p, q)
    ensures fs.dir.root != ""
    ensures CanonicalPath(fs, p).Some? <==> CanonicalPath(fs, q).Some?
    ensures CanonicalPath(fs, p).Some? ==> Equal(fs.fold.up, CanonicalPath(fs, p).value, CanonicalPath(fs, q).value)
  {
    CanonicalIsValid(fs, p);
    CanonicalIsValid(fs, q);
    ToAbsoluteRespectsCase(fs, p, q);
    ToAbsoluteIsValid(fs, p);
    ToAbsoluteIsValid(fs, q);
    if CanonicalPath(fs, p).Some? {
      NormalizeRespectsCase(fs.fold.up, ToAbsolute(fs, p).value, ToAbsolute(fs, q).value);
    }
  }

  /** The canonical form identifies exactly the absolute spellings that name one place under one root. */
  lemma CanonicalIdentifiesPlaces(fs: FileSystem, p: Path, q: Path)
    requires FsOk(fs) && Valid(p) && Valid(q) && p.IsAbsolute() && q.IsAbsolute()
    ensures fs.dir.root != ""
    ensures CanonicalPath(fs, p) == CanonicalPath(fs, q) <==>
            p.root == q.root && Walk([], NamesOf(p)) == Walk([], NamesOf(q))
  {
    CanonicalIsValid(fs, p);
    CanonicalIsValid(fs, q);
    ToAbsoluteMeaning(fs, p);
    ToAbsoluteMeaning(fs, q);
    if p.root == q.root {
      SameRefl(fs.fold.up, p.root);
      SameRootsKind(fs.fold.up, p, q);
      NormalizeIsCanonical(p, q);
    }
  }

  lemma SameRootsKind(g: char -> char, p: Path, q: Path)
    requires KeepsStructure(g) && Valid(p) && Valid(q) && p.root == q.root
    ensures p.kind == q.kind
  {
    MakeNames(p.kind, p.root, []);
    MakeNames(q.kind, q.root, []);
    SameRefl(g, Make(p.kind, p.root, []).path);
    EqualShape(g, Make(p.kind, p.root, []), Make(q.kind, q.root, []));
  }

  // ----- toRealPath

  /** `toRealPath`: `answer` is the path text the operating system gives, `None` when it denies the call. */
  function RealPath(fs: FileSystem, p: Path, answer: Option<string>): Option<Path>
    requires Valid(p) && fs.dir.root != ""
  {
    match answer
    case Some(text) => Some(Parse(text))
    case None => CanonicalPath(fs, p)
  }

  /** Inside the sandbox, where every call is denied, the real path of a real path is itself, and the
      names of a real path hold no dots. */
  lemma DeniedRealPath(fs: FileSystem, p: Path)
    requires FsOk(fs) && Valid(p)
    ensures fs.dir.root != ""
    ensures RealPath(fs, p, None).Some? ==>
              var r := RealPath(fs, p, None).value;
              Valid(r) && AllOrdinary(NamesOf(r)) && RealPath(fs, r, None) == Some(r)
  {
    CanonicalIsValid(fs, p);
    CanonicalIdempotent(fs, p);
  }

  /** When the call is answered, the real path is the path that the answer spells. */
  lemma AnsweredRealPath(fs: FileSystem, p: Path, a: Path)
    requires Valid(p) && fs.dir.root != "" && Valid(a)
    ensures RealPath(fs, p, Some(a.path)) == Some(a)
  {
    ParseRebuilds(a);
  }
}
