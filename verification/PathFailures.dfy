/** Inputs on which the path operations fall short of their laws. */
module PathFailures {
  import opened Text
  import opened CaseFold
  import opened Paths
  import opened PathAlgebra
  import opened Associativity

  // ----- Roots that `relativize` takes for one and `equals` tells apart

  /** The small part of Java's tables that matters: `i` has the capital `I`, and so has the dotted capital
      U+0130 the small letter `i`, but no capital other than itself. */
  function DottedUp(c: char): char { if c == 'i' then 'I' else c }

  function DottedLow(c: char): char { if c == 'I' || c == '\U{130}' then 'i' else c }

  const DOTTED: Fold := Folding(DottedUp, DottedLow)

  const PLAIN_SHARE := ["", "", "i", "s", ""]
  const DOTTED_SHARE := ["", "", "\U{130}", "s", ""]

  lemma SharesAreRoots()
    ensures IsUncRoot(Join(PLAIN_SHARE, SEP)) && IsUncRoot(Join(DOTTED_SHARE, SEP))
  {
    SplitOfJoin(PLAIN_SHARE, SEP);
    SplitOfJoin(DOTTED_SHARE, SEP);
  }

  lemma SharesInText()
    ensures Join(PLAIN_SHARE, SEP) == "\\\\i\\s\\" && Join(DOTTED_SHARE, SEP) == "\\\\\U{130}\\s\\"
  {
    assert PLAIN_SHARE[1..] == ["", "i", "s", ""] && DOTTED_SHARE[1..] == ["", "\U{130}", "s", ""];
    assert ["", "i", "s", ""][1..] == ["i", "s", ""] && ["", "\U{130}", "s", ""][1..] == ["\U{130}", "s", ""];
    assert ["i", "s", ""][1..] == ["s", ""] && ["\U{130}", "s", ""][1..] == ["s", ""] && ["s", ""][1..] == [""];
  }

  /** There is an answer, and resolving it does not give a path equal to the target. */
  ghost predicate Crosses(f: Fold, p: Path, q: Path) {
    && Valid(p) && Valid(q) && Relativize(f, p, q).Ok?
    && var r := Relativize(f, p, q).value;
       Valid(r) && Valid(Resolve(f, p, r)) && !Equal(f.up, Normalize(Resolve(f, p, r)), Normalize(q))
  }

  lemma SharesCross(f: Fold, a: string, b: string, names: seq<string>, others: seq<string>)
    requires IsUncRoot(a) && IsUncRoot(b) && Same(f.Caseless(), a, b) && !Same(f.up, a, b)
    requires AllClean(names) && AllClean(others)
    ensures Crosses(f, Make(Unc, a, names), Make(Unc, b, others))
  {
    var p, q := Make(Unc, a, names), Make(Unc, b, others);
    MakeNames(Unc, a, names);
    MakeNames(Unc, b, others);
    RelativizeAnswersByClimbs(f, p, q);
    RelativizeCorrect(f, p, q);
  }

  /** From `\\i\s\a` to `b` on the share whose host is the dotted capital. */
  lemma RelativizeCrossesRoots()
    ensures Crosses(DOTTED, Make(Unc, "\\\\i\\s\\", ["a"]), Make(Unc, "\\\\\U{130}\\s\\", ["b"]))
  {
    var a, b := Join(PLAIN_SHARE, SEP), Join(DOTTED_SHARE, SEP);
    SharesAreRoots();
    SharesInText();
    SharesDiffer(a, b);
    SharesCross(DOTTED, a, b, ["a"], ["b"]);
  }

  lemma SharesDiffer(a: string, b: string)
    requires a == "\\\\i\\s\\" && b == "\\\\\U{130}\\s\\"
    ensures Same(DOTTED.Caseless(), a, b) && !Same(DOTTED.up, a, b)
  {
    assert a[2] == 'i' && b[2] == '\U{130}' && DottedUp(a[2]) != DottedUp(b[2]);
  }

  // ----- Drives

  const DRIVE := "C:"
  const DRIVE_ROOT := "C:\\"

  lemma DrivePaths(f: Fold, names: seq<string>, others: seq<string>)
    requires AllClean(names) && AllClean(others)
    ensures var p, r := Make(Absolute, DRIVE_ROOT, names), Make(DriveRelative, DRIVE, others);
            Valid(p) && NamesOf(p) == names && Valid(r) && NamesOf(r) == others && SameDrive(f, p, r)
  {
    MakeNames(Absolute, DRIVE_ROOT, names);
    MakeNames(DriveRelative, DRIVE, others);
    assert DRIVE_ROOT[..2] == DRIVE;
  }

  lemma OnDrive(f: Fold, names: seq<string>, x: string)
    requires AllClean(names) && Clean(x)
    ensures Resolve(f, Make(Absolute, DRIVE_ROOT, names), Make(DriveRelative, DRIVE, [x]))
         == Make(Absolute, DRIVE_ROOT, names + [x])
  {
    DrivePaths(f, names, [x]);
    ResolveDriveRelative(f, Make(Absolute, DRIVE_ROOT, names), Make(DriveRelative, DRIVE, [x]));
  }

  /** `C:\a`, `b` and `C:x`, for any names: step by step `C:\a\b\x`, at once `C:\a\x`. */
  lemma ResolveForgetsMiddle(f: Fold, a: string, b: string, x: string)
    requires Clean(a) && Clean(b) && Clean(x)
    ensures var p, q, r := Make(Absolute, DRIVE_ROOT, [a]), Make(Relative, "", [b]), Make(DriveRelative, DRIVE, [x]);
            && Resolve(f, Resolve(f, p, q), r) == Make(Absolute, DRIVE_ROOT, [a] + [b] + [x])
            && Resolve(f, p, Resolve(f, q, r)) == Make(Absolute, DRIVE_ROOT, [a] + [x])
            && Resolve(f, Resolve(f, p, q), r) != Resolve(f, p, Resolve(f, q, r))
  {
    DrivePaths(f, [a], [x]);
    MakeNames(Relative, "", [b]);
    ResolveAssociative(f, Make(Absolute, DRIVE_ROOT, [a]), Make(Relative, "", [b]), Make(DriveRelative, DRIVE, [x]));
    ResolveRelative(f, Make(Absolute, DRIVE_ROOT, [a]), Make(Relative, "", [b]));
    ResolveDriveRelative(f, Make(Relative, "", [b]), Make(DriveRelative, DRIVE, [x]));
    OnDrive(f, [a], x);
    OnDrive(f, [a] + [b], x);
  }

  const OTHER_ROOT := "D:\\"

  /** `C:\a`, `D:\` and `C:x`, for any names: step by step `C:x`, at once `C:\a\x`. The middle path has no
      names. */
  lemma ResolveForgetsDrive(f: Fold, a: string, x: string)
    requires Clean(a) && Clean(x) && f.Caseless()('C') != f.Caseless()('D')
    ensures var p, q := Make(Absolute, DRIVE_ROOT, [a]), Make(Absolute, OTHER_ROOT, []);
            var r := Make(DriveRelative, DRIVE, [x]);
            && Resolve(f, Resolve(f, p, q), r) == r
            && Resolve(f, p, Resolve(f, q, r)) == Make(Absolute, DRIVE_ROOT, [a] + [x])
            && Resolve(f, Resolve(f, p, q), r) != Resolve(f, p, Resolve(f, q, r))
  {
    var q, r := Make(Absolute, OTHER_ROOT, []), Make(DriveRelative, DRIVE, [x]);
    DrivePaths(f, [a], [x]);
    assert OTHER_ROOT[..2] == "D:";
    MakeNames(Absolute, OTHER_ROOT, []);
    ElementsOfValid(q);
    assert OTHER_ROOT[..2][0] == 'D' && DRIVE[0] == 'C';
    ResolveDriveRelative(f, q, r);
    OnDrive(f, [a], x);
  }

  /** `C:a`, `\b` and `C:x`, for any names: step by step `C:\b\x`, at once `C:x`. */
  lemma ResolveHangsOnce(f: Fold, a: string, b: string, x: string)
    requires Clean(a) && Clean(b) && Clean(x)
    ensures var p, q := Make(DriveRelative, DRIVE, [a]), Make(DirectoryRelative, SLASH, [b]);
            var r := Make(DriveRelative, DRIVE, [x]);
            && Resolve(f, Resolve(f, p, q), r) == Make(Absolute, DRIVE_ROOT, [b] + [x])
            && Resolve(f, p, Resolve(f, q, r)) == r
            && Resolve(f, Resolve(f, p, q), r) != Resolve(f, p, Resolve(f, q, r))
  {
    var p, q := Make(DriveRelative, DRIVE, [a]), Make(DirectoryRelative, SLASH, [b]);
    var r := Make(DriveRelative, DRIVE, [x]);
    DrivePaths(f, [b], [a]);
    DrivePaths(f, [b], [x]);
    HungOnDrive(f, a, b);
    ResolveDriveRelative(f, q, r);
    ResolveDriveRelative(f, p, r);
    OnDrive(f, [b], x);
  }

  lemma HungOnDrive(f: Fold, a: string, b: string)
    requires Clean(a) && Clean(b)
    ensures var p, q := Make(DriveRelative, DRIVE, [a]), Make(DirectoryRelative, SLASH, [b]);
            Valid(q) && Resolve(f, p, q) == Make(Absolute, DRIVE_ROOT, [b])
  {
    DrivePaths(f, [b], [a]);
    MakeNames(DirectoryRelative, SLASH, [b]);
    ResolveDirectoryRelative(f, Make(DriveRelative, DRIVE, [a]), Make(DirectoryRelative, SLASH, [b]));
    assert DRIVE + SLASH == DRIVE_ROOT;
  }

  /** `C:\a` and `C:`, for any name: the answer has a separator too many. */
  lemma BareDriveLeavesSeparator(f: Fold, a: string)
    requires Clean(a)
    ensures var p, r := Make(Absolute, DRIVE_ROOT, [a]), Make(DriveRelative, DRIVE, []);
            Resolve(f, p, r).path == DRIVE_ROOT + a + SLASH && !Valid(Resolve(f, p, r))
  {
    DrivePaths(f, [a], []);
    ResolveDriveRelative(f, Make(Absolute, DRIVE_ROOT, [a]), Make(DriveRelative, DRIVE, []));
  }
}
