/** When resolving a path step by step is resolving it at once. */
module Associativity {
  import opened Text
  import opened CaseFold
  import opened Paths
  import opened PathAlgebra

  /** The drive-relative path `C:...` names the drive that the drive-relative path `p` counts from. */
  predicate CountsFrom(f: Fold, p: Path, r: Path) {
    p.kind.DriveRelative? && Same(f.Caseless(), p.root, r.root)
  }

  /** What a caller can look at: the types, the drives and the names of the three paths. Only a last path that
      names a drive, or hangs at a root, can tell the two ways apart. */
  predicate Associates(f: Fold, p: Path, q: Path, r: Path)
    requires Valid(p) && Valid(q) && Valid(r)
  {
    match r.kind
    case DriveRelative =>
      if SameDrive(f, p, r) then
        match q.kind
        case Relative => NamesOf(q) == []
        case DirectoryRelative => NamesOf(q) == NamesOf(p)
        case DriveRelative => SameDrive(f, p, q) && NamesOf(q) == []
        case _ => SameDrive(f, q, r)
      else !(q.kind.DirectoryRelative? && CountsFrom(f, p, r))
    case DirectoryRelative => SameDrive(f, p, q) ==> p.root == q.root + SLASH
    case _ => true
  }

  predicate StepsAgree(f: Fold, p: Path, q: Path, r: Path)
    requires Valid(p) && Valid(q) && Valid(r)
  {
    Resolve(f, Resolve(f, p, q), r) == Resolve(f, p, Resolve(f, q, r))
  }

  /** For all paths of all five types: resolving is associative exactly then. */
  lemma ResolveAssociative(f: Fold, p: Path, q: Path, r: Path)
    requires Valid(p) && Valid(q) && Valid(r)
    ensures Resolve(f, Resolve(f, p, q), r) == Resolve(f, p, Resolve(f, q, r)) <==> Associates(f, p, q, r)
  {
    ElementsOfValid(r);
    if r.IsAbsolute() || r.IsEmpty() {
    } else {
      match q.kind {
        case Relative => ThroughRelative(f, p, q, r);
        case DirectoryRelative => ThroughRooted(f, p, q, r);
        case DriveRelative =>
          if SameDrive(f, p, q) {
            ThroughSameDrive(f, p, q, r);
          } else {
            ThroughOtherDrive(f, p, q, r);
          }
        case _ => ThroughAbsolute(f, p, q, r);
      }
    }
  }

  // ----- Results on a drive

  lemma BareDrive(f: Fold, p: Path, q: Path)
    requires Valid(p) && Valid(q) && SameDrive(f, p, q) && NamesOf(q) == [] && NamesOf(p) != []
    ensures Resolve(f, p, q) == Path(Absolute, p.root, p.path + SLASH)
  {
    PathEnd(p);
    PathEnd(q);
    ElementsOfValid(q);
    KindTests(p);
    assert p.path + SLASH + "" == p.path + SLASH;
    assert (p.path + SLASH)[..3] == p.root && p.root[..2][0] == p.path[0];
  }

  /** On its drive a drive-relative path becomes an absolute one, so it is not left as it is. */
  lemma OnDriveIsAbsolute(f: Fold, p: Path, r: Path)
    requires Valid(p) && Valid(r) && SameDrive(f, p, r)
    ensures Resolve(f, p, r).kind.Absolute? && Resolve(f, p, r).root == p.root && Resolve(f, p, r).path != ""
  {
    ResolveDriveRelative(f, p, r);
    if NamesOf(r) == [] && NamesOf(p) != [] {
      BareDrive(f, p, r);
    } else {
      ElementsOfValid(Resolve(f, p, r));
    }
  }

  /** Two directories below one root stay different when the same path is resolved against them. */
  lemma SameTail(f: Fold, p: Path, s: Path, r: Path)
    requires Valid(p) && Valid(s) && Valid(r) && p.kind == s.kind && p.root == s.root && SameDrive(f, p, r)
    ensures Resolve(f, p, r) == Resolve(f, s, r) <==> NamesOf(p) == NamesOf(s)
  {
    Rebuild(p);
    Rebuild(s);
    if NamesOf(p) != NamesOf(s) {
      if NamesOf(r) != [] {
        ResolveDriveRelative(f, p, r);
        ResolveDriveRelative(f, s, r);
        SameFront(NamesOf(p), NamesOf(s), NamesOf(r));
        MakeNames(p.kind, p.root, NamesOf(p) + NamesOf(r));
        MakeNames(p.kind, p.root, NamesOf(s) + NamesOf(r));
      } else {
        SameBareTail(f, p, s, r);
      }
    }
  }

  lemma SameFront(a: seq<string>, b: seq<string>, c: seq<string>)
    ensures a + c == b + c <==> a == b
  {
    if a + c == b + c {
      assert |a| == |b|;
      assert a == (a + c)[..|a|] && b == (b + c)[..|b|];
    }
  }

  lemma SameBareTail(f: Fold, p: Path, s: Path, r: Path)
    requires Valid(p) && Valid(s) && Valid(r) && p.kind == s.kind && p.root == s.root && SameDrive(f, p, r)
    requires NamesOf(r) == [] && NamesOf(p) != NamesOf(s)
    ensures Resolve(f, p, r) != Resolve(f, s, r)
  {
    BareText(f, p, r);
    BareText(f, s, r);
    PathEnd(p);
    PathEnd(s);
    SameWithSlash(p.path, s.path);
  }

  lemma SameWithSlash(a: string, b: string)
    ensures a + SLASH == b + SLASH ==> a == b
  {
    assert (a + SLASH)[..|a|] == a && (b + SLASH)[..|b|] == b;
  }

  lemma BareText(f: Fold, p: Path, r: Path)
    requires Valid(p) && Valid(r) && SameDrive(f, p, r) && NamesOf(r) == []
    ensures Resolve(f, p, r).path == if NamesOf(p) == [] then p.path else p.path + SLASH
  {
    ResolveDriveRelative(f, p, r);
    if NamesOf(p) == [] {
      assert NamesOf(p) + NamesOf(r) == NamesOf(p);
      Rebuild(p);
    }
  }

  // ----- One middle path after the other

  lemma ThroughAbsolute(f: Fold, p: Path, q: Path, r: Path)
    requires Valid(p) && Valid(q) && Valid(r) && q.IsAbsolute() && !r.IsAbsolute()
    ensures StepsAgree(f, p, q, r) <==> Associates(f, p, q, r)
  {
    ElementsOfValid(q);
    match r.kind {
      case Relative =>
        ResolveRelative(f, q, r);
        ElementsOfValid(Resolve(f, q, r));
      case DirectoryRelative =>
        ResolveDirectoryRelative(f, q, r);
        ElementsOfValid(Resolve(f, q, r));
      case DriveRelative =>
        ResolveDriveRelative(f, q, r);
        ResolveDriveRelative(f, p, r);
        if SameDrive(f, q, r) {
          OnDriveIsAbsolute(f, q, r);
        } else if SameDrive(f, p, r) {
          OnDriveIsAbsolute(f, p, r);
        }
      case _ =>
    }
  }

  lemma AppendTwice(f: Fold, p: Path, q: Path, r: Path)
    requires Valid(p) && Valid(q) && Valid(r) && q.kind.Relative? && r.kind.Relative?
    ensures Resolve(f, Resolve(f, p, q), r) == Make(p.kind, p.root, NamesOf(p) + NamesOf(q) + NamesOf(r))
  {
    ResolveRelative(f, p, q);
    ResolveRelative(f, Resolve(f, p, q), r);
  }

  lemma AppendBoth(f: Fold, p: Path, q: Path, r: Path)
    requires Valid(p) && Valid(q) && Valid(r) && q.kind.Relative? && r.kind.Relative?
    ensures Resolve(f, p, Resolve(f, q, r)) == Make(p.kind, p.root, NamesOf(p) + (NamesOf(q) + NamesOf(r)))
  {
    ResolveRelative(f, q, r);
    ResolveRelative(f, p, Resolve(f, q, r));
  }

  lemma RelativeThenRooted(f: Fold, p: Path, q: Path, r: Path)
    requires Valid(p) && Valid(q) && Valid(r) && q.kind.Relative? && r.kind.DirectoryRelative?
    ensures StepsAgree(f, p, q, r)
  {
    ResolveRelative(f, p, q);
    ResolveDirectoryRelative(f, q, r);
    MakeNames(DirectoryRelative, SLASH, NamesOf(r));
    ResolveDirectoryRelative(f, Resolve(f, p, q), r);
    ResolveDirectoryRelative(f, p, Resolve(f, q, r));
  }

  lemma RelativeThenDrive(f: Fold, p: Path, q: Path, r: Path)
    requires Valid(p) && Valid(q) && Valid(r) && q.kind.Relative? && r.kind.DriveRelative?
    ensures StepsAgree(f, p, q, r) <==> !SameDrive(f, p, r) || NamesOf(q) == []
  {
    var pq := Resolve(f, p, q);
    ResolveRelative(f, p, q);
    ResolveDriveRelative(f, q, r);
    ResolveDriveRelative(f, p, r);
    ResolveDriveRelative(f, pq, r);
    if SameDrive(f, p, r) {
      SameTail(f, p, pq, r);
      assert NamesOf(pq) == NamesOf(p) <==> NamesOf(q) == [] by {
        assert |NamesOf(pq)| == |NamesOf(p)| + |NamesOf(q)|;
      }
    }
  }

  lemma ThroughRelative(f: Fold, p: Path, q: Path, r: Path)
    requires Valid(p) && Valid(q) && Valid(r) && q.kind.Relative? && !r.IsAbsolute()
    ensures StepsAgree(f, p, q, r) <==> Associates(f, p, q, r)
  {
    match r.kind {
      case Relative =>
        AppendTwice(f, p, q, r);
        AppendBoth(f, p, q, r);
        assert NamesOf(p) + NamesOf(q) + NamesOf(r) == NamesOf(p) + (NamesOf(q) + NamesOf(r));
      case DirectoryRelative => RelativeThenRooted(f, p, q, r);
      case DriveRelative => RelativeThenDrive(f, p, q, r);
      case _ =>
    }
  }

  lemma ThroughRooted(f: Fold, p: Path, q: Path, r: Path)
    requires Valid(p) && Valid(q) && Valid(r) && q.kind.DirectoryRelative? && !r.IsAbsolute()
    ensures StepsAgree(f, p, q, r) <==> Associates(f, p, q, r)
  {
    var pq, qr := Resolve(f, p, q), Resolve(f, q, r);
    ResolveDirectoryRelative(f, p, q);
    MakeNames(pq.kind, pq.root, NamesOf(q));
    match r.kind {
      case Relative =>
        ResolveRelative(f, q, r);
        ResolveRelative(f, pq, r);
        ResolveDirectoryRelative(f, p, qr);
      case DirectoryRelative =>
        ResolveDirectoryRelative(f, q, r);
        MakeNames(DirectoryRelative, SLASH, NamesOf(r));
        ResolveDirectoryRelative(f, pq, r);
        ResolveDirectoryRelative(f, p, qr);
      case DriveRelative =>
        RootedThenDrive(f, p, q, r);
      case _ =>
    }
  }

  lemma RootedThenDrive(f: Fold, p: Path, q: Path, r: Path)
    requires Valid(p) && Valid(q) && Valid(r) && q.kind.DirectoryRelative? && r.kind.DriveRelative?
    ensures StepsAgree(f, p, q, r) <==> Associates(f, p, q, r)
  {
    var pq := Resolve(f, p, q);
    ResolveDirectoryRelative(f, p, q);
    MakeNames(pq.kind, pq.root, NamesOf(q));
    ResolveDriveRelative(f, q, r);
    ResolveDriveRelative(f, p, r);
    ResolveDriveRelative(f, pq, r);
    if SameDrive(f, p, r) {
      SameTail(f, p, pq, r);
    } else if p.kind.DriveRelative? {
      assert (p.root + SLASH)[..|p.root + SLASH| - 1] == p.root;
      if CountsFrom(f, p, r) {
        OnDriveIsAbsolute(f, pq, r);
      }
    }
  }

  lemma ThroughOtherDrive(f: Fold, p: Path, q: Path, r: Path)
    requires Valid(p) && Valid(q) && Valid(r) && q.kind.DriveRelative? && !SameDrive(f, p, q) && !r.IsAbsolute()
    ensures StepsAgree(f, p, q, r) <==> Associates(f, p, q, r)
  {
    ResolveDriveRelative(f, p, q);
    match r.kind {
      case Relative =>
        ResolveRelative(f, q, r);
        ResolveDriveRelative(f, p, Resolve(f, q, r));
      case DirectoryRelative =>
        ResolveDirectoryRelative(f, q, r);
        ElementsOfValid(Resolve(f, q, r));
      case DriveRelative =>
        ResolveDriveRelative(f, q, r);
        ResolveDriveRelative(f, p, r);
        if SameDrive(f, p, r) {
          OnDriveIsAbsolute(f, p, r);
        }
      case _ =>
    }
  }

  lemma ThroughSameDrive(f: Fold, p: Path, q: Path, r: Path)
    requires Valid(p) && Valid(q) && Valid(r) && SameDrive(f, p, q) && !r.IsAbsolute() && !r.IsEmpty()
    ensures StepsAgree(f, p, q, r) <==> Associates(f, p, q, r)
  {
    OnDriveIsAbsolute(f, p, q);
    match r.kind {
      case Relative => SameDriveThenRelative(f, p, q, r);
      case DirectoryRelative =>
        ResolveDirectoryRelative(f, q, r);
        ElementsOfValid(Resolve(f, q, r));
        ResolveDirectoryRelative(f, p, r);
        ElementsOfValid(r);
      case DriveRelative => SameDriveTwice(f, p, q, r);
      case _ =>
    }
  }

  lemma SameDriveAtOnce(f: Fold, p: Path, q: Path, r: Path)
    requires Valid(p) && Valid(q) && Valid(r) && SameDrive(f, p, q) && r.kind.Relative? && !r.IsEmpty()
    ensures Resolve(f, p, Resolve(f, q, r)) == Make(p.kind, p.root, NamesOf(p) + (NamesOf(q) + NamesOf(r)))
  {
    ElementsOfValid(r);
    ResolveRelative(f, q, r);
    ResolveDriveRelative(f, p, Resolve(f, q, r));
  }

  lemma BareThenRelative(f: Fold, p: Path, q: Path, r: Path)
    requires Valid(p) && Valid(q) && Valid(r) && SameDrive(f, p, q) && r.kind.Relative? && !r.IsEmpty()
    requires NamesOf(q) == [] && NamesOf(p) != []
    ensures Resolve(f, Resolve(f, p, q), r) == Make(p.kind, p.root, NamesOf(p) + NamesOf(r))
  {
    ElementsOfValid(r);
    BareDrive(f, p, q);
    PathEnd(p);
    Rebuild(r);
    AppendNames(p, NamesOf(r));
  }

  lemma DriveThenRelative(f: Fold, p: Path, q: Path, r: Path)
    requires Valid(p) && Valid(q) && Valid(r) && SameDrive(f, p, q) && r.kind.Relative?
    requires NamesOf(q) != [] || NamesOf(p) == []
    ensures Resolve(f, Resolve(f, p, q), r) == Make(p.kind, p.root, NamesOf(p) + NamesOf(q) + NamesOf(r))
  {
    ResolveDriveRelative(f, p, q);
    MakeNames(p.kind, p.root, NamesOf(p) + NamesOf(q));
    ResolveRelative(f, Resolve(f, p, q), r);
  }

  lemma SameDriveThenRelative(f: Fold, p: Path, q: Path, r: Path)
    requires Valid(p) && Valid(q) && Valid(r) && SameDrive(f, p, q) && r.kind.Relative? && !r.IsEmpty()
    ensures StepsAgree(f, p, q, r)
  {
    SameDriveAtOnce(f, p, q, r);
    Regrouped(NamesOf(p), NamesOf(q), NamesOf(r));
    if NamesOf(q) == [] && NamesOf(p) != [] {
      BareThenRelative(f, p, q, r);
    } else {
      DriveThenRelative(f, p, q, r);
    }
  }

  lemma Regrouped(a: seq<string>, b: seq<string>, c: seq<string>)
    ensures a + b + c == a + (b + c) && (b == [] ==> a + (b + c) == a + c)
  {
    assert b == [] ==> b + c == c;
  }

  lemma SameDriveTwice(f: Fold, p: Path, q: Path, r: Path)
    requires Valid(p) && Valid(q) && Valid(r) && SameDrive(f, p, q) && r.kind.DriveRelative?
    ensures StepsAgree(f, p, q, r) <==> Associates(f, p, q, r)
  {
    ResolveDriveRelative(f, q, r);
    if NamesOf(q) == [] && NamesOf(p) != [] {
      BareDrive(f, p, q);
      PathEnd(p);
      ElementsOfValid(r);
    } else {
      var pq := Resolve(f, p, q);
      ResolveDriveRelative(f, p, q);
      MakeNames(p.kind, p.root, NamesOf(p) + NamesOf(q));
      ResolveDriveRelative(f, p, r);
      ResolveDriveRelative(f, pq, r);
      if SameDrive(f, p, r) {
        SameTail(f, p, pq, r);
      }
    }
  }
}
