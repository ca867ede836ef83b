/** Recursive deletion as the file panel and the instance store do it, on a finite tree of files and
    directories in which any set of nodes may refuse deletion and any set of directories may refuse to be
    listed. */
module FileTree {

  /** A place in the tree: the names from the top down. */
  type Place = seq<string>

  datatype Node = Dir | File(readOnly: bool)

  type Tree = map<Place, Node>

  /** What the operating system refuses: to delete the locked nodes, to list the sealed directories. */
  datatype Limits = Limits(locked: set<Place>, sealed: set<Place>)

  /** Every node but the top has its directory in the tree, and no name is `.` or `..`. */
  ghost predicate IsTree(nodes: Tree) {
    && (forall x | x in nodes && x != [] :: HasDirectory(nodes, x))
    && (forall x | x in nodes :: "." !in x && ".." !in x)
  }

  predicate HasDirectory(nodes: Tree, x: Place)
    requires x != []
  {
    var up := x[..|x| - 1];
    up in nodes && nodes[up].Dir?
  }

  // ----- What recursive deletion of `t` leaves

  /** No sealed directory lies between `t` and `x`. */
  ghost predicate Reached(l: Limits, t: Place, x: Place) {
    t <= x && forall k | |t| <= k < |x| :: x[..k] !in l.sealed
  }

  predicate Undeletable(l: Limits, x: Place) { x in l.locked }

  ghost predicate Stuck(l: Limits, t: Place, x: Place) {
    Undeletable(l, x) || !Reached(l, t, x)
  }

  /** A node inside `t` stays when it, or something below it, is stuck. */
  ghost predicate Stays(nodes: Tree, l: Limits, t: Place, x: Place) {
    exists y | y in nodes :: x <= y && Stuck(l, t, y)
  }

  /** Files that were tried lose their read-only mark, deleted or not. */
  ghost function Tried(nodes: Tree, l: Limits, t: Place, x: Place): Node
    requires x in nodes
  {
    if Reached(l, t, x) && nodes[x].File? then File(false) else nodes[x]
  }

  ghost function After(nodes: Tree, l: Limits, t: Place): Tree {
    map x | x in nodes && (t <= x ==> Stays(nodes, l, t, x)) :: if t <= x then Tried(nodes, l, t, x) else nodes[x]
  }

  lemma {:induction false} PrefixIsThere(nodes: Tree, x: Place, k: nat)
    requires IsTree(nodes) && x in nodes && k <= |x|
    ensures x[..k] in nodes
    ensures k < |x| ==> nodes[x[..k]].Dir?
    decreases |x|
  {
    if k == |x| {
      assert x[..k] == x;
    } else {
      assert HasDirectory(nodes, x);
      var up := x[..|x| - 1];
      if k < |up| {
        PrefixIsThere(nodes, up, k);
      }
      assert up[..k] == x[..k];
    }
  }

  /** What is left is still a tree. */
  lemma AfterIsTree(nodes: Tree, l: Limits, t: Place)
    requires IsTree(nodes)
    ensures IsTree(After(nodes, l, t))
  {
    var left := After(nodes, l, t);
    forall x | x in left && x != [] ensures HasDirectory(left, x) {
      assert HasDirectory(nodes, x);
      var up := x[..|x| - 1];
      if t <= up {
        assert t <= x;
        var y :| y in nodes && x <= y && Stuck(l, t, y);
        assert up <= y;
      }
    }
  }

  /** Nothing outside the target is touched, and nothing inside it is added. */
  lemma OutsideUntouched(nodes: Tree, l: Limits, t: Place, x: Place)
    ensures x in After(nodes, l, t) ==> x in nodes
    ensures !(t <= x) ==>
              (x in nodes <==> x in After(nodes, l, t)) && (x in nodes ==> After(nodes, l, t)[x] == nodes[x])
  {
  }

  /** What is left of a file that could be tried has lost its read-only mark. */
  lemma KeptFilesAreWritable(nodes: Tree, l: Limits, t: Place, x: Place)
    requires IsTree(nodes) && t <= x && x in nodes && nodes[x].File?
    requires forall d | d in nodes && t <= d :: d !in l.sealed
    ensures x in After(nodes, l, t) ==> After(nodes, l, t)[x] == File(false)
  {
    forall k | |t| <= k < |x| ensures x[..k] !in l.sealed {
      PrefixIsThere(nodes, x, k);
      assert t <= x[..k];
    }
  }

  /** All that lies in a directory that cannot be listed stays as it was. */
  lemma SealedIsUntouched(nodes: Tree, l: Limits, t: Place, d: Place, x: Place)
    requires x in nodes && t <= d < x && d in l.sealed
    ensures x in After(nodes, l, t) && After(nodes, l, t)[x] == nodes[x]
  {
    assert x[..|d|] == d;
    assert Stuck(l, t, x);
  }

  /** When every directory can be listed, what is left inside the target is exactly the undeletable nodes
      and their ancestors. */
  lemma LeavesUndeletableAndAncestors(nodes: Tree, l: Limits, t: Place, x: Place)
    requires t <= x && x in nodes && forall d | d in nodes && t <= d :: d !in l.sealed
    requires IsTree(nodes)
    ensures x in After(nodes, l, t) <==> exists y | y in nodes :: x <= y && Undeletable(l, y)
  {
    if x in After(nodes, l, t) {
      var y :| y in nodes && x <= y && Stuck(l, t, y);
      forall k | |t| <= k < |y| ensures y[..k] !in l.sealed {
        PrefixIsThere(nodes, y, k);
        assert t <= y[..k];
      }
      assert Undeletable(l, y);
    }
    if y :| y in nodes && x <= y && Undeletable(l, y) {
      assert Stuck(l, t, y);
    }
  }

  /** The target itself goes exactly when everything inside it goes. */
  lemma TargetGoesWithAll(nodes: Tree, l: Limits, t: Place)
    requires t in nodes
    ensures t !in After(nodes, l, t) <==> forall x | x in nodes && t <= x :: x !in After(nodes, l, t)
  {
    forall x | x in nodes && t <= x && x in After(nodes, l, t) ensures t in After(nodes, l, t) {
      var y :| y in nodes && x <= y && Stuck(l, t, y);
      assert t <= y;
      assert Stays(nodes, l, t, t);
    }
  }

  /** Deleting again changes nothing. */
  lemma AgainChangesNothing(nodes: Tree, l: Limits, t: Place)
    ensures After(After(nodes, l, t), l, t) == After(nodes, l, t)
  {
    var left := After(nodes, l, t);
    var again := After(left, l, t);
    forall x ensures x in again <==> x in left
             ensures x in left ==> again[x] == left[x]
    {
      if x in left && t <= x {
        StillStays(nodes, l, t, x);
      }
    }
  }

  lemma StillStays(nodes: Tree, l: Limits, t: Place, x: Place)
    requires t <= x && x in nodes && Stays(nodes, l, t, x)
    ensures Stays(After(nodes, l, t), l, t, x)
    ensures Tried(After(nodes, l, t), l, t, x) == After(nodes, l, t)[x]
  {
    var y :| y in nodes && x <= y && Stuck(l, t, y);
    assert Stays(nodes, l, t, y);
    assert y in After(nodes, l, t);
  }

  // ----- Halfway through a directory

  /** `x` lies in one of the children of `t` that are done. */
  predicate InDone(t: Place, done: set<string>, x: Place) {
    t < x && x[|t|] in done
  }

  ghost function Partial(nodes: Tree, l: Limits, t: Place, done: set<string>): Tree {
    map x | x in nodes && (InDone(t, done, x) ==> Stays(nodes, l, t, x)) ::
      if InDone(t, done, x) then Tried(nodes, l, t, x) else nodes[x]
  }

  lemma PartialOfNone(nodes: Tree, l: Limits, t: Place)
    ensures Partial(nodes, l, t, {}) == nodes
  {
  }

  /** Below a child of a directory that can be listed, the child and the directory reach the same nodes. */
  lemma ReachedFromChild(l: Limits, t: Place, n: string, x: Place)
    requires t !in l.sealed && t + [n] <= x
    ensures Reached(l, t, x) <==> Reached(l, t + [n], x)
  {
    assert x[..|t|] == t;
    assert t <= x;
  }

  lemma InOneMore(t: Place, done: set<string>, n: string, x: Place)
    ensures InDone(t, done + {n}, x) <==> InDone(t, done, x) || t + [n] <= x
  {
    if t + [n] <= x {
      assert x[..|t|] == t && x[|t|] == n;
    }
    if t < x && x[|t|] == n {
      assert x[..|t| + 1] == t + [n];
    }
  }

  lemma StaysFromChild(nodes: Tree, l: Limits, t: Place, done: set<string>, n: string, x: Place)
    requires t !in l.sealed && n !in done && t + [n] <= x
    ensures Stays(Partial(nodes, l, t, done), l, t + [n], x) <==> Stays(nodes, l, t, x)
  {
    var c, now := t + [n], Partial(nodes, l, t, done);
    forall y | x <= y ensures y in now <==> y in nodes
                      ensures Stuck(l, c, y) <==> Stuck(l, t, y)
    {
      assert c <= y;
      assert y[|t|] == n;
      ReachedFromChild(l, t, n, y);
    }
    if Stays(now, l, c, x) {
      var y :| y in now && x <= y && Stuck(l, c, y);
      assert y in nodes && Stuck(l, t, y);
    }
    if Stays(nodes, l, t, x) {
      var y :| y in nodes && x <= y && Stuck(l, t, y);
      assert y in now && Stuck(l, c, y);
    }
  }

  /** Deleting one more child. */
  lemma PartialStep(nodes: Tree, l: Limits, t: Place, done: set<string>, n: string)
    requires t !in l.sealed && n !in done
    ensures After(Partial(nodes, l, t, done), l, t + [n]) == Partial(nodes, l, t, done + {n})
  {
    var c, now := t + [n], Partial(nodes, l, t, done);
    var left, right := After(now, l, c), Partial(nodes, l, t, done + {n});
    forall x ensures x in left <==> x in right
             ensures x in left ==> left[x] == right[x]
    {
      InOneMore(t, done, n, x);
      if c <= x {
        assert x[|t|] == n;
        StaysFromChild(nodes, l, t, done, n, x);
        ReachedFromChild(l, t, n, x);
      }
    }
  }

  ghost predicate HasChild(nodes: Tree, t: Place) {
    exists n :: t + [n] in nodes
  }

  /** All children are done: the directory can go exactly when it does not stay. */
  lemma LastStep(nodes: Tree, l: Limits, t: Place, done: set<string>, now: Tree)
    requires IsTree(nodes) && t in nodes && nodes[t].Dir? && t !in l.sealed
    requires forall n :: n in done <==> t + [n] in nodes
    requires now == Partial(nodes, l, t, done)
    ensures t in now && now[t].Dir?
    ensures (Undeletable(l, t) || HasChild(now, t)) <==> Stays(nodes, l, t, t)
  {
    assert Reached(l, t, t);
    if Undeletable(l, t) {
      assert Stuck(l, t, t);
    }
    if HasChild(now, t) {
      var n :| t + [n] in now;
      assert (t + [n])[|t|] == n && n in done;
      var y :| y in nodes && t + [n] <= y && Stuck(l, t, y);
      assert t <= y;
    }
    if Stays(nodes, l, t, t) && !Undeletable(l, t) {
      var y :| y in nodes && t <= y && Stuck(l, t, y);
      assert t != y;
      ChildOnTheWay(nodes, t, y);
      var n := y[|t|];
      assert (t + [n])[|t|] == n;
      assert Stays(nodes, l, t, t + [n]);
      assert t + [n] in now;
    }
  }

  lemma ChildOnTheWay(nodes: Tree, t: Place, y: Place)
    requires IsTree(nodes) && y in nodes && t < y
    ensures t + [y[|t|]] in nodes && t + [y[|t|]] <= y
  {
    PrefixIsThere(nodes, y, |t| + 1);
    assert y[..|t| + 1] == t + [y[|t|]];
  }

  ghost predicate AgreeAt(a: Tree, b: Tree, x: Place) {
    (x in a <==> x in b) && (x in a ==> a[x] == b[x])
  }

  lemma AgreeingIsEqual(a: Tree, b: Tree)
    requires forall x :: AgreeAt(a, b, x)
    ensures a == b
  {
    forall x ensures x in a <==> x in b
             ensures x in a ==> a[x] == b[x]
    {
      assert AgreeAt(a, b, x);
    }
  }

  /** Then removing it, or leaving it, completes the deletion. */
  lemma BelowIsDone(nodes: Tree, l: Limits, t: Place, done: set<string>, now: Tree)
    requires IsTree(nodes) && t in nodes && nodes[t].Dir?
    requires forall n :: n in done <==> t + [n] in nodes
    requires now == Partial(nodes, l, t, done)
    ensures After(nodes, l, t) == if Stays(nodes, l, t, t) then now else now - {t}
  {
    var left := After(nodes, l, t);
    var right := if Stays(nodes, l, t, t) then now else now - {t};
    forall x ensures AgreeAt(left, right, x) {
      AtPlace(nodes, l, t, done, x);
    }
    AgreeingIsEqual(left, right);
  }

  /** The same at one place. */
  lemma AtPlace(nodes: Tree, l: Limits, t: Place, done: set<string>, x: Place)
    requires IsTree(nodes) && t in nodes && nodes[t].Dir?
    requires forall n :: n in done <==> t + [n] in nodes
    ensures var now := Partial(nodes, l, t, done);
            AgreeAt(After(nodes, l, t), if Stays(nodes, l, t, t) then now else now - {t}, x)
  {
    assert t <= x <==> t == x || t < x;
    if x in nodes && t < x {
      StrictlyBelow(nodes, t, done, x);
    }
  }

  lemma StrictlyBelow(nodes: Tree, t: Place, done: set<string>, x: Place)
    requires IsTree(nodes) && x in nodes && t < x
    requires forall n :: n in done <==> t + [n] in nodes
    ensures InDone(t, done, x)
  {
    ChildOnTheWay(nodes, t, x);
  }

  /** A directory that cannot be listed keeps all it holds. */
  lemma SealedKeepsAll(nodes: Tree, l: Limits, t: Place)
    requires IsTree(nodes) && t in nodes && nodes[t].Dir? && t in l.sealed
    ensures (Undeletable(l, t) || HasChild(nodes, t)) <==> Stays(nodes, l, t, t)
    ensures After(nodes, l, t) == if Stays(nodes, l, t, t) then nodes else nodes - {t}
  {
    SealedStays(nodes, l, t);
    BelowSealed(nodes, l, t);
    var left := After(nodes, l, t);
    var right := if Stays(nodes, l, t, t) then nodes else nodes - {t};
    forall x ensures x in left <==> x in right
             ensures x in left ==> left[x] == right[x]
    {
      assert t <= x <==> t == x || t < x;
    }
  }

  lemma SealedStays(nodes: Tree, l: Limits, t: Place)
    requires IsTree(nodes) && t in nodes && nodes[t].Dir? && t in l.sealed
    ensures (Undeletable(l, t) || HasChild(nodes, t)) <==> Stays(nodes, l, t, t)
  {
    assert Reached(l, t, t);
    if Undeletable(l, t) {
      assert Stuck(l, t, t);
    }
    if HasChild(nodes, t) {
      var n :| t + [n] in nodes;
      var y := t + [n];
      assert y[..|t|] == t;
      assert Stuck(l, t, y);
    }
    if Stays(nodes, l, t, t) && !Undeletable(l, t) {
      var y :| y in nodes && t <= y && Stuck(l, t, y);
      assert t != y;
      ChildOnTheWay(nodes, t, y);
    }
  }

  lemma BelowSealed(nodes: Tree, l: Limits, t: Place)
    requires t in l.sealed
    ensures forall y | t < y :: !Reached(l, t, y)
    ensures forall y | y in nodes && t < y :: Stays(nodes, l, t, y)
  {
    forall y | t < y ensures !Reached(l, t, y) {
      assert y[..|t|] == t;
    }
    forall y | y in nodes && t < y ensures Stays(nodes, l, t, y) {
      assert Stuck(l, t, y);
    }
  }

  // ----- The disk

  function Inside(nodes: Tree, t: Place): set<Place> {
    set x | x in nodes && t <= x
  }

  class Disk {
    var nodes: Tree
    const limits: Limits

    constructor (nodes: Tree, limits: Limits)
      requires IsTree(nodes)
      ensures Valid() && this.nodes == nodes && this.limits == limits
    {
      this.nodes := nodes;
      this.limits := limits;
    }

    ghost predicate Valid()
      reads this
    {
      IsTree(nodes)
    }

    /** `SetFileAttributesW(path, FILE_ATTRIBUTE_NORMAL)` */
    method SetNormal(path: Place)
      requires path in nodes && nodes[path].File?
      modifies this
      ensures nodes == old(nodes)[path := File(false)]
    {
      nodes := nodes[path := File(false)];
    }

    /** `DeleteFileW`: refuses read-only and locked files. */
    method DeleteFile(path: Place) returns (ok: bool)
      modifies this
      ensures ok <==> path in old(nodes) && old(nodes)[path] == File(false) && !Undeletable(limits, path)
      ensures nodes == if ok then old(nodes) - {path} else old(nodes)
    {
      ok := path in nodes && nodes[path] == File(false) && path !in limits.locked;
      if ok {
        nodes := nodes - {path};
      }
    }

    /** `RemoveDirectoryW`: refuses directories that hold something and locked ones. */
    method RemoveDirectory(path: Place) returns (ok: bool)
      modifies this
      ensures ok <==> path in old(nodes) && old(nodes)[path].Dir? && !HasChild(old(nodes), path)
                      && !Undeletable(limits, path)
      ensures nodes == if ok then old(nodes) - {path} else old(nodes)
    {
      var names := Names(path);
      ok := path in nodes && nodes[path].Dir? && names == {} && path !in limits.locked;
      if ok {
        nodes := nodes - {path};
      }
    }

    function Names(path: Place): (names: set<string>)
      reads this
      ensures forall n :: n in names <==> path + [n] in nodes
    {
      var names := set x | x in nodes && |x| == |path| + 1 && path <= x :: x[|path|];
      assert forall n :: path + [n] in nodes ==> (path + [n])[|path|] in names;
      assert forall x | x in nodes && |x| == |path| + 1 && path <= x :: x == path + [x[|path|]];
      names
    }

    /** `FindFirstFileW` and `FindNextFileW` on `path\*`: the entries `.` and `..` and every child once, in
        any order; nothing for a place that is no directory or cannot be listed. */
    method List(path: Place) returns (found: bool, names: seq<string>)
      ensures found <==> path in nodes && nodes[path].Dir? && path !in limits.sealed
      ensures found ==> Listed(nodes, path, names)
    {
      names := [".", ".."];
      found := path in nodes && nodes[path].Dir? && path !in limits.sealed;
      if !found {
        return;
      }
      var rest := Names(path);
      while rest != {}
        invariant rest <= Names(path)
        invariant forall n :: n in names <==> n in Names(path) - rest || n == "." || n == ".."
        invariant forall i, j | 0 <= i < j < |names| ::
                    names[i] == names[j] ==> names[i] == "." || names[i] == ".."
        decreases |rest|
      {
        var n :| n in rest;
        assert n in names ==> n == "." || n == "..";
        rest := rest - {n};
        names := names + [n];
      }
      assert Listed(nodes, path, names);
    }

    /** A file loses its read-only mark and goes, unless it is locked. */
    method ForceDelete(path: Place) returns (ok: bool)
      requires Valid() && path in nodes && nodes[path].File?
      modifies this
      ensures Valid() && nodes == After(old(nodes), limits, path)
      ensures ok <==> path !in nodes
    {
      AfterIsTree(nodes, limits, path);
      FileTarget(nodes, limits, path);
      SetNormal(path);
      ok := DeleteFile(path);
    }

    /** Deletes a file, or a directory with all it holds, as far as the system allows; true exactly when
        something was there and nothing is left. */
    method DelTree(path: Place) returns (ok: bool)
      requires Valid()
      modifies this
      ensures Valid() && nodes == After(old(nodes), limits, path)
      ensures ok <==> path in old(nodes) && path !in nodes
      decreases Inside(nodes, path)
    {
      if path !in nodes {
        MissingTarget(nodes, limits, path);
        return false;
      }
      if nodes[path].File? {
        ok := ForceDelete(path);
        return;
      }
      ghost var was, done := nodes, {};
      AfterIsTree(was, limits, path);
      PartialOfNone(was, limits, path);
      var found, names := List(path);
      if found {
        for i := 0 to |names|
          invariant Valid() && nodes == Partial(was, limits, path, done)
          invariant DoneSoFar(names, i, done)
        {
          DotsAreNotDone(names, i, done);
          if names[i] == "." || names[i] == ".." {
            continue;
          }
          NextChild(was, limits, path, names, i, done);
          var _ := DelTree(path + [names[i]]);
          done := done + {names[i]};
        }
        AllDone(was, path, names, done);
        LastStep(was, limits, path, done, nodes);
        BelowIsDone(was, limits, path, done, nodes);
      } else {
        SealedKeepsAll(was, limits, path);
      }
      ok := RemoveDirectory(path);
    }

    /** The instance store's own recursion, which is only given directories: anything else stays. */
    method RemoveDirRecursive(dir: Place) returns (ok: bool)
      requires Valid()
      modifies this
      ensures Valid()
      ensures nodes == if dir in old(nodes) && old(nodes)[dir].Dir? then After(old(nodes), limits, dir) else old(nodes)
      ensures ok <==> dir in old(nodes) && dir !in nodes
      decreases Inside(nodes, dir)
    {
      AfterIsTree(nodes, limits, dir);
      ghost var was, done := nodes, {};
      PartialOfNone(was, limits, dir);
      var found, names := List(dir);
      if found {
        for i := 0 to |names|
          invariant Valid() && nodes == Partial(was, limits, dir, done)
          invariant DoneSoFar(names, i, done)
        {
          DotsAreNotDone(names, i, done);
          if names[i] == "." || names[i] == ".." {
            continue;
          }
          var child := dir + [names[i]];
          NextChild(was, limits, dir, names, i, done);
          if nodes[child].Dir? {
            var _ := RemoveDirRecursive(child);
          } else {
            var _ := ForceDelete(child);
          }
          done := done + {names[i]};
        }
        AllDone(was, dir, names, done);
        LastStep(was, limits, dir, done, nodes);
        BelowIsDone(was, limits, dir, done, nodes);
      } else if dir in was && was[dir].Dir? {
        SealedKeepsAll(was, limits, dir);
      }
      ok := RemoveDirectory(dir);
    }
  }

  lemma MissingTarget(nodes: Tree, l: Limits, t: Place)
    requires IsTree(nodes) && t !in nodes
    ensures After(nodes, l, t) == nodes
  {
    forall x | x in nodes ensures !(t <= x) {
      if t <= x {
        assert x[..|t|] == t;
        PrefixIsThere(nodes, x, |t|);
      }
    }
  }

  /** A file goes, unless it is locked: then it only loses its read-only mark. */
  lemma FileTarget(nodes: Tree, l: Limits, t: Place)
    requires IsTree(nodes) && t in nodes && nodes[t].File?
    ensures After(nodes, l, t) == if Undeletable(l, t) then nodes[t := File(false)] else nodes - {t}
  {
    forall x | x in nodes && t <= x ensures x == t {
      if x != t {
        assert x[..|t|] == t;
        PrefixIsThere(nodes, x, |t|);
      }
    }
    assert Reached(l, t, t);
    assert Stays(nodes, l, t, t) <==> Undeletable(l, t);
  }

  /** The names passed so far, without `.` and `..`. */
  ghost predicate DoneSoFar(names: seq<string>, i: nat, done: set<string>)
    requires i <= |names|
  {
    forall n :: n in done <==> n in names[..i] && n != "." && n != ".."
  }

  lemma DotsAreNotDone(names: seq<string>, i: nat, done: set<string>)
    requires i < |names| && DoneSoFar(names, i, done)
    ensures names[i] == "." || names[i] == ".." ==> DoneSoFar(names, i + 1, done)
  {
    assert names[..i + 1] == names[..i] + [names[i]];
  }

  /** The entries of a directory: `.`, `..` and the names of its children, each child once. */
  ghost predicate Listed(nodes: Tree, t: Place, names: seq<string>) {
    && (forall n :: n in names <==> t + [n] in nodes || n == "." || n == "..")
    && (forall i, j | 0 <= i < j < |names| :: names[i] == names[j] ==> names[i] == "." || names[i] == "..")
  }

  /** The next child has not been touched, and deleting it takes the tree one child further. */
  lemma NextChild(was: Tree, l: Limits, t: Place, names: seq<string>, i: nat, done: set<string>)
    requires t in was && t !in l.sealed && Listed(was, t, names)
    requires i < |names| && names[i] != "." && names[i] != ".." && DoneSoFar(names, i, done)
    ensures var now, n := Partial(was, l, t, done), names[i];
            && t + [n] in now
            && After(now, l, t + [n]) == Partial(was, l, t, done + {n})
            && Inside(now, t + [n]) < Inside(was, t)
            && DoneSoFar(names, i + 1, done + {n})
  {
    var n := names[i];
    assert names[..i + 1] == names[..i] + [n];
    assert n !in done;
    assert (t + [n])[|t|] == n;
    PartialStep(was, l, t, done, n);
    ChildIsSmaller(was, l, t, done, n);
  }

  lemma AllDone(was: Tree, t: Place, names: seq<string>, done: set<string>)
    requires IsTree(was) && DoneSoFar(names, |names|, done) && Listed(was, t, names)
    ensures forall n :: n in done <==> t + [n] in was
  {
    assert names[..|names|] == names;
    forall n ensures n in done <==> t + [n] in was {
      if t + [n] in was {
        assert (t + [n])[|t|] == n;
      }
    }
  }

  lemma ChildIsSmaller(was: Tree, l: Limits, t: Place, done: set<string>, n: string)
    requires t in was
    ensures Inside(Partial(was, l, t, done), t + [n]) < Inside(was, t)
  {
    var small, large := Inside(Partial(was, l, t, done), t + [n]), Inside(was, t);
    forall x | x in small ensures x in large {
      assert t <= t + [n] <= x;
    }
    assert t in large && t !in small;
  }
}
