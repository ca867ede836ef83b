/** Lists of path elements: the one-pass stack reduction of `.` and `..`, and what a list of
    elements means as a walk through a directory tree. Knows nothing about path text. */
module Names {
  import opened CaseFold

  const DOT := "."
  const DOTDOT := ".."

  predicate Ordinary(name: string) {
    name != DOT && name != DOTDOT
  }

  predicate AllOrdinary(names: seq<string>) {
    forall i | 0 <= i < |names| :: Ordinary(names[i])
  }

  // ----- The stack reduction

  /** One element arrives: `.` does nothing, `..` cancels an ordinary name, and a `..` with nothing
      to cancel is dropped when the path hangs at a root (`clamp`) and kept otherwise. */
  function Push(clamp: bool, stack: seq<string>, name: string): seq<string> {
    if name == DOT then stack
    else if name != DOTDOT then stack + [name]
    else if stack != [] && stack[|stack| - 1] != DOTDOT then stack[..|stack| - 1]
    else if clamp then stack
    else stack + [name]
  }

  function Reduce(clamp: bool, stack: seq<string>, names: seq<string>): seq<string>
    decreases |names|
  {
    if names == [] then stack
    else Reduce(clamp, Push(clamp, stack, names[0]), names[1..])
  }

  /** Reduced: no `.`; every `..` stands at the front, and there is none at all under a root. */
  predicate Normal(clamp: bool, names: seq<string>) {
    && (forall i | 0 <= i < |names| :: names[i] != DOT && (names[i] == DOTDOT ==> !clamp))
    && (forall i | 0 < i < |names| :: names[i] == DOTDOT ==> names[i - 1] == DOTDOT)
  }

  lemma {:induction false} ReduceAppend(clamp: bool, stack: seq<string>, a: seq<string>, b: seq<string>)
    ensures Reduce(clamp, stack, a + b) == Reduce(clamp, Reduce(clamp, stack, a), b)
    decreases |a|
  {
    if a == [] {
      assert a + b == b;
    } else {
      assert (a + b)[0] == a[0] && (a + b)[1..] == a[1..] + b;
      ReduceAppend(clamp, Push(clamp, stack, a[0]), a[1..], b);
    }
  }

  lemma {:induction false} ReduceIsNormal(clamp: bool, stack: seq<string>, names: seq<string>)
    requires Normal(clamp, stack)
    ensures Normal(clamp, Reduce(clamp, stack, names))
    decreases |names|
  {
    if names != [] {
      ReduceIsNormal(clamp, Push(clamp, stack, names[0]), names[1..]);
    }
  }

  lemma {:induction false} ReduceOfNormal(clamp: bool, stack: seq<string>, names: seq<string>)
    requires Normal(clamp, stack + names)
    ensures Reduce(clamp, stack, names) == stack + names
    decreases |names|
  {
    if names == [] {
      assert stack + names == stack;
    } else {
      var all := stack + names;
      assert all[|stack|] == names[0];
      if stack != [] {
        assert all[|stack| - 1] == stack[|stack| - 1];
      }
      assert Push(clamp, stack, names[0]) == stack + [names[0]];
      assert stack + [names[0]] + names[1..] == all;
      ReduceOfNormal(clamp, stack + [names[0]], names[1..]);
    }
  }

  /** Reducing first and appending afterwards loses nothing. */
  lemma ReduceHead(clamp: bool, a: seq<string>, b: seq<string>)
    ensures Reduce(clamp, [], Reduce(clamp, [], a) + b) == Reduce(clamp, [], a + b)
  {
    var r := Reduce(clamp, [], a);
    ReduceIsNormal(clamp, [], a);
    assert [] + r == r;
    ReduceOfNormal(clamp, [], r);
    ReduceAppend(clamp, [], r, b);
    ReduceAppend(clamp, [], a, b);
  }

  lemma ReduceIdempotent(clamp: bool, names: seq<string>)
    ensures Reduce(clamp, [], Reduce(clamp, [], names)) == Reduce(clamp, [], names)
  {
    var r := Reduce(clamp, [], names);
    ReduceHead(clamp, names, []);
    assert r + [] == r && names + [] == names;
  }

  // ----- Meaning: walking from a directory

  /** Where one element leads from directory `at`, a list of names below the root. */
  function Step(at: seq<string>, name: string): seq<string> {
    if name == DOT then at
    else if name == DOTDOT then (if at == [] then [] else at[..|at| - 1])
    else at + [name]
  }

  function Walk(at: seq<string>, names: seq<string>): seq<string>
    decreases |names|
  {
    if names == [] then at else Walk(Step(at, names[0]), names[1..])
  }

  lemma {:induction false} WalkAppend(at: seq<string>, a: seq<string>, b: seq<string>)
    ensures Walk(at, a + b) == Walk(Walk(at, a), b)
    decreases |a|
  {
    if a == [] {
      assert a + b == b;
    } else {
      assert (a + b)[0] == a[0] && (a + b)[1..] == a[1..] + b;
      WalkAppend(Step(at, a[0]), a[1..], b);
    }
  }

  lemma PushKeepsWalk(at: seq<string>, stack: seq<string>, name: string)
    requires Normal(false, stack)
    ensures Walk(at, Push(false, stack, name)) == Step(Walk(at, stack), name)
  {
    if name == DOTDOT && stack != [] && stack[|stack| - 1] != DOTDOT {
      var front, last := stack[..|stack| - 1], stack[|stack| - 1];
      assert stack == front + [last];
      WalkAppend(at, front, [last]);
      assert Walk(Walk(at, front), [last]) == Walk(at, front) + [last];
    } else if name != DOT {
      WalkAppend(at, stack, [name]);
      assert Walk(Walk(at, stack), [name]) == Step(Walk(at, stack), name);
    }
  }

  /** The reduction that keeps leading `..` leads to the same place from EVERY directory. */
  lemma {:induction false} ReduceKeepsWalk(at: seq<string>, stack: seq<string>, names: seq<string>)
    requires Normal(false, stack)
    ensures Walk(at, Reduce(false, stack, names)) == Walk(Walk(at, stack), names)
    decreases |names|
  {
    if names != [] {
      PushKeepsWalk(at, stack, names[0]);
      ReduceIsNormal(false, stack, names[..1]);
      assert Reduce(false, stack, names[..1]) == Push(false, stack, names[0]);
      ReduceKeepsWalk(at, Push(false, stack, names[0]), names[1..]);
    }
  }

  /** The reduction under a root IS the walk from the root. */
  lemma {:induction false} ClampedReduceIsWalk(stack: seq<string>, names: seq<string>)
    requires AllOrdinary(stack)
    ensures Reduce(true, stack, names) == Walk(stack, names) && AllOrdinary(Walk(stack, names))
    decreases |names|
  {
    if names != [] {
      assert Push(true, stack, names[0]) == Step(stack, names[0]);
      ClampedReduceIsWalk(Step(stack, names[0]), names[1..]);
    }
  }

  // ----- Normal forms are canonical

  function Ups(names: seq<string>): (k: nat)
    ensures k <= |names|
    ensures forall i | 0 <= i < k :: names[i] == DOTDOT
    ensures k < |names| ==> names[k] != DOTDOT
  {
    if names != [] && names[0] == DOTDOT then 1 + Ups(names[1..]) else 0
  }

  lemma {:induction false} OrdinaryAfterUps(names: seq<string>, i: nat)
    requires Normal(false, names) && Ups(names) <= i < |names|
    ensures Ordinary(names[i])
  {
    if i > Ups(names) {
      OrdinaryAfterUps(names, i - 1);
    }
  }

  lemma OrdinaryTail(names: seq<string>, i: nat)
    requires Normal(false, names) && Ups(names) <= i <= |names|
    ensures AllOrdinary(names[i..])
  {
    var tail := names[i..];
    forall j | 0 <= j < |tail| ensures Ordinary(tail[j]) {
      OrdinaryAfterUps(names, i + j);
      assert tail[j] == names[i + j];
    }
  }

  lemma {:induction false} WalkUps(at: seq<string>, ups: seq<string>)
    requires forall i | 0 <= i < |ups| :: ups[i] == DOTDOT
    requires |ups| <= |at|
    ensures Walk(at, ups) == at[..|at| - |ups|]
    decreases |ups|
  {
    if ups != [] {
      WalkUps(at[..|at| - 1], ups[1..]);
    }
  }

  lemma {:induction false} WalkOrdinary(at: seq<string>, names: seq<string>)
    requires AllOrdinary(names)
    ensures Walk(at, names) == at + names
    decreases |names|
  {
    if names != [] {
      WalkOrdinary(at + [names[0]], names[1..]);
      assert at + [names[0]] + names[1..] == at + names;
    }
  }

  /** From a deep enough directory a normal list goes up by its `..` and down by its names. */
  lemma {:induction false} WalkOfNormal(at: seq<string>, names: seq<string>)
    requires Normal(false, names) && Ups(names) <= |at|
    ensures Walk(at, names) == at[..|at| - Ups(names)] + names[Ups(names)..]
  {
    var k := Ups(names);
    OrdinaryTail(names, k);
    assert names == names[..k] + names[k..];
    WalkAppend(at, names[..k], names[k..]);
    WalkUps(at, names[..k]);
    WalkOrdinary(at[..|at| - k], names[k..]);
  }

  /** Two different normal lists part ways from some directory: a deep one whose names all differ
      from the list that climbs higher. */
  lemma NormalListsDiffer(a: seq<string>, b: seq<string>) returns (at: seq<string>)
    requires Normal(false, a) && Normal(false, b) && a != b && Ups(a) <= Ups(b)
    ensures Walk(at, a) != Walk(at, b)
  {
    var k := Ups(b);
    var other := if k < |b| then b[k] + "x" else "x";
    at := seq(k, i => other);
    if Ups(a) < k {
      HigherClimbShows(at, a, b);
    } else {
      SameClimbShows(at, a, b);
    }
  }

  /** From a directory as deep as `b` climbs, `a` stays below where `b` has left. */
  lemma {:induction false} HigherClimbShows(at: seq<string>, a: seq<string>, b: seq<string>)
    requires Normal(false, a) && Normal(false, b) && Ups(a) < Ups(b) == |at|
    requires Ups(b) < |b| ==> at[0] != b[Ups(b)]
    ensures Walk(at, a) != Walk(at, b)
  {
    WalkOfNormal(at, a);
    WalkOfNormal(at, b);
    assert Walk(at, a)[0] == at[0];
    assert at[..0] + b[Ups(b)..] == b[Ups(b)..];
  }

  lemma {:induction false} SameClimbShows(at: seq<string>, a: seq<string>, b: seq<string>)
    requires Normal(false, a) && Normal(false, b) && Ups(a) == Ups(b) == |at| && a != b
    ensures Walk(at, a) != Walk(at, b)
  {
    var k := |at|;
    WalkOfNormal(at, a);
    WalkOfNormal(at, b);
    assert a == a[..k] + a[k..] && b == b[..k] + b[k..];
    assert a[..k] == b[..k];
    assert at[..0] == [] && [] + a[k..] == a[k..] && [] + b[k..] == b[k..];
  }

  /** The reduced list is a complete invariant of what a relative list of elements means: two lists
      reduce to the same one exactly when they lead to the same place from every directory. */
  lemma SameReductionIffSameWalk(a: seq<string>, b: seq<string>)
    ensures Reduce(false, [], a) == Reduce(false, [], b) <==> forall at :: Walk(at, a) == Walk(at, b)
  {
    var ra, rb := Reduce(false, [], a), Reduce(false, [], b);
    ReduceIsNormal(false, [], a);
    ReduceIsNormal(false, [], b);
    forall at ensures Walk(at, ra) == Walk(at, a) && Walk(at, rb) == Walk(at, b) {
      ReduceKeepsWalk(at, [], a);
      ReduceKeepsWalk(at, [], b);
    }
    if ra != rb {
      var at;
      if Ups(ra) <= Ups(rb) {
        at := NormalListsDiffer(ra, rb);
      } else {
        at := NormalListsDiffer(rb, ra);
      }
      assert Walk(at, a) != Walk(at, b);
    }
  }

  // ----- Reduction respects case folding

  lemma SameKeepsDots(g: char -> char, a: string, b: string)
    requires KeepsStructure(g) && Same(g, a, b)
    ensures (a == DOT <==> b == DOT) && (a == DOTDOT <==> b == DOTDOT)
  {
  }

  lemma {:induction false} ReduceRespectsFold(g: char -> char, clamp: bool, s: seq<string>, t: seq<string>,
                                              a: seq<string>, b: seq<string>)
    requires KeepsStructure(g) && SameNames(g, s, t) && SameNames(g, a, b)
    ensures SameNames(g, Reduce(clamp, s, a), Reduce(clamp, t, b))
    decreases |a|
  {
    if a != [] {
      SameKeepsDots(g, a[0], b[0]);
      if s != [] {
        SameKeepsDots(g, s[|s| - 1], t[|s| - 1]);
      }
      ReduceRespectsFold(g, clamp, Push(clamp, s, a[0]), Push(clamp, t, b[0]), a[1..], b[1..]);
    }
  }

  // ----- Every reduced element was there before

  lemma {:induction false} ReduceKeepsElements(clamp: bool, stack: seq<string>, names: seq<string>, n: string)
    requires n in Reduce(clamp, stack, names)
    ensures n in stack || n in names
    decreases |names|
  {
    if names != [] {
      ReduceKeepsElements(clamp, Push(clamp, stack, names[0]), names[1..], n);
    }
  }
}
