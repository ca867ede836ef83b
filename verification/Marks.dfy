/** The marking passes of `normalize`: each mark leaves the stack reduction of the unmarked elements
    unchanged, and a pass that marks nothing has reached the reduced list. */
module Marks {
  import opened Names

  /** The elements of `names[lo..hi]` that are not marked. */
  function Live(names: seq<string>, marked: seq<bool>, lo: nat, hi: nat): seq<string>
    requires lo <= hi <= |names| == |marked|
    decreases hi - lo
  {
    if lo == hi then []
    else Live(names, marked, lo, hi - 1) + if marked[hi - 1] then [] else [names[hi - 1]]
  }

  lemma {:induction false} LiveSplit(names: seq<string>, marked: seq<bool>, lo: nat, mid: nat, hi: nat)
    requires lo <= mid <= hi <= |names| == |marked|
    ensures Live(names, marked, lo, hi) == Live(names, marked, lo, mid) + Live(names, marked, mid, hi)
    decreases hi - mid
  {
    if mid < hi {
      LiveSplit(names, marked, lo, mid, hi - 1);
    }
  }

  lemma {:induction false} LiveAgree(names: seq<string>, m: seq<bool>, n: seq<bool>, lo: nat, hi: nat)
    requires lo <= hi <= |names| == |m| == |n|
    requires forall i | lo <= i < hi :: m[i] == n[i]
    ensures Live(names, m, lo, hi) == Live(names, n, lo, hi)
    decreases hi - lo
  {
    if lo < hi {
      LiveAgree(names, m, n, lo, hi - 1);
    }
  }

  lemma {:induction false} NoneLive(names: seq<string>, marked: seq<bool>, lo: nat, hi: nat)
    requires lo <= hi <= |names| == |marked|
    ensures Live(names, marked, lo, hi) == [] <==> forall i | lo <= i < hi :: marked[i]
    decreases hi - lo
  {
    if lo < hi {
      NoneLive(names, marked, lo, hi - 1);
    }
  }

  lemma {:induction false} AllLive(names: seq<string>, marked: seq<bool>, hi: nat)
    requires hi <= |names| == |marked| && forall i | 0 <= i < hi :: !marked[i]
    ensures Live(names, marked, 0, hi) == names[..hi]
    decreases hi
  {
    if hi > 0 {
      AllLive(names, marked, hi - 1);
    }
  }

  /** Everything still unmarked. */
  function Remaining(names: seq<string>, marked: seq<bool>): seq<string>
    requires |names| == |marked|
  {
    Live(names, marked, 0, |names|)
  }

  /** Around one unmarked element. */
  lemma RemainingAt(names: seq<string>, marked: seq<bool>, i: nat)
    requires i < |names| == |marked|
    ensures Remaining(names, marked)
            == Live(names, marked, 0, i) + (if marked[i] then [] else [names[i]]) + Live(names, marked, i + 1, |names|)
  {
    LiveSplit(names, marked, 0, i + 1, |names|);
  }

  lemma MarkOne(names: seq<string>, marked: seq<bool>, i: nat)
    requires i < |names| == |marked| && !marked[i]
    ensures var m := marked[i := true];
            Remaining(names, marked) == Live(names, marked, 0, i) + [names[i]] + Live(names, marked, i + 1, |names|)
            && Remaining(names, m) == Live(names, marked, 0, i) + Live(names, marked, i + 1, |names|)
  {
    var m := marked[i := true];
    RemainingAt(names, marked, i);
    RemainingAt(names, m, i);
    LiveAgree(names, marked, m, 0, i);
    LiveAgree(names, marked, m, i + 1, |names|);
  }

  lemma DropNeutral(clamp: bool, a: seq<string>, x: seq<string>, b: seq<string>)
    requires Reduce(clamp, Reduce(clamp, [], a), x) == Reduce(clamp, [], a)
    ensures Reduce(clamp, [], a + x + b) == Reduce(clamp, [], a + b)
  {
    ReduceAppend(clamp, [], a + x, b);
    ReduceAppend(clamp, [], a, x);
    ReduceAppend(clamp, [], a, b);
  }

  /** Marking a `.`. */
  lemma MarkDot(clamp: bool, names: seq<string>, marked: seq<bool>, i: nat)
    requires i < |names| == |marked| && !marked[i] && names[i] == DOT
    ensures var m := marked[i := true];
            Reduce(clamp, [], Remaining(names, m)) == Reduce(clamp, [], Remaining(names, marked))
            && |Remaining(names, m)| == |Remaining(names, marked)| - 1
  {
    MarkOne(names, marked, i);
    DropNeutral(clamp, Live(names, marked, 0, i), [names[i]], Live(names, marked, i + 1, |names|));
  }

  /** Marking a `..` that no unmarked element precedes, under a root. */
  lemma MarkLeading(names: seq<string>, marked: seq<bool>, i: nat)
    requires i < |names| == |marked| && !marked[i] && names[i] == DOTDOT
    requires forall j | 0 <= j < i :: marked[j]
    ensures var m := marked[i := true];
            Reduce(true, [], Remaining(names, m)) == Reduce(true, [], Remaining(names, marked))
            && |Remaining(names, m)| == |Remaining(names, marked)| - 1
  {
    MarkOne(names, marked, i);
    NoneLive(names, marked, 0, i);
    DropNeutral(true, [], [names[i]], Live(names, marked, i + 1, |names|));
  }

  /** Marking a `..` together with the ordinary name before it. */
  lemma MarkPair(clamp: bool, names: seq<string>, marked: seq<bool>, prev: nat, i: nat)
    requires prev < i < |names| == |marked| && !marked[prev] && !marked[i]
    requires Ordinary(names[prev]) && names[i] == DOTDOT
    requires forall j | prev < j < i :: marked[j]
    ensures var m := marked[prev := true][i := true];
            Reduce(clamp, [], Remaining(names, m)) == Reduce(clamp, [], Remaining(names, marked))
            && |Remaining(names, m)| == |Remaining(names, marked)| - 2
  {
    var half := marked[prev := true];
    var a, b := Live(names, marked, 0, prev), Live(names, marked, i + 1, |names|);
    RemainingAt(names, marked, i);
    LastLive(names, marked, prev, i);
    assert a + [names[prev]] + [names[i]] + b == a + [names[prev], names[i]] + b;
    MarkOne(names, half, i);
    LiveAgree(names, marked, half, i + 1, |names|);
    LiveAgree(names, marked, half, 0, prev);
    LiveSplit(names, half, 0, prev, i);
    NoneLive(names, half, prev, i);
    assert Live(names, half, 0, i) == a + [] == a;
    assert Remaining(names, half[i := true]) == a + b;
    assert Remaining(names, marked) == a + [names[prev], names[i]] + b;
    PairIsNeutral(clamp, Reduce(clamp, [], a), names[prev]);
    DropNeutral(clamp, a, [names[prev], names[i]], b);
  }

  lemma PairIsNeutral(clamp: bool, stack: seq<string>, name: string)
    requires Ordinary(name)
    ensures Reduce(clamp, stack, [name, DOTDOT]) == stack
  {
    assert [name, DOTDOT] == [name] + [DOTDOT];
    ReduceAppend(clamp, stack, [name], [DOTDOT]);
    assert Reduce(clamp, stack, [name]) == stack + [name];
    assert Push(clamp, stack + [name], DOTDOT) == stack;
  }

  /** Up to `i` the last unmarked element is `prev`. */
  lemma LastLive(names: seq<string>, marked: seq<bool>, prev: nat, i: nat)
    requires prev < i <= |names| == |marked| && !marked[prev]
    requires forall j | prev < j < i :: marked[j]
    ensures Live(names, marked, 0, i) == Live(names, marked, 0, prev) + [names[prev]]
    ensures Live(names, marked, prev + 1, i) == []
  {
    LiveSplit(names, marked, 0, prev + 1, i);
    NoneLive(names, marked, prev + 1, i);
  }

  /** A pass that has marked nothing up to `i`: what it has seen is reduced, and the scan variable
      tells whether it ends in an ordinary name. */
  predicate Quiet(clamp: bool, names: seq<string>, marked: seq<bool>, i: nat, prev: int)
    requires i <= |names| == |marked|
  {
    var seen := Live(names, marked, 0, i);
    Normal(clamp, seen) && (prev < 0 ==> seen == [] || seen[|seen| - 1] == DOTDOT)
  }

  lemma QuietKeepsName(clamp: bool, names: seq<string>, marked: seq<bool>, i: nat, prev: int)
    requires i < |names| == |marked| && !marked[i] && Ordinary(names[i])
    requires Quiet(clamp, names, marked, i, prev)
    ensures Quiet(clamp, names, marked, i + 1, i)
  {
  }

  lemma QuietKeepsDotDot(clamp: bool, names: seq<string>, marked: seq<bool>, i: nat, prev: int)
    requires i < |names| == |marked| && !marked[i] && names[i] == DOTDOT && prev < 0
    requires Quiet(clamp, names, marked, i, prev)
    requires clamp ==> Live(names, marked, 0, i) != []
    ensures Quiet(clamp, names, marked, i + 1, prev)
  {
    var seen := Live(names, marked, 0, i);
    assert seen != [] ==> seen[|seen| - 1] == DOTDOT;
  }

  /** What holds after a pass has looked at the first `i` elements. `start` is the reduction of what was
      unmarked when the pass began, and `prev` the scan variable for the last ordinary name. */
  predicate Pass(clamp: bool, names: seq<string>, marked: seq<bool>, i: nat, prev: int,
                 remaining: int, before: int, start: seq<string>)
  {
    && -1 <= prev < i <= |names| == |marked|
    && remaining == |Remaining(names, marked)| <= before
    && Reduce(clamp, [], Remaining(names, marked)) == start
    && (prev >= 0 ==> !marked[prev] && Ordinary(names[prev]) && forall j | prev < j < i :: marked[j])
    && (remaining == before ==> Quiet(clamp, names, marked, i, prev))
  }

  /** At the end of a pass: nothing was lost, and if nothing was marked the rest is reduced. */
  ghost predicate PassDone(clamp: bool, names: seq<string>, marked: seq<bool>, remaining: int, before: int,
                           start: seq<string>)
    requires |names| == |marked|
  {
    && remaining == |Remaining(names, marked)| <= before
    && Reduce(clamp, [], Remaining(names, marked)) == start
    && (remaining == before ==> Normal(clamp, Remaining(names, marked)))
  }

  lemma PassEnds(clamp: bool, names: seq<string>, marked: seq<bool>, prev: int, remaining: int, before: int,
                 start: seq<string>)
    requires |names| == |marked| && Pass(clamp, names, marked, |names|, prev, remaining, before, start)
    ensures PassDone(clamp, names, marked, remaining, before, start)
  {
  }

  lemma PassBegins(clamp: bool, names: seq<string>, marked: seq<bool>, before: int)
    requires |names| == |marked| && before == |Remaining(names, marked)|
    ensures Pass(clamp, names, marked, 0, -1, before, before, Reduce(clamp, [], Remaining(names, marked)))
  {
  }

  lemma PassSkips(clamp: bool, names: seq<string>, marked: seq<bool>, i: nat, prev: int,
                  remaining: int, before: int, start: seq<string>)
    requires i < |names| && Pass(clamp, names, marked, i, prev, remaining, before, start) && marked[i]
    ensures Pass(clamp, names, marked, i + 1, prev, remaining, before, start)
  {
  }

  lemma PassName(clamp: bool, names: seq<string>, marked: seq<bool>, i: nat, prev: int,
                 remaining: int, before: int, start: seq<string>)
    requires i < |names| && Pass(clamp, names, marked, i, prev, remaining, before, start)
    requires !marked[i] && Ordinary(names[i])
    ensures Pass(clamp, names, marked, i + 1, i, remaining, before, start)
  {
    if remaining == before {
      QuietKeepsName(clamp, names, marked, i, prev);
    }
  }

  lemma PassDot(clamp: bool, names: seq<string>, marked: seq<bool>, i: nat, prev: int,
                remaining: int, before: int, start: seq<string>)
    requires i < |names| && Pass(clamp, names, marked, i, prev, remaining, before, start)
    requires !marked[i] && names[i] == DOT
    ensures Pass(clamp, names, marked[i := true], i + 1, prev, remaining - 1, before, start)
  {
    MarkDot(clamp, names, marked, i);
  }

  lemma PassPair(clamp: bool, names: seq<string>, marked: seq<bool>, i: nat, prev: int,
                 remaining: int, before: int, start: seq<string>)
    requires i < |names| && Pass(clamp, names, marked, i, prev, remaining, before, start)
    requires !marked[i] && names[i] == DOTDOT && prev >= 0
    ensures Pass(clamp, names, marked[prev := true][i := true], i + 1, -1, remaining - 2, before, start)
  {
    MarkPair(clamp, names, marked, prev, i);
  }

  lemma PassLeading(names: seq<string>, marked: seq<bool>, i: nat, prev: int,
                    remaining: int, before: int, start: seq<string>)
    requires i < |names| && Pass(true, names, marked, i, prev, remaining, before, start)
    requires !marked[i] && names[i] == DOTDOT && prev < 0 && forall j | 0 <= j < i :: marked[j]
    ensures Pass(true, names, marked[i := true], i + 1, prev, remaining - 1, before, start)
  {
    MarkLeading(names, marked, i);
  }

  lemma PassKeeps(clamp: bool, names: seq<string>, marked: seq<bool>, i: nat, prev: int,
                  remaining: int, before: int, start: seq<string>)
    requires i < |names| && Pass(clamp, names, marked, i, prev, remaining, before, start)
    requires !marked[i] && names[i] == DOTDOT && prev < 0
    requires clamp ==> exists j | 0 <= j < i :: !marked[j]
    ensures Pass(clamp, names, marked, i + 1, prev, remaining, before, start)
  {
    if remaining == before {
      NoneLive(names, marked, 0, i);
      QuietKeepsDotDot(clamp, names, marked, i, prev);
    }
  }

  // ----- The text built from the unmarked elements

  /** Each name followed by a separator, as the `StringBuilder` is filled. */
  function Slashed(names: seq<string>): string {
    if names == [] then "" else Slashed(names[..|names| - 1]) + names[|names| - 1] + "\\"
  }

  lemma SlashedAppend(names: seq<string>, name: string)
    ensures Slashed(names + [name]) == Slashed(names) + name + "\\"
  {
    assert (names + [name])[..|names|] == names;
  }
}
