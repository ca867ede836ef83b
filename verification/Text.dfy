/** Text primitives shared by the path model and the wire formats: splitting and joining at a
    separator, and first-occurrence search as `std::string::find` performs it. */
module Text {

  datatype Option<+T> = None | Some(value: T)

  // ----- Splitting and joining at one separator character

  /** The pieces between separators; a text without separators is its own only piece. */
  function Split(s: string, sep: char): (pieces: seq<string>)
    ensures |pieces| >= 1
  {
    if s == "" then [""]
    else
      var rest := Split(s[1..], sep);
      if s[0] == sep then [""] + rest else [[s[0]] + rest[0]] + rest[1..]
  }

  function Join(pieces: seq<string>, sep: char): string {
    if pieces == [] then ""
    else if |pieces| == 1 then pieces[0]
    else pieces[0] + [sep] + Join(pieces[1..], sep)
  }

  predicate Free(pieces: seq<string>, sep: char) {
    forall i | 0 <= i < |pieces| :: sep !in pieces[i]
  }

  lemma {:induction false} SplitIsFree(s: string, sep: char)
    ensures Free(Split(s, sep), sep)
  {
    if s != "" {
      SplitIsFree(s[1..], sep);
    }
  }

  lemma {:induction false} JoinOfSplit(s: string, sep: char)
    ensures Join(Split(s, sep), sep) == s
  {
    if s != "" {
      JoinOfSplit(s[1..], sep);
      if s[0] == sep {
        JoinCons("", Split(s[1..], sep), sep);
      } else {
        JoinGrow(s[0], Split(s[1..], sep), sep);
      }
    }
  }

  lemma JoinCons(piece: string, rest: seq<string>, sep: char)
    requires rest != []
    ensures Join([piece] + rest, sep) == piece + [sep] + Join(rest, sep)
  {
    assert ([piece] + rest)[1..] == rest;
  }

  lemma JoinGrow(c: char, rest: seq<string>, sep: char)
    requires rest != []
    ensures Join([[c] + rest[0]] + rest[1..], sep) == [c] + Join(rest, sep)
  {
    if |rest| > 1 {
      JoinCons([c] + rest[0], rest[1..], sep);
    }
  }

  lemma {:induction false} SplitOnePiece(s: string, sep: char)
    requires sep !in s
    ensures Split(s, sep) == [s]
  {
    if s != "" {
      SplitOnePiece(s[1..], sep);
      assert s == [s[0]] + s[1..];
    }
  }

  /** Cutting a text at any separator cuts its list of pieces. */
  lemma {:induction false} SplitAtSeparator(a: string, b: string, sep: char)
    ensures Split(a + [sep] + b, sep) == Split(a, sep) + Split(b, sep)
  {
    var whole := a + [sep] + b;
    if a == "" {
      assert whole == [sep] + b;
      assert whole[1..] == b;
    } else {
      assert whole[0] == a[0];
      assert whole[1..] == a[1..] + [sep] + b;
      SplitAtSeparator(a[1..], b, sep);
    }
  }

  lemma {:induction false} SplitOfJoin(pieces: seq<string>, sep: char)
    requires pieces != [] && Free(pieces, sep)
    ensures Split(Join(pieces, sep), sep) == pieces
  {
    SplitOnePiece(pieces[0], sep);
    if |pieces| > 1 {
      SplitOfJoin(pieces[1..], sep);
      SplitAtSeparator(pieces[0], Join(pieces[1..], sep), sep);
      assert pieces == [pieces[0]] + pieces[1..];
    }
  }

  lemma {:induction false} JoinAppend(a: seq<string>, b: seq<string>, sep: char)
    requires a != [] && b != []
    ensures Join(a + b, sep) == Join(a, sep) + [sep] + Join(b, sep)
  {
    assert (a + b)[1..] == a[1..] + b;
    if |a| > 1 {
      JoinAppend(a[1..], b, sep);
    }
  }

  /** Two lists of pieces of a text that was cut inside a piece. */
  function Splice(x: seq<string>, y: seq<string>): (z: seq<string>)
    requires x != [] && y != []
    ensures z != []
  {
    x[..|x| - 1] + [x[|x| - 1] + y[0]] + y[1..]
  }

  lemma SpliceBehind(head: string, x: seq<string>, y: seq<string>)
    requires x != [] && y != []
    ensures Splice([head] + x, y) == [head] + Splice(x, y)
  {
    var whole := [head] + x;
    assert whole[..|whole| - 1] == [head] + x[..|x| - 1] && whole[|whole| - 1] == x[|x| - 1];
  }

  lemma SpliceGrown(c: char, x: seq<string>, y: seq<string>)
    requires x != [] && y != []
    ensures Splice([[c] + x[0]] + x[1..], y) == [[c] + Splice(x, y)[0]] + Splice(x, y)[1..]
  {
    if |x| == 1 {
      assert [[c] + x[0]] + x[1..] == [[c] + x[0]];
      assert [c] + x[0] + y[0] == [c] + (x[0] + y[0]);
    } else {
      SpliceBehind([c] + x[0], x[1..], y);
      SpliceBehind(x[0], x[1..], y);
      assert [x[0]] + x[1..] == x;
    }
  }

  /** Cutting a text anywhere cuts one of its pieces in two. */
  lemma {:induction false} SplitCut(a: string, b: string, sep: char)
    ensures Split(a + b, sep) == Splice(Split(a, sep), Split(b, sep))
    decreases |a|
  {
    if a == "" {
      assert a + b == b && "" + Split(b, sep)[0] == Split(b, sep)[0];
    } else {
      assert (a + b)[1..] == a[1..] + b && (a + b)[0] == a[0];
      SplitCut(a[1..], b, sep);
      if a[0] == sep {
        SpliceBehind("", Split(a[1..], sep), Split(b, sep));
      } else {
        SpliceGrown(a[0], Split(a[1..], sep), Split(b, sep));
      }
    }
  }

  /** The last piece is empty exactly when nothing stands behind the last separator, and so in front. */
  lemma {:induction false} SplitEnds(a: string, sep: char)
    ensures var x := Split(a, sep);
            (x[|x| - 1] == "" <==> a == "" || a[|a| - 1] == sep) && (x[0] == "" <==> a == "" || a[0] == sep)
    decreases |a|
  {
    if a != "" {
      SplitEnds(a[1..], sep);
    }
  }

  // ----- First occurrence

  /** `pat` stands in `s` at position `i`. */
  predicate Matches(s: string, pat: string, i: nat) {
    i + |pat| <= |s| && forall k | 0 <= k < |pat| :: s[i + k] == pat[k]
  }

  predicate Occurs(s: string, pat: string) {
    exists i: nat | i <= |s| :: Matches(s, pat, i)
  }

  /** `i` is the first place at or after `from` where `pat` stands. */
  predicate IsFirst(s: string, pat: string, from: nat, i: nat) {
    from <= i <= |s| && Matches(s, pat, i) && forall j: nat | from <= j < i :: !Matches(s, pat, j)
  }

  lemma FirstExists(s: string, pat: string, from: nat, at: nat)
    requires from <= at && Matches(s, pat, at)
    ensures exists i: nat | i <= |s| :: IsFirst(s, pat, from, i)
    decreases at
  {
    if j: nat :| from <= j < at && Matches(s, pat, j) {
      FirstExists(s, pat, from, j);
    } else {
      assert IsFirst(s, pat, from, at);
    }
  }

  /** The first occurrence at or after `from`, as `std::string::find(pat, from)`. */
  function Find(s: string, pat: string, from: nat): (r: Option<nat>)
    ensures r.Some? ==> from <= r.value && Matches(s, pat, r.value)
                        && forall j: nat | from <= j < r.value :: !Matches(s, pat, j)
    ensures r.None? ==> forall j: nat | from <= j :: !Matches(s, pat, j)
  {
    if exists i: nat | i <= |s| :: from <= i && Matches(s, pat, i) then
      assert exists i: nat | i <= |s| :: IsFirst(s, pat, from, i) by {
        var at: nat :| at <= |s| && from <= at && Matches(s, pat, at);
        FirstExists(s, pat, from, at);
      }
      var i: nat :| i <= |s| && IsFirst(s, pat, from, i);
      Some(i)
    else None
  }

  lemma FoundAt(s: string, pat: string, from: nat, at: nat)
    requires from <= at && Matches(s, pat, at)
    requires forall j: nat | from <= j < at :: !Matches(s, pat, j)
    ensures Find(s, pat, from) == Some(at)
  {
    assert Find(s, pat, from).Some?;
  }

  /** A pattern whose first character does not come back inside it cannot overlap itself. */
  predicate HeadUnique(pat: string) {
    pat != "" && forall k | 1 <= k < |pat| :: pat[k] != pat[0]
  }

  lemma MatchChar(s: string, pat: string, i: nat, k: nat)
    requires Matches(s, pat, i) && k < |pat|
    ensures s[i + k] == pat[k]
  {
  }

  /** An occurrence that starts inside the stretch `clean` cannot reach into the pattern written
      after it: the pattern's first character would come back inside the pattern. */
  lemma NoStraddle(s: string, pat: string, j: nat, at: nat)
    requires HeadUnique(pat) && Matches(s, pat, at) && Matches(s, pat, j) && j < at
    ensures j + |pat| <= at
  {
    if j + |pat| > at {
      MatchChar(s, pat, at, 0);
      MatchChar(s, pat, j, at - j);
    }
  }

  /** A text stands at a place when its two halves stand there one after the other. */
  lemma MatchesConcat(s: string, a: string, b: string, i: nat)
    ensures Matches(s, a + b, i) <==> Matches(s, a, i) && Matches(s, b, i + |a|)
  {
    var ab := a + b;
    if Matches(s, ab, i) {
      forall k | 0 <= k < |a| ensures s[i + k] == a[k] {
        assert ab[k] == a[k];
      }
      forall k | 0 <= k < |b| ensures s[i + |a| + k] == b[k] {
        assert ab[|a| + k] == b[k];
      }
    }
    if Matches(s, a, i) && Matches(s, b, i + |a|) {
      forall k | 0 <= k < |ab| ensures s[i + k] == ab[k] {
        if k >= |a| {
          MatchChar(s, b, i + |a|, k - |a|);
        }
      }
    }
  }

  lemma MatchesWhole(s: string)
    ensures Matches(s, s, 0)
  {
  }

  lemma MatchIsSlice(s: string, a: string, i: nat)
    requires Matches(s, a, i)
    ensures s[i..i + |a|] == a
  {
  }

  /** An occurrence that lies inside a stretch of text occurs in that stretch. */
  lemma MatchInPart(s: string, part: string, from: nat, pat: string, j: nat)
    requires Matches(s, part, from) && Matches(s, pat, j) && from <= j && j + |pat| <= from + |part|
    ensures Occurs(part, pat)
  {
    forall k | 0 <= k < |pat| ensures part[j - from + k] == pat[k] {
      MatchChar(s, pat, j, k);
      MatchChar(s, part, from, j - from + k);
    }
    assert Matches(part, pat, j - from);
  }

  /** The no-self-overlap argument: after a stretch of text that does not hold the pattern, the
      first occurrence of a head-unique pattern is the one written right after that stretch. */
  lemma FindAfterClean(s: string, from: nat, clean: string, pat: string)
    requires HeadUnique(pat) && !Occurs(clean, pat)
    requires Matches(s, clean, from) && Matches(s, pat, from + |clean|)
    ensures Find(s, pat, from) == Some(from + |clean|)
  {
    var at := from + |clean|;
    forall j: nat | from <= j < at ensures !Matches(s, pat, j) {
      if Matches(s, pat, j) {
        NoStraddle(s, pat, j, at);
        MatchInPart(s, clean, from, pat, j);
      }
    }
    FoundAt(s, pat, from, at);
  }

  lemma OccursChar(s: string, c: char)
    ensures Occurs(s, [c]) <==> c in s
  {
    if c in s {
      var i :| 0 <= i < |s| && s[i] == c;
      assert Matches(s, [c], i);
    }
    if Occurs(s, [c]) {
      var i: nat :| i <= |s| && Matches(s, [c], i);
      MatchChar(s, [c], i, 0);
    }
  }

  /** The same for a one-character pattern, the shape of every `find(c)`. */
  lemma FindChar(s: string, from: nat, clean: string, c: char)
    requires c !in clean && Matches(s, clean, from) && from + |clean| < |s| && s[from + |clean|] == c
    ensures Find(s, [c], from) == Some(from + |clean|)
  {
    OccursChar(clean, c);
    FindAfterClean(s, from, clean, [c]);
  }

  lemma FindNone(s: string, pat: string)
    requires !Occurs(s, pat)
    ensures Find(s, pat, 0) == None
  {
  }

  // ----- Last occurrence

  /** The last place of a character, -1 when there is none: `lastIndexOf` and `find_last_of`. */
  function LastIndex(s: string, c: char): (r: int)
    ensures -1 <= r < |s|
    ensures r >= 0 ==> s[r] == c
    ensures forall i | r < i < |s| :: s[i] != c
  {
    if s == "" then -1
    else if s[|s| - 1] == c then |s| - 1
    else LastIndex(s[..|s| - 1], c)
  }

  lemma LastIndexAt(s: string, c: char, i: int)
    requires -1 <= i < |s| && (i >= 0 ==> s[i] == c) && forall j | i < j < |s| :: s[j] != c
    ensures LastIndex(s, c) == i
  {
  }

  /** Text behind its last separator. */
  lemma LastIndexBehind(front: string, c: char, last: string)
    requires c !in last
    ensures LastIndex(front + [c] + last, c) == |front|
  {
    LastIndexAt(front + [c] + last, c, |front|);
  }
}
