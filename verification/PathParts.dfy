/** Taking paths apart - `subpath`, `getParent`, `getFileName`, `startsWith`, `endsWith` - and comparing
    them - `compareTo`, `hashCode`. */
module PathParts {
  import opened Text
  import opened Decimal
  import opened CaseFold
  import opened Paths
  import opened PathAlgebra

  // ----- subpath

  /** `None` stands for the `IllegalArgumentException` of an index out of range. */
  function Subpath(p: Path, begin: int, end: int): Option<Path>
    requires |p.root| <= |p.path|
  {
    var e := Elements(p);
    if begin < 0 || begin >= |e| || end > |e| || begin >= end then None
    else Some(RelativePath(e[begin..end]))
  }

  lemma SubpathIsValid(p: Path, begin: int, end: int)
    requires Valid(p) && Subpath(p, begin, end).Some?
    ensures Valid(Subpath(p, begin, end).value)
    ensures Elements(Subpath(p, begin, end).value) == Elements(p)[begin..end]
  {
    ElementsOfValid(p);
    var e := Elements(p);
    if p.IsEmpty() {
      assert e[0..1] == [""];
      assert Valid(EMPTY);
    } else {
      RelativeIsValid(e[begin..end]);
    }
  }

  /** Nested subpaths compose by index arithmetic. */
  lemma SubpathCompose(p: Path, begin: nat, end: nat, b: nat, e: nat)
    requires Valid(p) && Subpath(p, begin, end).Some? && b < e <= end - begin
    ensures Subpath(Subpath(p, begin, end).value, b, e) == Subpath(p, begin + b, begin + e)
    ensures Subpath(p, begin + b, begin + e).Some?
  {
    SubpathIsValid(p, begin, end);
    SliceOfSlice(Elements(p), begin, end, b, e);
  }

  lemma SliceOfSlice(s: seq<string>, begin: nat, end: nat, b: nat, e: nat)
    requires begin <= end <= |s| && b <= e <= end - begin
    ensures s[begin..end][b..e] == s[begin + b..begin + e]
  {
    var x, y := s[begin..end][b..e], s[begin + b..begin + e];
    assert |x| == |y| && forall i | 0 <= i < |x| :: x[i] == y[i];
  }

  // ----- parent and file name

  function Root(p: Path): Option<Path> {
    if p.root == "" then None else Some(Path(p.kind, p.root, p.root))
  }

  function Parent(p: Path): Option<Path>
    requires |p.root| <= |p.path|
  {
    if |p.root| == |p.path| then None
    else
      var off := LastIndex(p.path, SEP);
      if off < |p.root| then Root(p) else Some(Path(p.kind, p.root, p.path[..off]))
  }

  function FileName(p: Path): Option<Path>
    requires |p.root| <= |p.path|
  {
    if |p.path| == 0 then Some(p)
    else if |p.root| == |p.path| then None
    else
      var off := LastIndex(p.path, SEP);
      Some(Path(Relative, "", p.path[if off < |p.root| then |p.root| else off + 1..]))
  }

  /** `getParent` drops the last name and `getFileName` is that name. */
  lemma ParentAndFileName(p: Path)
    requires Valid(p) && NamesOf(p) != []
    ensures var n := |NamesOf(p)| - 1;
            Parent(p) == (if n == 0 then Root(p) else Some(Make(p.kind, p.root, NamesOf(p)[..n])))
            && FileName(p) == Some(RelativePath(NamesOf(p)[n..]))
  {
    var names := NamesOf(p);
    var n := |names| - 1;
    PathEnd(p);
    Rebuild(p);
    assert names[n..] == [names[n]];
    if n == 0 {
      assert names == [names[0]];
      OnlyName(p, names[0]);
    } else {
      assert names == names[..n] + [names[n]];
      AppendText(p.root, names[..n], [names[n]]);
      LastOfNames(p, p.root + Join(names[..n], SEP), names[n]);
    }
  }

  lemma OnlyName(p: Path, name: string)
    requires p.path == p.root + name && name != "" && SEP !in name
    ensures Parent(p) == Root(p) && FileName(p) == Some(Path(Relative, "", name))
  {
    assert p.path[|p.root|..] == name;
    assert forall j | |p.root| <= j < |p.path| :: p.path[j] == name[j - |p.root|];
  }

  lemma LastOfNames(p: Path, front: string, name: string)
    requires p.path == front + SLASH + name && SEP !in name && |front| >= |p.root|
    ensures Parent(p) == Some(Path(p.kind, p.root, front)) && FileName(p) == Some(Path(Relative, "", name))
  {
    LastIndexBehind(front, SEP, name);
    assert p.path[..|front|] == front && p.path[|front| + 1..] == name;
  }

  lemma LastNameRebuilds(f: Fold, p: Path)
    requires Valid(p) && NamesOf(p) != []
    ensures var n := |NamesOf(p)| - 1;
            var parent, name := Make(p.kind, p.root, NamesOf(p)[..n]), RelativePath(NamesOf(p)[n..]);
            Valid(parent) && Valid(name) && Resolve(f, parent, name) == p
  {
    var names := NamesOf(p);
    var n := |names| - 1;
    MakeNames(p.kind, p.root, names[..n]);
    RelativeIsValid(names[n..]);
    ResolveRelative(f, Make(p.kind, p.root, names[..n]), RelativePath(names[n..]));
    assert names[..n] + names[n..] == names;
    Rebuild(p);
  }

  /** Resolving the file name against the parent rebuilds every path that has a parent. */
  lemma ParentResolvesFileName(f: Fold, p: Path)
    requires Valid(p)
    ensures Parent(p).None? <==> NamesOf(p) == [] || (|NamesOf(p)| == 1 && p.root == "")
    ensures Parent(p).Some? ==> Valid(Parent(p).value) && FileName(p).Some? && Valid(FileName(p).value)
                                && Resolve(f, Parent(p).value, FileName(p).value) == p
  {
    PathEnd(p);
    if NamesOf(p) != [] {
      ParentAndFileName(p);
      LastNameRebuilds(f, p);
      assert Make(p.kind, p.root, NamesOf(p)[..0]).path == p.root;
    }
  }

  // ----- startsWith and endsWith

  /** From element `k` on, the elements of the second path agree with those of the first at `off`. */
  predicate AgreeFrom(g: char -> char, xe: seq<string>, pe: seq<string>, off: nat, k: nat)
    requires k <= |pe| && off + |pe| <= |xe|
    decreases |pe| - k
  {
    k == |pe| || (Same(g, xe[off + k], pe[k]) && AgreeFrom(g, xe, pe, off, k + 1))
  }

  lemma {:induction false} AgreeFromEarlier(g: char -> char, xe: seq<string>, pe: seq<string>, off: nat, j: nat, k: nat)
    requires j <= k <= |pe| && off + |pe| <= |xe|
    ensures AgreeFrom(g, xe, pe, off, j) ==> AgreeFrom(g, xe, pe, off, k)
    decreases k - j
  {
    if j < k {
      AgreeFromEarlier(g, xe, pe, off, j + 1, k);
    }
  }

  lemma {:induction false} AgreeAt(g: char -> char, xe: seq<string>, pe: seq<string>, off: nat, k: nat, j: nat)
    requires k <= j < |pe| && off + |pe| <= |xe| && AgreeFrom(g, xe, pe, off, k)
    ensures Same(g, pe[j], xe[off + j])
    decreases j - k
  {
    if k < j {
      AgreeAt(g, xe, pe, off, k + 1, j);
    } else {
      SameSymmetric(g, xe[off + k], pe[k]);
    }
  }

  /** The loop finds the appended names of any list that equals a concatenation. */
  lemma {:induction false} AgreeOfAppend(g: char -> char, front: seq<string>, pe: seq<string>, xe: seq<string>, k: nat)
    requires k <= |pe| && SameNames(g, front + pe, xe)
    ensures AgreeFrom(g, xe, pe, |front|, k)
    decreases |pe| - k
  {
    if k < |pe| {
      AgreeOfAppend(g, front, pe, xe, k + 1);
      assert (front + pe)[|front| + k] == pe[k];
      SameSymmetric(g, pe[k], xe[|front| + k]);
    }
  }

  lemma {:induction false} AgreeOfPrefix(g: char -> char, pe: seq<string>, rest: seq<string>, xe: seq<string>, k: nat)
    requires k <= |pe| && SameNames(g, pe + rest, xe)
    ensures AgreeFrom(g, xe, pe, 0, k)
    decreases |pe| - k
  {
    if k < |pe| {
      AgreeOfPrefix(g, pe, rest, xe, k + 1);
      assert (pe + rest)[k] == pe[k];
      SameSymmetric(g, pe[k], xe[k]);
    }
  }

  /** Completing names that the loop has matched: in front of them, or behind. */
  lemma {:induction false} CompleteFront(g: char -> char, front: seq<string>, pn: seq<string>, xn: seq<string>)
    requires |xn| == |front| + |pn| && AgreeFrom(g, xn, pn, |front|, 0)
    requires forall i | 0 <= i < |front| :: front[i] == xn[i]
    ensures SameNames(g, front + pn, xn)
  {
    forall i | 0 <= i < |front + pn| ensures Same(g, (front + pn)[i], xn[i]) {
      CompleteAt(g, front, pn, xn, i);
    }
  }

  lemma {:induction false} CompleteAt(g: char -> char, front: seq<string>, pn: seq<string>, xn: seq<string>, i: nat)
    requires |xn| == |front| + |pn| && AgreeFrom(g, xn, pn, |front|, 0) && i < |xn|
    requires i < |front| ==> front[i] == xn[i]
    ensures Same(g, (front + pn)[i], xn[i])
  {
    if i < |front| {
      SameRefl(g, xn[i]);
    } else {
      var j := i - |front|;
      assert (front + pn)[i] == pn[j];
      AgreeAt(g, xn, pn, |front|, 0, j);
    }
  }

  lemma {:induction false} CompleteRest(g: char -> char, xn: seq<string>, pn: seq<string>)
    requires |pn| <= |xn| && AgreeFrom(g, xn, pn, 0, 0)
    ensures SameNames(g, pn + xn[|pn|..], xn)
  {
    var s := pn + xn[|pn|..];
    forall i | 0 <= i < |s| ensures Same(g, s[i], xn[i]) {
      if i < |pn| {
        AgreeAt(g, xn, pn, 0, 0, i);
      } else {
        SameRefl(g, xn[i]);
      }
    }
  }

  predicate StartsWith(f: Fold, x: Path, p: Path)
    requires |x.root| <= |x.path| && |p.root| <= |p.path|
  {
    if !Same(f.Caseless(), x.root, p.root) then false
    else if p.IsEmpty() then x.IsEmpty()
    else
      var xe, pe := Elements(x), Elements(p);
      |pe| <= |xe| && AgreeFrom(f.Caseless(), xe, pe, 0, 0)
  }

  predicate EndsWith(f: Fold, x: Path, p: Path)
    requires |x.root| <= |x.path| && |p.root| <= |p.path|
  {
    var xe, pe := Elements(x), Elements(p);
    if |p.path| > |x.path| then false
    else if p.IsEmpty() then x.IsEmpty()
    else if |pe| > |xe| then false
    else if |p.root| > 0 && (|pe| < |xe| || !Same(f.Caseless(), x.root, p.root)) then false
    else AgreeFrom(f.Caseless(), xe, pe, |xe| - |pe|, 0)
  }

  /** Roots that agree up to case are roots of the same type. */
  lemma SameRootsSameKind(g: char -> char, p: Path, q: Path)
    requires KeepsStructure(g) && Valid(p) && Valid(q) && Same(g, p.root, q.root)
    ensures p.kind == q.kind
  {
    var a, b := Make(p.kind, p.root, []), Make(q.kind, q.root, []);
    MakeNames(p.kind, p.root, []);
    MakeNames(q.kind, q.root, []);
    assert a.path == p.root && b.path == q.root;
    EqualShape(g, a, b);
  }

  /** `d` with the names of `r` appended is `x` up to case: read off root and names. */
  lemma ResolvedEqual(f: Fold, g: char -> char, d: Path, r: Path, x: Path)
    requires KeepsStructure(g) && Valid(d) && Valid(r) && Valid(x) && r.kind.Relative?
    ensures Valid(Resolve(f, d, r))
    ensures Equal(g, Resolve(f, d, r), x) <==>
            Same(g, d.root, x.root) && SameNames(g, NamesOf(d) + NamesOf(r), NamesOf(x))
  {
    ResolveRelative(f, d, r);
    var m := Resolve(f, d, r);
    if Equal(g, m, x) {
      EqualShape(g, m, x);
    }
    if Same(g, d.root, x.root) && SameNames(g, NamesOf(d) + NamesOf(r), NamesOf(x)) {
      EqualFromShape(g, m, x);
    }
  }

  lemma PrefixHasRemainder(f: Fold, x: Path, p: Path)
    requires Valid(x) && Valid(p) && !p.IsEmpty() && StartsWith(f, x, p)
    ensures exists r :: Valid(r) && r.kind.Relative? && Equal(f.Caseless(), Resolve(f, p, r), x)
  {
    CaselessKeepsStructure(f);
    ElementsOfValid(x);
    ElementsOfValid(p);
    var xn, pn := NamesOf(x), NamesOf(p);
    SameRootsSameKind(f.Caseless(), x, p);
    SameSymmetric(f.Caseless(), x.root, p.root);
    if pn != [] {
      AgreeAt(f.Caseless(), Elements(x), pn, 0, 0, 0);
      assert Clean(pn[0]);
    }
    CompleteRest(f.Caseless(), xn, pn);
    RelativeIsValid(xn[|pn|..]);
    ResolvedEqual(f, f.Caseless(), p, RelativePath(xn[|pn|..]), x);
  }

  lemma RemainderMakesPrefix(f: Fold, x: Path, p: Path, r: Path)
    requires Valid(x) && Valid(p) && !p.IsEmpty()
    requires Valid(r) && r.kind.Relative? && Equal(f.Caseless(), Resolve(f, p, r), x)
    ensures StartsWith(f, x, p)
  {
    CaselessKeepsStructure(f);
    ElementsOfValid(x);
    ElementsOfValid(p);
    ResolvedEqual(f, f.Caseless(), p, r, x);
    SameSymmetric(f.Caseless(), p.root, x.root);
    AgreeOfPrefix(f.Caseless(), NamesOf(p), NamesOf(r), NamesOf(x), 0);
    SameRootsSameKind(f.Caseless(), x, p);
  }

  /** A non-empty path is a prefix exactly when some relative remainder completes it, up to case. */
  lemma StartsWithIffRemainder(f: Fold, x: Path, p: Path)
    requires Valid(x) && Valid(p) && !p.IsEmpty()
    ensures StartsWith(f, x, p) <==>
            exists r :: Valid(r) && r.kind.Relative? && Equal(f.Caseless(), Resolve(f, p, r), x)
  {
    if StartsWith(f, x, p) {
      PrefixHasRemainder(f, x, p);
    }
    forall r | Valid(r) && r.kind.Relative? && Equal(f.Caseless(), Resolve(f, p, r), x) ensures StartsWith(f, x, p) {
      RemainderMakesPrefix(f, x, p, r);
    }
  }

  /** The path up to the last `n` names of `x`. */
  function LeadIn(x: Path, n: nat): Path
    requires |x.root| <= |x.path| && n <= |NamesOf(x)|
  {
    Make(x.kind, x.root, NamesOf(x)[..|NamesOf(x)| - n])
  }

  lemma LeadInIsValid(x: Path, n: nat)
    requires Valid(x) && n <= |NamesOf(x)|
    ensures Valid(LeadIn(x, n)) && LeadIn(x, n).root == x.root
    ensures NamesOf(LeadIn(x, n)) == NamesOf(x)[..|NamesOf(x)| - n]
  {
    MakeNames(x.kind, x.root, NamesOf(x)[..|NamesOf(x)| - n]);
  }

  lemma SuffixHasLeadIn(f: Fold, x: Path, p: Path)
    requires Valid(x) && Valid(p) && p.kind.Relative? && !p.IsEmpty() && EndsWith(f, x, p)
    ensures exists d :: Valid(d) && Equal(f.Caseless(), Resolve(f, d, p), x)
  {
    CaselessKeepsStructure(f);
    SuffixCompletes(f, x, p);
    LeadInIsValid(x, |NamesOf(p)|);
    var d := LeadIn(x, |NamesOf(p)|);
    SameRefl(f.Caseless(), x.root);
    ResolvedEqual(f, f.Caseless(), d, p, x);
  }

  lemma SuffixCompletes(f: Fold, x: Path, p: Path)
    requires Valid(x) && Valid(p) && p.kind.Relative? && !p.IsEmpty() && EndsWith(f, x, p)
    ensures |NamesOf(p)| <= |NamesOf(x)|
    ensures SameNames(f.Caseless(), NamesOf(x)[..|NamesOf(x)| - |NamesOf(p)|] + NamesOf(p), NamesOf(x))
  {
    ElementsOfValid(x);
    ElementsOfValid(p);
    CompleteFront(f.Caseless(), NamesOf(x)[..|NamesOf(x)| - |NamesOf(p)|], NamesOf(p), NamesOf(x));
  }

  lemma LeadInMakesSuffix(f: Fold, x: Path, p: Path, d: Path)
    requires Valid(x) && Valid(p) && p.kind.Relative? && !p.IsEmpty()
    requires Valid(d) && Equal(f.Caseless(), Resolve(f, d, p), x)
    ensures EndsWith(f, x, p)
  {
    CaselessKeepsStructure(f);
    assert SameNames(f.Caseless(), NamesOf(d) + NamesOf(p), NamesOf(x)) by {
      ResolvedEqual(f, f.Caseless(), d, p, x);
    }
    ResolvedIsLonger(f, d, p);
    SuffixByNames(f, x, p, NamesOf(d));
  }

  lemma {:induction false} SuffixByNames(f: Fold, x: Path, p: Path, front: seq<string>)
    requires Valid(x) && Valid(p) && p.kind.Relative? && !p.IsEmpty() && |p.path| <= |x.path|
    requires SameNames(f.Caseless(), front + NamesOf(p), NamesOf(x))
    ensures EndsWith(f, x, p)
  {
    ElementsOfValid(x);
    ElementsOfValid(p);
    AgreeOfAppend(f.Caseless(), front, NamesOf(p), NamesOf(x), 0);
  }

  /** A non-empty relative path is a suffix exactly when some path leads up to it, up to case. */
  lemma EndsWithIffLeadIn(f: Fold, x: Path, p: Path)
    requires Valid(x) && Valid(p) && p.kind.Relative? && !p.IsEmpty()
    ensures EndsWith(f, x, p) <==> exists d :: Valid(d) && Equal(f.Caseless(), Resolve(f, d, p), x)
  {
    if EndsWith(f, x, p) {
      SuffixHasLeadIn(f, x, p);
    }
    forall d | Valid(d) && Equal(f.Caseless(), Resolve(f, d, p), x) ensures EndsWith(f, x, p) {
      LeadInMakesSuffix(f, x, p, d);
    }
  }

  lemma ResolvedIsLonger(f: Fold, d: Path, p: Path)
    requires Valid(d) && Valid(p) && p.kind.Relative?
    ensures |p.path| <= |Resolve(f, d, p).path|
  {
  }

  /** A path with a root is a suffix of nothing but itself, up to case. */
  lemma EndsWithRooted(f: Fold, x: Path, p: Path)
    requires Valid(x) && Valid(p) && !p.kind.Relative?
    ensures EndsWith(f, x, p) <==> Equal(f.Caseless(), x, p)
  {
    CaselessKeepsStructure(f);
    ElementsOfValid(x);
    ElementsOfValid(p);
    assert Split("", SEP) == [""];
    assert p.root != "";
    if Equal(f.Caseless(), x, p) {
      EqualShape(f.Caseless(), x, p);
      WholeNames(f.Caseless(), NamesOf(x), NamesOf(p));
    }
    if EndsWith(f, x, p) {
      SameRootsSameKind(f.Caseless(), x, p);
      WholeNames(f.Caseless(), NamesOf(x), NamesOf(p));
      EqualFromShape(f.Caseless(), x, p);
    }
  }

  lemma WholeNames(g: char -> char, xn: seq<string>, pn: seq<string>)
    requires |xn| == |pn|
    ensures AgreeFrom(g, xn, pn, 0, 0) <==> SameNames(g, xn, pn)
  {
    if AgreeFrom(g, xn, pn, 0, 0) {
      forall i | 0 <= i < |xn| ensures Same(g, xn[i], pn[i]) {
        AgreeAt(g, xn, pn, 0, 0, i);
        SameSymmetric(g, pn[i], xn[i]);
      }
    }
    if SameNames(g, xn, pn) {
      forall i | 0 <= i < |pn| ensures Same(g, (pn + [])[i], xn[i]) {
        SameSymmetric(g, xn[i], pn[i]);
      }
      AgreeOfPrefix(g, pn, [], xn, 0);
    }
  }

  // ----- compareTo

  /** The difference at the first place where the folded texts differ, or of the lengths. */
  function Compare(g: char -> char, a: string, b: string): int {
    if a == "" || b == "" then |a| - |b|
    else if g(a[0]) != g(b[0]) then g(a[0]) as int - g(b[0]) as int
    else Compare(g, a[1..], b[1..])
  }

  /** The folded texts agree before `k`, and there the first ends or has the smaller character. */
  ghost predicate SmallerAt(g: char -> char, a: string, b: string, k: nat) {
    && k <= |a| && k < |b| && (k < |a| ==> g(a[k]) < g(b[k]))
    && forall i | 0 <= i < k :: g(a[i]) == g(b[i])
  }

  /** `a` comes before `b` in the dictionary order of folded characters. */
  ghost predicate Before(g: char -> char, a: string, b: string) {
    exists k: nat :: SmallerAt(g, a, b, k)
  }

  lemma SmallerShift(g: char -> char, a: string, b: string, k: nat)
    requires a != "" && b != "" && g(a[0]) == g(b[0])
    ensures SmallerAt(g, a[1..], b[1..], k) <==> SmallerAt(g, a, b, k + 1)
  {
    var x, y := a[1..], b[1..];
    if SmallerAt(g, x, y, k) {
      forall i | 0 <= i < k + 1 ensures g(a[i]) == g(b[i]) {
        assert i > 0 ==> a[i] == x[i - 1] && b[i] == y[i - 1];
      }
    }
    if SmallerAt(g, a, b, k + 1) {
      forall i | 0 <= i < k ensures g(x[i]) == g(y[i]) {
        assert x[i] == a[i + 1] && y[i] == b[i + 1];
      }
    }
  }

  lemma BeforeShift(g: char -> char, a: string, b: string)
    requires a != "" && b != "" && g(a[0]) == g(b[0])
    ensures Before(g, a, b) <==> Before(g, a[1..], b[1..])
  {
    if Before(g, a, b) {
      var k: nat :| SmallerAt(g, a, b, k);
      SmallerShift(g, a, b, k - 1);
    }
    if Before(g, a[1..], b[1..]) {
      var k: nat :| SmallerAt(g, a[1..], b[1..], k);
      SmallerShift(g, a, b, k);
    }
  }

  lemma {:induction false} CompareIsDictionaryOrder(g: char -> char, a: string, b: string)
    ensures Compare(g, a, b) < 0 <==> Before(g, a, b)
    ensures Compare(g, a, b) == 0 <==> Same(g, a, b)
  {
    if a == "" || b == "" || g(a[0]) != g(b[0]) {
      if b != "" && (a == "" || g(a[0]) < g(b[0])) {
        assert SmallerAt(g, a, b, 0);
      }
    } else {
      CompareIsDictionaryOrder(g, a[1..], b[1..]);
      SameHead(g, a, b);
      BeforeShift(g, a, b);
    }
  }

  lemma SameHead(g: char -> char, a: string, b: string)
    requires a != "" && b != ""
    ensures Same(g, a, b) <==> g(a[0]) == g(b[0]) && Same(g, a[1..], b[1..])
  {
    if g(a[0]) == g(b[0]) && Same(g, a[1..], b[1..]) {
      forall i | 0 <= i < |a| ensures g(a[i]) == g(b[i]) {
        assert i > 0 ==> a[1..][i - 1] == a[i] && b[1..][i - 1] == b[i];
      }
    }
  }

  /** `compareTo` is a total preorder: swapping flips the sign, and it is transitive. */
  lemma {:induction false} CompareIsTotalPreorder(g: char -> char, a: string, b: string, c: string)
    ensures Compare(g, a, b) == -Compare(g, b, a)
    ensures Compare(g, a, b) <= 0 && Compare(g, b, c) <= 0 ==> Compare(g, a, c) <= 0
    ensures Compare(g, a, b) <= 0 && Compare(g, b, c) < 0 ==> Compare(g, a, c) < 0
    decreases |a| + |b| + |c|
  {
    if a != "" && b != "" {
      if c != "" {
        CompareIsTotalPreorder(g, a[1..], b[1..], c[1..]);
      } else {
        CompareIsTotalPreorder(g, a[1..], b[1..], c);
      }
    }
  }

  // ----- hashCode

  function HashFrom(g: char -> char, h: int, s: string): int
    decreases |s|
  {
    if s == "" then h else HashFrom(g, Wrap32(31 * h + g(s[0]) as int), s[1..])
  }

  function Hash(g: char -> char, s: string): int {
    HashFrom(g, 0, s)
  }

  lemma {:induction false} HashConcat(g: char -> char, h: int, a: string, b: string)
    ensures HashFrom(g, h, a + b) == HashFrom(g, HashFrom(g, h, a), b)
    decreases |a|
  {
    if a == "" {
      assert a + b == b;
    } else {
      assert (a + b)[1..] == a[1..] + b;
      HashConcat(g, Wrap32(31 * h + g(a[0]) as int), a[1..], b);
    }
  }

  function Power31(n: nat): int {
    if n == 0 then 1 else 31 * Power31(n - 1)
  }

  /** The polynomial in 31 whose coefficients are the folded characters, the first one leading. */
  function Polynomial(g: char -> char, s: string): int {
    if s == "" then 0 else g(s[0]) as int * Power31(|s| - 1) + Polynomial(g, s[1..])
  }

  /** The hash code is the polynomial of the folded text in 32 bits. */
  lemma HashIsPolynomial(g: char -> char, s: string)
    ensures Hash(g, s) == Wrap32(Polynomial(g, s))
  {
    HashFromPolynomial(g, 0, s);
  }

  lemma {:induction false} HashFromPolynomial(g: char -> char, h: int, s: string)
    requires -0x8000_0000 <= h < 0x8000_0000
    ensures HashFrom(g, h, s) == Wrap32(h * Power31(|s|) + Polynomial(g, s))
    decreases |s|
  {
    if s != "" {
      HashFromPolynomial(g, Wrap32(31 * h + g(s[0]) as int), s[1..]);
      HashStep(h, g(s[0]) as int, Power31(|s| - 1), Polynomial(g, s[1..]));
    } else {
      assert h * 1 + 0 == h;
    }
  }

  lemma HashStep(h: int, c: int, p: int, d: int)
    ensures Wrap32(Wrap32(31 * h + c) * p + d) == Wrap32(h * (31 * p) + (c * p + d))
  {
    WrapOnTheWay(31 * h + c, p, d);
    assert Wrap32(31 * h + c) * p == p * Wrap32(31 * h + c);
    assert p * (31 * h + c) == h * (31 * p) + c * p;
  }

  /** Equal paths have equal hash codes. */
  lemma {:induction false} EqualHash(g: char -> char, h: int, a: string, b: string)
    requires Same(g, a, b)
    ensures HashFrom(g, h, a) == HashFrom(g, h, b)
    decreases |a|
  {
    if a != "" {
      EqualHash(g, Wrap32(31 * h + g(a[0]) as int), a[1..], b[1..]);
    }
  }

  // ----- Equal paths, and prefixes of prefixes

  /** Paths that `equals` takes for one start and end with each other, although `startsWith` and
      `endsWith` compare by another folding. */
  lemma EqualPathsStartAndEnd(f: Fold, x: Path, p: Path)
    requires Valid(x) && Valid(p) && Equal(f.up, x, p)
    ensures StartsWith(f, x, p) && EndsWith(f, x, p)
  {
    UpImpliesCaseless(f, x.path, p.path);
    SameSymmetric(f.Caseless(), x.path, p.path);
    EqualShape(f.up, x, p);
    UpImpliesCaseless(f, x.root, p.root);
    if !p.IsEmpty() {
      RemainderMakesPrefix(f, x, p, EMPTY);
      if p.kind.Relative? {
        assert [] + NamesOf(p) == NamesOf(p);
        ResolveRelative(f, EMPTY, p);
        Rebuild(p);
        LeadInMakesSuffix(f, x, p, EMPTY);
      } else {
        EndsWithRooted(f, x, p);
      }
    }
  }

  /** A prefix of a prefix is a prefix. */
  lemma StartsWithTransitive(f: Fold, x: Path, p: Path, o: Path)
    requires Valid(x) && Valid(p) && Valid(o) && StartsWith(f, x, p) && StartsWith(f, p, o)
    ensures StartsWith(f, x, o)
  {
    SameTransitive(f.Caseless(), x.root, p.root, o.root);
    if p.IsEmpty() {
      ElementsOfValid(o);
    } else {
      AgreeTransitive(f.Caseless(), Elements(x), Elements(p), Elements(o), 0);
    }
  }

  lemma {:induction false} AgreeTransitive(g: char -> char, xe: seq<string>, pe: seq<string>, oe: seq<string>, k: nat)
    requires k <= |oe| <= |pe| <= |xe| && AgreeFrom(g, xe, pe, 0, 0) && AgreeFrom(g, pe, oe, 0, 0)
    ensures AgreeFrom(g, xe, oe, 0, k)
    decreases |oe| - k
  {
    if k < |oe| {
      AgreeAt(g, xe, pe, 0, 0, k);
      AgreeAt(g, pe, oe, 0, 0, k);
      SameTransitive(g, oe[k], pe[k], xe[k]);
      SameSymmetric(g, oe[k], xe[k]);
      AgreeTransitive(g, xe, pe, oe, k + 1);
    }
  }

  /** Only the empty path starts or ends with the empty path. */
  lemma EmptyStartsAndEnds(f: Fold, x: Path)
    requires Valid(x)
    ensures StartsWith(f, x, EMPTY) <==> x.path == ""
    ensures EndsWith(f, x, EMPTY) <==> x.path == ""
  {
    ElementsOfValid(x);
  }
}
