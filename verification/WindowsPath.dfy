/** The path object itself: immutable type, root and text, with the lazily filled `offsets` and `hash`
    fields, and the loops that compute over them. Every method is tied to a function of the value. */
module WindowsPaths {
  import opened Text
  import opened Decimal
  import opened CaseFold
  import opened Names
  import opened Paths
  import opened PathAlgebra
  import opened PathParts
  import opened Marks
  import opened Canonical

  // ----- Where the elements start

  function Starts(names: seq<string>, at: nat): (r: seq<nat>)
    ensures |r| == |names|
  {
    if names == [] then [] else [at] + Starts(names[1..], at + |names[0]| + 1)
  }

  function OffsetsOf(p: Path): seq<nat>
    requires |p.root| <= |p.path|
  {
    Starts(Elements(p), |p.root|)
  }

  lemma StartsAppend(a: seq<string>, x: string, rest: seq<string>, at: nat)
    ensures Starts([x] + rest, at) == [at] + Starts(rest, at + |x| + 1)
  {
    assert ([x] + rest)[1..] == rest;
  }

  /** The offsets cut the elements out of the text. */
  lemma {:induction false} SpanOfElement(before: string, names: seq<string>, i: nat)
    requires i < |names|
    ensures var text, s := before + Join(names, SEP), Starts(names, |before|);
            s[i] + |names[i]| <= |text| && text[s[i]..s[i] + |names[i]|] == names[i]
            && (if i == |names| - 1 then s[i] + |names[i]| == |text| else s[i + 1] == s[i] + |names[i]| + 1)
    decreases i
  {
    if |names| > 1 {
      var next := before + names[0] + SLASH;
      assert before + Join(names, SEP) == next + Join(names[1..], SEP);
      if i > 0 {
        SpanOfElement(next, names[1..], i - 1);
      }
    }
  }

  // ----- Texts built by appending and cutting the last separator off

  lemma {:induction false} SlashedIsJoin(names: seq<string>)
    requires names != []
    ensures Slashed(names) == Join(names, SEP) + SLASH
  {
    var n := |names| - 1;
    if n > 0 {
      SlashedIsJoin(names[..n]);
      assert names == names[..n] + [names[n]];
      JoinAppend(names[..n], [names[n]], SEP);
    } else {
      assert Slashed([]) == "";
    }
  }

  /** `setLength(length() - 1)` after appending names: root and joined names. */
  lemma CutLast(root: string, names: seq<string>)
    requires names != []
    ensures var s := root + Slashed(names); |s| > 0 && s[..|s| - 1] == root + Join(names, SEP)
  {
    SlashedIsJoin(names);
  }

  /** The text once the first `i` elements have been looked at. */
  function Built(root: string, names: seq<string>, marked: seq<bool>, i: nat): string
    requires i <= |names| == |marked|
  {
    root + Slashed(Live(names, marked, 0, i))
  }

  lemma BuiltStep(root: string, names: seq<string>, marked: seq<bool>, i: nat)
    requires i < |names| == |marked|
    ensures Built(root, names, marked, i + 1)
            == if marked[i] then Built(root, names, marked, i) else Built(root, names, marked, i) + names[i] + SLASH
  {
    var kept := Live(names, marked, 0, i);
    if !marked[i] {
      SlashedAppend(kept, names[i]);
      assert root + (Slashed(kept) + names[i] + SLASH) == root + Slashed(kept) + names[i] + SLASH;
    } else {
      assert kept + [] == kept;
    }
  }

  /** The text of the first elements, joined. */
  lemma JoinedStep(e: seq<string>, begin: nat, i: nat)
    requires begin <= i < |e|
    ensures Join(e[begin..i + 1], SEP)
            == (if i > begin then Join(e[begin..i], SEP) + SLASH else Join(e[begin..i], SEP)) + e[i]
  {
    assert e[begin..i + 1] == e[begin..i] + [e[i]];
    if i > begin {
      JoinAppend(e[begin..i], [e[i]], SEP);
    }
  }

  class WindowsPath {
    const fs: FileSystem
    const kind: Kind
    const root: string
    const path: string
    var offsets: Option<seq<nat>>
    var hash: int

    /** The immutable value of the path. */
    function View(): Path {
      Path(kind, root, path)
    }

    ghost predicate Valid()
      reads this
    {
      && Paths.Valid(View())
      && (offsets.Some? ==> offsets.value == OffsetsOf(View()))
      && (hash != 0 ==> hash == Hash(fs.fold.up, path))
    }

    constructor (fs: FileSystem, value: Path)
      requires Paths.Valid(value)
      ensures Valid() && View() == value && this.fs == fs
    {
      this.fs, kind, root, path := fs, value.kind, value.root, value.path;
      offsets, hash := None, 0;
    }

    /** Fills the list of element offsets on first use. */
    method InitOffsets()
      requires Valid()
      modifies this`offsets
      ensures Valid() && offsets == Some(OffsetsOf(View()))
    {
      if offsets.None? {
        ElementsOfValid(View());
        var list: seq<nat> := [0];
        if path != "" {
          NamesNotEmpty(View());
          list := ScanOffsets(path, |root|);
        } else {
          assert Starts([""], 0) == [0];
        }
        offsets := Some(list);
      }
    }

    static lemma NamesNotEmpty(p: Path)
      requires Paths.Valid(p)
      ensures |p.root| < |p.path| ==>
                var s := Split(p.path[|p.root|..], SEP); s[|s| - 1] != ""
    {
      if |p.root| < |p.path| {
        assert Clean(NamesOf(p)[|NamesOf(p)| - 1]);
      }
    }

    /** The offsets found so far, and those still to come from `start`. */
    static ghost predicate Scanned(path: string, at: nat, start: nat, off: nat, list: seq<nat>) {
      && at <= start <= off <= |path| && SEP !in path[start..off]
      && (at == |path| ==> list == [])
      && (at < |path| ==>
            var tail := Split(path[start..], SEP);
            tail[|tail| - 1] != "" && Starts(Split(path[at..], SEP), at) == list + Starts(tail, start))
    }

    static lemma ScanStep(path: string, at: nat, start: nat, off: nat, list: seq<nat>)
      requires Scanned(path, at, start, off, list) && off < |path|
      ensures path[off] != SEP ==> Scanned(path, at, start, off + 1, list)
      ensures path[off] == SEP ==> Scanned(path, at, off + 1, off + 1, list + [start])
    {
      if path[off] == SEP {
        StepOver(path, start, off);
        var rest := Starts(Split(path[off + 1..], SEP), off + 1);
        assert list + ([start] + rest) == (list + [start]) + rest;
      } else {
        assert path[start..off + 1] == path[start..off] + [path[off]];
      }
    }

    static lemma ScanEnd(path: string, at: nat, start: nat, list: seq<nat>)
      requires Scanned(path, at, start, |path|, list)
      ensures Starts(Pieces(path[at..]), at) == if start != |path| then list + [start] else list
    {
      assert path[start..|path|] == path[start..];
      SplitOnePiece(path[start..], SEP);
      if at < |path| {
        assert Starts([path[start..]], start) == [start];
      }
    }

    /** The scan for separators after the root. */
    static method ScanOffsets(path: string, at: nat) returns (list: seq<nat>)
      requires at <= |path|
      requires at < |path| ==> var s := Split(path[at..], SEP); s[|s| - 1] != ""
      ensures list == Starts(Pieces(path[at..]), at)
    {
      list := [];
      var start: nat, off: nat := at, at;
      while off < |path|
        invariant Scanned(path, at, start, off, list)
      {
        ScanStep(path, at, start, off, list);
        if path[off] != SEP {
          off := off + 1;
        } else {
          list := list + [start];
          off := off + 1;
          start := off;
        }
      }
      ScanEnd(path, at, start, list);
      if start != off {
        list := list + [start];
      }
    }

    static lemma StepOver(path: string, start: nat, off: nat)
      requires start <= off < |path| && path[off] == SEP && SEP !in path[start..off]
      ensures Split(path[start..], SEP) == [path[start..off]] + Split(path[off + 1..], SEP)
      ensures Starts(Split(path[start..], SEP), start) == [start] + Starts(Split(path[off + 1..], SEP), off + 1)
    {
      var a, b := path[start..off], path[off + 1..];
      assert path[start..] == a + [SEP] + b;
      SplitAtSeparator(a, b, SEP);
      SplitOnePiece(a, SEP);
      StartsAppend([], a, Split(b, SEP), start);
    }

    method GetNameCount() returns (n: nat)
      requires Valid()
      modifies this`offsets
      ensures Valid() && n == |Elements(View())| && offsets == Some(OffsetsOf(View()))
    {
      InitOffsets();
      n := |offsets.value|;
    }

    /** One element, cut out between its offset and the next. */
    method ElementAsString(i: nat) returns (name: string)
      requires Valid() && i < |Elements(View())|
      modifies this`offsets
      ensures Valid() && name == Elements(View())[i] && offsets == Some(OffsetsOf(View()))
    {
      InitOffsets();
      ElementSpan(View(), i);
      if i == |offsets.value| - 1 {
        name := path[offsets.value[i]..];
      } else {
        name := path[offsets.value[i]..offsets.value[i + 1] - 1];
      }
    }

    static lemma ElementSpan(p: Path, i: nat)
      requires Paths.Valid(p) && i < |Elements(p)|
      ensures var s := OffsetsOf(p);
              |s| == |Elements(p)| && s[i] <= |p.path|
              && (i == |s| - 1 ==> p.path[s[i]..] == Elements(p)[i])
              && (i < |s| - 1 ==> s[i] <= s[i + 1] - 1 <= |p.path| && p.path[s[i]..s[i + 1] - 1] == Elements(p)[i])
    {
      ElementsOfValid(p);
      Rebuild(p);
      assert p.path == p.root + Join(Elements(p), SEP);
      SpanOfElement(p.root, Elements(p), i);
    }

    /** `subpath`; `None` is the `IllegalArgumentException`. */
    method GetSubpath(begin: int, end: int) returns (r: Option<WindowsPath>)
      requires Valid()
      modifies this`offsets
      ensures Valid()
      ensures r.Some? <==> Subpath(View(), begin, end).Some?
      ensures r.Some? ==> fresh(r.value) && r.value.Valid() && r.value.fs == fs
                          && Some(r.value.View()) == Subpath(View(), begin, end)
    {
      InitOffsets();
      var n := |offsets.value|;
      if begin < 0 || begin >= n || end > n || begin >= end {
        return None;
      }
      var text := JoinElements(begin, end);
      SubpathIsValid(View(), begin, end);
      var sub := new WindowsPath(fs, Path(Relative, "", text));
      r := Some(sub);
    }

    /** The `StringJoiner` loop. */
    method JoinElements(begin: nat, end: nat) returns (text: string)
      requires Valid() && begin <= end <= |Elements(View())|
      modifies this`offsets
      ensures Valid() && text == Join(Elements(View())[begin..end], SEP)
    {
      text := "";
      ghost var e := Elements(View());
      var i := begin;
      while i < end
        invariant Valid() && begin <= i <= end
        invariant text == Join(e[begin..i], SEP)
      {
        var name := ElementAsString(i);
        JoinedStep(e, begin, i);
        if i > begin {
          text := text + SLASH;
        }
        text := text + name;
        i := i + 1;
      }
    }

    method HasDotOrDotDot() returns (b: bool)
      requires Valid()
      modifies this`offsets
      ensures Valid() && b == HasDots(Elements(View()))
    {
      var n := GetNameCount();
      var i := 0;
      while i < n
        invariant Valid() && i <= n
        invariant forall j | 0 <= j < i :: Ordinary(Elements(View())[j])
      {
        var name := ElementAsString(i);
        if |name| == 1 && name[0] == '.' {
          assert !Ordinary(name);
          return true;
        }
        if |name| == 2 && name[0] == '.' && name[1] == '.' {
          assert !Ordinary(name);
          return true;
        }
        i := i + 1;
      }
      b := false;
    }

    /** The marking passes: what stays unmarked is the stack reduction of the elements. */
    method MarkRedundant(count: nat) returns (ignore: array<bool>, remaining: nat)
      requires Valid() && count == |Elements(View())| && !View().IsEmpty()
      modifies this`offsets
      ensures Valid() && fresh(ignore) && ignore.Length == count
      ensures Remaining(Elements(View()), ignore[..]) == Reduced(View())
      ensures remaining == |Reduced(View())|
    {
      ghost var names := Elements(View());
      ghost var clamp := Clamped(kind);
      ElementsOfValid(View());
      ignore := new bool[count](_ => false);
      remaining := count;
      AllLive(names, ignore[..], count);
      assert names[..count] == names;
      var again := true;
      while again
        invariant Valid() && fresh(ignore) && ignore.Length == count
        invariant remaining == |Remaining(names, ignore[..])|
        invariant Reduce(clamp, [], Remaining(names, ignore[..])) == Reduce(clamp, [], names)
        invariant !again ==> Normal(clamp, Remaining(names, ignore[..]))
        decreases remaining, again
      {
        var prevRemaining := remaining;
        var left := MarkOnce(ignore, remaining);
        remaining := left;
        again := prevRemaining > remaining;
      }
      assert [] + Remaining(names, ignore[..]) == Remaining(names, ignore[..]);
      ReduceOfNormal(clamp, [], Remaining(names, ignore[..]));
    }

    /** One pass over the elements. */
    method MarkOnce(ignore: array<bool>, before: nat) returns (remaining: int)
      requires Valid() && !View().IsEmpty() && ignore.Length == |Elements(View())|
      requires before == |Remaining(Elements(View()), ignore[..])|
      modifies this`offsets, ignore
      ensures Valid()
      ensures PassDone(Clamped(kind), Elements(View()), ignore[..], remaining, before,
                       Reduce(Clamped(kind), [], old(Remaining(Elements(View()), ignore[..]))))
    {
      ghost var names, clamp := Elements(View()), Clamped(kind);
      ghost var start := Reduce(clamp, [], Remaining(names, ignore[..]));
      PassBegins(clamp, names, ignore[..], before);
      ghost var prevName;
      remaining, prevName := MarkAll(ignore, before, start);
      PassEnds(clamp, names, ignore[..], prevName, remaining, before, start);
    }

    /** The loop of a pass. */
    method MarkAll(ignore: array<bool>, before: nat, ghost start: seq<string>) returns (remaining: int, ghost last: int)
      requires Valid() && !View().IsEmpty() && ignore.Length == |Elements(View())|
      requires Pass(Clamped(kind), Elements(View()), ignore[..], 0, -1, before, before, start)
      modifies this`offsets, ignore
      ensures Valid()
      ensures Pass(Clamped(kind), Elements(View()), ignore[..], ignore.Length, last, remaining, before, start)
    {
      remaining := before;
      var prevName, i := -1, 0;
      while i < ignore.Length
        invariant Valid() && i <= ignore.Length
        invariant Pass(Clamped(kind), Elements(View()), ignore[..], i, prevName, remaining, before, start)
      {
        prevName, remaining := MarkElement(ignore, i, prevName, remaining, before, start);
        i := i + 1;
      }
      last := prevName;
    }

    /** What a pass does at an element. */
    method MarkElement(ignore: array<bool>, i: nat, prev: int, left: int, ghost before: int, ghost start: seq<string>)
      returns (prevName: int, remaining: int)
      requires Valid() && !View().IsEmpty() && i < ignore.Length == |Elements(View())|
      requires Pass(Clamped(kind), Elements(View()), ignore[..], i, prev, left, before, start)
      modifies this`offsets, ignore
      ensures Valid()
      ensures Pass(Clamped(kind), Elements(View()), ignore[..], i + 1, prevName, remaining, before, start)
    {
      ghost var names, marked, clamp := Elements(View()), ignore[..], Clamped(kind);
      prevName, remaining := prev, left;
      if ignore[i] {
        PassSkips(clamp, names, marked, i, prev, left, before, start);
        return;
      }
      var name := ElementAsString(i);
      assert ignore[..] == marked;
      NameIsNotEmpty(i);
      if |name| > 2 {
        PassName(clamp, names, marked, i, prev, left, before, start);
        prevName := i;
      } else if |name| == 1 {
        if name[0] == '.' {
          PassDot(clamp, names, marked, i, prev, left, before, start);
          ignore[i] := true;
          assert ignore[..] == marked[i := true];
          remaining := left - 1;
        } else {
          PassName(clamp, names, marked, i, prev, left, before, start);
          prevName := i;
        }
      } else if name[0] != '.' || name[1] != '.' {
        PassName(clamp, names, marked, i, prev, left, before, start);
        prevName := i;
      } else {
        prevName, remaining := MarkDotDot(ignore, i, prev, left, before, start);
      }
    }

    /** What a pass does at a `..`. */
    method MarkDotDot(ignore: array<bool>, i: nat, prev: int, left: int, ghost before: int, ghost start: seq<string>)
      returns (prevName: int, remaining: int)
      requires Paths.Valid(View()) && i < ignore.Length == |Elements(View())|
      requires Pass(Clamped(kind), Elements(View()), ignore[..], i, prev, left, before, start)
      requires !ignore[i] && Elements(View())[i] == DOTDOT
      modifies ignore
      ensures Pass(Clamped(kind), Elements(View()), ignore[..], i + 1, prevName, remaining, before, start)
    {
      ghost var names, marked, clamp := Elements(View()), ignore[..], Clamped(kind);
      prevName, remaining := prev, left;
      if prevName >= 0 {
        PassPair(clamp, names, marked, i, prevName, remaining, before, start);
        ignore[prevName] := true;
        ignore[i] := true;
        assert ignore[..] == marked[prevName := true][i := true];
        remaining := remaining - 2;
        prevName := -1;
      } else {
        var hasPrevious := true;
        if View().IsAbsolute() || kind == DirectoryRelative {
          hasPrevious := AnyLive(ignore, i);
        }
        if !hasPrevious {
          PassLeading(names, marked, i, prevName, remaining, before, start);
          ignore[i] := true;
          assert ignore[..] == marked[i := true];
          remaining := remaining - 1;
        } else {
          PassKeeps(clamp, names, marked, i, prevName, remaining, before, start);
        }
      }
    }

    lemma NameIsNotEmpty(i: nat)
      requires Paths.Valid(View()) && !View().IsEmpty() && i < |Elements(View())|
      ensures Elements(View())[i] != ""
    {
      assert Clean(NamesOf(View())[i]);
    }

    /** The inner search for an element before `i` that is still there. */
    static method AnyLive(ignore: array<bool>, i: nat) returns (found: bool)
      requires i <= ignore.Length
      ensures found <==> exists j | 0 <= j < i :: !ignore[j]
    {
      found := false;
      var j := 0;
      while j < i
        invariant j <= i && forall k | 0 <= k < j :: ignore[k]
      {
        if !ignore[j] {
          found := true;
          break;
        }
        j := j + 1;
      }
    }

    method GetNormalized() returns (r: WindowsPath)
      requires Valid()
      modifies this`offsets
      ensures Valid() && r.Valid() && r.fs == fs && (r == this || fresh(r))
      ensures r.View() == Normalize(View())
    {
      var count := GetNameCount();
      ElementsOfValid(View());
      NormalizeIsValid(View());
      Rebuild(View());
      if count == 0 || View().IsEmpty() {
        assert NamesOf(View()) == [];
        return this;
      }
      ghost var names := Elements(View());
      var ignore, remaining := MarkRedundant(count);
      if remaining == count {
        KeptAll(names, ignore[..]);
        return this;
      }
      if remaining == 0 {
        if root == "" {
          assert kind.Relative? by { PathEnd(View()); RootIsEmpty(View()); }
          r := new WindowsPath(fs, EMPTY);
        } else {
          r := new WindowsPath(fs, Path(kind, root, root));
        }
        return;
      }
      var text := JoinKept(count, ignore);
      ParseRebuilds(Normalize(View()));
      r := new WindowsPath(fs, Parse(text));
    }

    /** The `StringBuilder` loop: root, every kept element with a separator, last separator cut off. */
    method JoinKept(count: nat, ignore: array<bool>) returns (text: string)
      requires Valid() && count == |Elements(View())| == ignore.Length
      requires Remaining(Elements(View()), ignore[..]) != []
      modifies this`offsets
      ensures Valid() && text == root + Join(Remaining(Elements(View()), ignore[..]), SEP)
    {
      ghost var names, marks := Elements(View()), ignore[..];
      text := root;
      var i := 0;
      while i < count
        invariant Valid() && i <= count && ignore[..] == marks
        invariant text == Built(root, names, marks, i)
      {
        BuiltStep(root, names, marks, i);
        if !ignore[i] {
          var name := ElementAsString(i);
          text := text + name;
          text := text + SLASH;
        }
        i := i + 1;
      }
      CutLast(root, Remaining(names, marks));
      text := text[..|text| - 1];
    }

    static lemma {:induction false} KeptAll(names: seq<string>, marked: seq<bool>)
      requires |names| == |marked| && |Remaining(names, marked)| == |names|
      ensures Remaining(names, marked) == names
    {
      LiveBound(names, marked, |names|);
      assert names[..|names|] == names;
    }

    static lemma {:induction false} LiveBound(names: seq<string>, marked: seq<bool>, hi: nat)
      requires hi <= |names| == |marked|
      ensures |Live(names, marked, 0, hi)| <= hi
      ensures |Live(names, marked, 0, hi)| == hi ==> Live(names, marked, 0, hi) == names[..hi]
      decreases hi
    {
      if hi > 0 {
        LiveBound(names, marked, hi - 1);
      }
    }

    static lemma RootIsEmpty(p: Path)
      requires Paths.Valid(p) && p.root == ""
      ensures p.kind.Relative?
    {
      assert Split("", SEP) == [""];
    }

    // ----- Comparison

    method CompareTo(other: WindowsPath) returns (r: int)
      requires Valid() && other.Valid() && other.fs == fs
      ensures r == Compare(fs.fold.up, path, other.path)
    {
      var n1, n2 := |path|, |other.path|;
      var min := if n1 <= n2 then n1 else n2;
      var i := 0;
      while i < min
        invariant i <= min
        invariant Compare(fs.fold.up, path[i..], other.path[i..]) == Compare(fs.fold.up, path, other.path)
      {
        var c1, c2 := path[i], other.path[i];
        if c1 != c2 {
          c1 := fs.fold.up(c1);
          c2 := fs.fold.up(c2);
          if c1 != c2 {
            return c1 as int - c2 as int;
          }
        }
        i := i + 1;
      }
      r := n1 - n2;
    }

    method Equals(other: WindowsPath) returns (b: bool)
      requires Valid() && other.Valid() && other.fs == fs
      ensures b == Equal(fs.fold.up, View(), other.View())
    {
      var c := CompareTo(other);
      CompareIsDictionaryOrder(fs.fold.up, path, other.path);
      b := c == 0;
    }

    /** `hashCode`, remembered in `hash` once it is not zero. */
    method HashCode() returns (h: int)
      requires Valid()
      modifies this`hash
      ensures Valid() && h == Hash(fs.fold.up, path) && hash == h
    {
      h := hash;
      if h == 0 {
        var i := 0;
        while i < |path|
          invariant i <= |path|
          invariant HashFrom(fs.fold.up, h, path[i..]) == Hash(fs.fold.up, path)
        {
          h := Wrap32(31 * h + fs.fold.up(path[i]) as int);
          i := i + 1;
        }
        hash := h;
      }
    }

    method IsPrefixed(other: WindowsPath) returns (b: bool)
      requires Valid() && other.Valid() && other.fs == fs
      modifies this`offsets, other`offsets
      ensures Valid() && other.Valid()
      ensures b == StartsWith(fs.fold, View(), other.View())
    {
      if !Same(fs.fold.Caseless(), root, other.root) {
        return false;
      }
      if other.path == "" {
        return path == "";
      }
      var thisCount := GetNameCount();
      var otherCount := other.GetNameCount();
      if otherCount > thisCount {
        return false;
      }
      b := MatchBack(fs.fold.Caseless(), other, 0, otherCount, Elements(View()), Elements(other.View()));
    }

    method IsSuffixed(other: WindowsPath) returns (b: bool)
      requires Valid() && other.Valid() && other.fs == fs
      modifies this`offsets, other`offsets
      ensures Valid() && other.Valid()
      ensures b == EndsWith(fs.fold, View(), other.View())
    {
      if |other.path| > |path| {
        return false;
      }
      if other.path == "" {
        return path == "";
      }
      var thisCount := GetNameCount();
      var otherCount := other.GetNameCount();
      if otherCount > thisCount {
        return false;
      }
      if |other.root| > 0 {
        if otherCount < thisCount {
          return false;
        }
        if !Same(fs.fold.Caseless(), root, other.root) {
          return false;
        }
      }
      b := MatchBack(fs.fold.Caseless(), other, thisCount - otherCount, otherCount,
                     Elements(View()), Elements(other.View()));
    }

    /** The loop both share: elements compared from the last one backwards. */
    method MatchBack(g: char -> char, other: WindowsPath, off: nat, count: nat,
                     ghost xe: seq<string>, ghost pe: seq<string>)
      returns (b: bool)
      requires Valid() && other.Valid() && xe == Elements(View()) && pe == Elements(other.View())
      requires count == |pe| && off + count <= |xe|
      modifies this`offsets, other`offsets
      ensures Valid() && other.Valid() && b == AgreeFrom(g, xe, pe, off, 0)
    {
      for k := count downto 0
        invariant Valid() && other.Valid() && AgreeFrom(g, xe, pe, off, k)
      {
        var same := ElementsAgree(g, other, off + k, k);
        if !same {
          AgreeFromEarlier(g, xe, pe, off, 0, k);
          return false;
        }
      }
      b := true;
    }

    /** `equalsIgnoreCase` on one element of each path. */
    method ElementsAgree(g: char -> char, other: WindowsPath, i: nat, j: nat) returns (b: bool)
      requires Valid() && other.Valid() && i < |Elements(View())| && j < |Elements(other.View())|
      modifies this`offsets, other`offsets
      ensures Valid() && other.Valid()
      ensures b == Same(g, Elements(View())[i], Elements(other.View())[j])
    {
      var thisElement := ElementAsString(i);
      var otherElement := other.ElementAsString(j);
      b := Same(g, thisElement, otherElement);
    }

    // ----- relativize

    method RelativizeTo(other: WindowsPath) returns (r: Answer)
      requires Valid() && other.Valid() && other.fs == fs
      modifies this`offsets, other`offsets
      ensures Valid() && other.Valid()
      ensures r.Shows(fs, Relativize(fs.fold, View(), other.View()))
      ensures r == Illegal(DifferentType) <==> kind != other.kind
      ensures r == Illegal(DifferentRoot) <==> kind == other.kind && !Same(fs.fold.Caseless(), root, other.root)
    {
      RelativizeRefuses(fs.fold, View(), other.View());
      var same := Equals(other);
      if same {
        var empty := new WindowsPath(fs, EMPTY);
        return Found(empty);
      }
      if kind != other.kind {
        return Illegal(DifferentType);
      }
      if !Same(fs.fold.Caseless(), root, other.root) {
        return Illegal(DifferentRoot);
      }
      if path == "" {
        return Found(other);
      }
      r := RelativizeNames(other);
    }

    /** Past the guards: both sides normalised when either has dots. */
    method RelativizeNames(other: WindowsPath) returns (r: Answer)
      requires Valid() && other.Valid() && other.fs == fs
      modifies this`offsets, other`offsets
      ensures Valid() && other.Valid()
      ensures var dots := HasDots(Elements(View())) || HasDots(Elements(other.View()));
              r.Shows(fs, if dots then RelativizeReduced(fs.fold.up, Normalize(View()), Normalize(other.View()))
                          else RelativizeReduced(fs.fold.up, View(), other.View()))
    {
      var dots := HasDotOrDotDot();
      if !dots {
        dots := other.HasDotOrDotDot();
      }
      if dots {
        var base := GetNormalized();
        var child := other.GetNormalized();
        r := ClimbAndDescend(base, child);
      } else {
        r := ClimbAndDescend(this, other);
      }
    }

    /** How many leading elements two paths share, up to case. */
    static method SharedNames(base: WindowsPath, child: WindowsPath) returns (i: nat)
      requires base.Valid() && child.Valid() && base.fs == child.fs
      modifies base`offsets, child`offsets
      ensures base.Valid() && child.Valid()
      ensures i == CommonPrefix(base.fs.fold.up, Elements(base.View()), Elements(child.View()))
    {
      ghost var be, ce, g := Elements(base.View()), Elements(child.View()), base.fs.fold.up;
      var baseCount := base.GetNameCount();
      var childCount := child.GetNameCount();
      var n := if baseCount <= childCount then baseCount else childCount;
      i := 0;
      while i < n
        invariant base.Valid() && child.Valid() && i <= n
        invariant CommonPrefix(g, be, ce) == i + CommonPrefix(g, be[i..], ce[i..])
      {
        var baseName := base.ElementAsString(i);
        var childName := child.ElementAsString(i);
        if !Same(base.fs.fold.up, baseName, childName) {
          break;
        }
        assert be[i..][1..] == be[i + 1..] && ce[i..][1..] == ce[i + 1..];
        i := i + 1;
      }
    }

    static method ClimbAndDescend(base: WindowsPath, child: WindowsPath) returns (r: Answer)
      requires base.Valid() && child.Valid() && base.fs == child.fs
      modifies base`offsets, child`offsets
      ensures base.Valid() && child.Valid()
      ensures r.Shows(base.fs, RelativizeReduced(base.fs.fold.up, base.View(), child.View()))
    {
      var i := SharedNames(base, child);
      r := RelativeFrom(base, child, i);
    }

    static method RelativeFrom(base: WindowsPath, child: WindowsPath, i: nat) returns (r: Answer)
      requires base.Valid() && child.Valid() && base.fs == child.fs
      requires i <= |Elements(base.View())| && i <= |Elements(child.View())|
      modifies base`offsets, child`offsets
      ensures base.Valid() && child.Valid()
      ensures r.Shows(base.fs, RelativizeFrom(Elements(base.View()), Elements(child.View()), i))
    {
      ghost var be, ce := Elements(base.View()), Elements(child.View());
      var baseCount := base.GetNameCount();
      var childCount := child.GetNameCount();
      var childRemaining := child.Remainder(i, childCount);
      if i == baseCount {
        return Found(childRemaining);
      }
      r := ClimbBase(base, i, baseCount, childRemaining, ce[i..]);
    }

    static method ClimbBase(base: WindowsPath, i: nat, baseCount: nat, childRemaining: WindowsPath,
                            ghost childRest: seq<string>) returns (r: Answer)
      requires base.Valid() && childRemaining.Valid() && base.fs == childRemaining.fs && base != childRemaining
      requires i < baseCount == |Elements(base.View())|
      requires childRemaining.View() == RelativePath(childRest)
      requires childRemaining.path != "" ==> Elements(childRemaining.View()) == childRest
      modifies base`offsets, childRemaining`offsets
      ensures base.Valid()
      ensures r.Shows(base.fs, ClimbOver(Elements(base.View())[i..], childRest))
    {
      var baseRemaining := base.Remainder(i, baseCount);
      r := ClimbFrom(baseRemaining, childRemaining, Elements(base.View())[i..], childRest);
    }

    /** The rest of the base is climbed, unless it has dots or is empty. */
    static method ClimbFrom(baseRemaining: WindowsPath, childRemaining: WindowsPath,
                            ghost baseRest: seq<string>, ghost childRest: seq<string>) returns (r: Answer)
      requires baseRemaining.Valid() && childRemaining.Valid() && baseRemaining.fs == childRemaining.fs
      requires baseRest != [] && Elements(baseRemaining.View()) == baseRest
      requires baseRemaining.View() == RelativePath(baseRest) && childRemaining.View() == RelativePath(childRest)
      requires childRemaining.path != "" ==> Elements(childRemaining.View()) == childRest
      modifies baseRemaining`offsets, childRemaining`offsets
      ensures r.Shows(childRemaining.fs, ClimbOver(baseRest, childRest))
    {
      var dots := baseRemaining.HasDotOrDotDot();
      if dots {
        return Illegal(NoRelativePath);
      }
      if baseRemaining.path == "" {
        return Found(childRemaining);
      }
      var climbs := baseRemaining.GetNameCount();
      var text := ClimbText(climbs, childRemaining);
      var answer := new WindowsPath(childRemaining.fs, Parse(text));
      r := Found(answer);
    }

    /** The elements from `i` on as a path of their own; none is the empty path. */
    method Remainder(i: nat, count: nat) returns (r: WindowsPath)
      requires Valid() && i <= count == |Elements(View())|
      modifies this`offsets
      ensures Valid() && fresh(r) && r.Valid() && r.fs == fs && r.View() == RelativePath(Elements(View())[i..])
      ensures i < count ==> Elements(r.View()) == Elements(View())[i..]
      ensures r.path != "" ==> Elements(r.View()) == Elements(View())[i..]
      ensures r.path == "" <==> Elements(View())[i..] == [] || Elements(View())[i..] == [""]
    {
      var text := "";
      TailText(View(), i);
      if i < count {
        text := JoinElements(i, count);
      }
      r := new WindowsPath(fs, Path(Relative, "", text));
    }

    /** The remaining elements, as a path of their own. */
    static lemma TailText(p: Path, i: nat)
      requires Paths.Valid(p) && i <= |Elements(p)|
      ensures var t := RelativePath(Elements(p)[i..]);
              Paths.Valid(t) && (i < |Elements(p)| ==> Elements(t) == Elements(p)[i..])
              && (t.IsEmpty() <==> Elements(p)[i..] == [] || Elements(p)[i..] == [""])
              && Elements(p)[i..|Elements(p)|] == Elements(p)[i..]
    {
      ElementsOfValid(p);
      if p.IsEmpty() {
        assert Paths.Valid(EMPTY) && [""][0..] == [""] && [""][1..] == [];
        assert Join([""], SEP) == "";
      } else {
        RelativeIsValid(Elements(p)[i..]);
        if Elements(p)[i..] != [] {
          assert Clean(Elements(p)[i..][0]);
        }
      }
    }

    /** `..\\` for every element to climb, then the elements to descend, last separator cut off. */
    static method ClimbText(climbs: nat, rest: WindowsPath) returns (text: string)
      requires rest.Valid() && rest.kind.Relative? && climbs > 0
      modifies rest`offsets
      ensures rest.Valid()
      ensures var names := DotDots(climbs) + (if rest.path == "" then [] else Elements(rest.View()));
              text == Join(names, SEP) && Paths.Valid(Parse(text))
    {
      ghost var names := DotDots(climbs);
      text := "";
      var j := 0;
      while j < climbs
        invariant rest.Valid() && j <= climbs && text == Slashed(DotDots(j))
      {
        DotDotsAtEnd(j);
        SlashedAppend(DotDots(j), DOTDOT);
        text := text + "..\\";
        j := j + 1;
      }
      assert names + [] == names;
      if rest.path != "" {
        text := rest.AppendElements(text, names);
        names := names + Elements(rest.View());
      }
      CutLast("", names);
      assert "" + Slashed(names) == Slashed(names) && "" + Join(names, SEP) == Join(names, SEP);
      text := text[..|text| - 1];
      ClimbIsValid(climbs, rest.View());
    }

    method AppendElements(prefix: string, ghost names: seq<string>) returns (text: string)
      requires Valid() && prefix == Slashed(names)
      modifies this`offsets
      ensures Valid() && text == Slashed(names + Elements(View()))
    {
      ghost var e := Elements(View());
      text := prefix;
      var n := GetNameCount();
      var j := 0;
      assert names + e[..0] == names;
      while j < n
        invariant Valid() && j <= n && text == Slashed(names + e[..j])
      {
        var name := ElementAsString(j);
        assert names + e[..j + 1] == names + e[..j] + [name];
        SlashedAppend(names + e[..j], name);
        text := text + name;
        text := text + SLASH;
        j := j + 1;
      }
      assert e[..n] == e;
    }

    static lemma ClimbIsValid(climbs: nat, rest: Path)
      requires Paths.Valid(rest) && rest.kind.Relative?
      ensures var names := DotDots(climbs) + (if rest.IsEmpty() then [] else Elements(rest));
              Paths.Valid(Parse(Join(names, SEP)))
    {
      assert Clean(DOTDOT);
      RelativeIsValid(DotDots(climbs) + if rest.IsEmpty() then [] else Elements(rest));
    }
  }

  /** What `relativize` hands back, or the `IllegalArgumentException` it throws. */
  datatype Answer = Found(path: WindowsPath) | Illegal(error: RelError) {
    /** The object answers what the value function answers. */
    ghost predicate Shows(fs: FileSystem, value: RelResult)
      reads if Found? then {path} else {}
    {
      match this
      case Found(p) => p.Valid() && p.fs == fs && value == Ok(p.View())
      case Illegal(e) => value == Refused(e)
    }
  }
}
