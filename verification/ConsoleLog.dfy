/** The console of the hosted server: the ring buffer of its lines, and the reader that follows its logs. */
module ConsoleLog {
  import opened Text

  // ----- The last lines

  const MAX_LINES: nat := 1000

  /** The last `n` of a list. */
  function LastOf<T>(list: seq<T>, n: nat): seq<T> {
    if |list| <= n then list else list[|list| - n..]
  }

  class ConsoleRingBuffer {
    const lines: array<string>
    var writeIdx: nat
    var count: nat

    constructor ()
      ensures Valid() && fresh(lines) && Contents() == []
    {
      lines := new string[MAX_LINES](_ => "");
      writeIdx, count := 0, 0;
    }

    ghost predicate Valid()
      reads this
    {
      lines.Length == MAX_LINES && writeIdx < MAX_LINES && count <= MAX_LINES
      && (count < MAX_LINES ==> writeIdx == count)
    }

    /** The lines that are kept, oldest first. */
    ghost function Contents(): seq<string>
      requires Valid()
      reads this, lines
    {
      if count < MAX_LINES then lines[..count] else lines[writeIdx..] + lines[..writeIdx]
    }

    method Push(text: string)
      requires Valid()
      modifies this, lines
      ensures Valid() && Contents() == LastOf(old(Contents()) + [text], MAX_LINES)
    {
      ghost var was := Contents();
      lines[writeIdx] := text;
      writeIdx := (writeIdx + 1) % MAX_LINES;
      if count < MAX_LINES {
        count := count + 1;
      }
    }

    method At(index: nat) returns (line: string)
      requires Valid() && index < |Contents()|
      ensures line == Contents()[index]
    {
      var start := if count < MAX_LINES then 0 else writeIdx;
      line := lines[(start + index) % MAX_LINES];
      ghost var k := start + index;
      assert k % MAX_LINES == if k < MAX_LINES then k else k - MAX_LINES;
      WrapsAround(lines[..], writeIdx, index);
    }

    method Clear()
      requires Valid()
      modifies this
      ensures Valid() && Contents() == []
    {
      writeIdx, count := 0, 0;
    }
  }

  lemma WrapsAround(s: seq<string>, at: nat, index: nat)
    requires at <= |s| && index < |s|
    ensures (s[at..] + s[..at])[index] == s[if at + index < |s| then at + index else at + index - |s|]
  {
  }

  /** The lines kept after pushing a whole list one by one. */
  function PushAll(kept: seq<string>, list: seq<string>): seq<string>
    decreases |list|
  {
    if list == [] then kept else PushAll(LastOf(kept + [list[0]], MAX_LINES), list[1..])
  }

  /** However many lines were pushed, the buffer holds the last thousand of them, in order. */
  lemma {:induction false} KeepsTheLast(kept: seq<string>, list: seq<string>)
    requires |kept| <= MAX_LINES
    ensures PushAll(kept, list) == LastOf(kept + list, MAX_LINES)
    decreases |list|
  {
    if list == [] {
      assert kept + list == kept;
    } else {
      var next := LastOf(kept + [list[0]], MAX_LINES);
      KeepsTheLast(next, list[1..]);
      var long := kept + list;
      assert kept + [list[0]] + list[1..] == long;
      if |kept| == MAX_LINES {
        assert next + list[1..] == long[1..];
      }
    }
  }

  // ----- Following a log

  /** The text without carriage returns. */
  function DropReturns(raw: string): string {
    if raw == "" then ""
    else if raw[0] == '\r' then DropReturns(raw[1..])
    else [raw[0]] + DropReturns(raw[1..])
  }

  function NonEmpty(pieces: seq<string>): seq<string> {
    if pieces == [] then []
    else if pieces[0] == "" then NonEmpty(pieces[1..])
    else [pieces[0]] + NonEmpty(pieces[1..])
  }

  /** The lines of a text: the non-empty pieces between its line feeds, carriage returns left out. */
  function LinesOf(raw: string): seq<string> {
    NonEmpty(Split(DropReturns(raw), '\n'))
  }

  lemma {:induction false} DropAppend(a: string, b: string)
    ensures DropReturns(a + b) == DropReturns(a) + DropReturns(b)
    decreases |a|
  {
    if a == "" {
      assert a + b == b;
    } else {
      assert (a + b)[1..] == a[1..] + b;
      DropAppend(a[1..], b);
    }
  }

  lemma {:induction false} NonEmptyAppend(a: seq<string>, b: seq<string>)
    ensures NonEmpty(a + b) == NonEmpty(a) + NonEmpty(b)
    decreases |a|
  {
    if a == [] {
      assert a + b == b;
    } else {
      assert (a + b)[1..] == a[1..] + b;
      NonEmptyAppend(a[1..], b);
    }
  }

  class LogFileReader {
    var lastSize: nat

    constructor ()
      ensures lastSize == 0
    {
      lastSize := 0;
    }

    /** Gives the lines of what was added since the last poll; a file that has not grown gives none. */
    method PollNewLines(file: string) returns (lines: seq<string>)
      modifies this
      ensures lastSize == if |file| > old(lastSize) then |file| else old(lastSize)
      ensures lines == if |file| > old(lastSize) then LinesOf(file[old(lastSize)..]) else []
    {
      lines := [];
      if |file| <= lastSize {
        return;
      }
      var raw := file[lastSize..];
      lastSize := |file|;
      lines := SplitLines(raw);
    }

    method Reset()
      modifies this
      ensures lastSize == 0
    {
      lastSize := 0;
    }
  }

  /** What the loop has found of a text: the lines that are over, and the one being read. */
  ghost predicate SoFar(raw: string, lines: seq<string>, current: string) {
    var pieces := Split(DropReturns(raw), '\n');
    lines == NonEmpty(pieces[..|pieces| - 1]) && current == pieces[|pieces| - 1]
  }

  lemma AnotherFeed(raw: string, lines: seq<string>, current: string)
    requires SoFar(raw, lines, current)
    ensures SoFar(raw + ['\n'], if current == "" then lines else lines + [current], "")
  {
    var pieces := Split(DropReturns(raw), '\n');
    DropAppend(raw, ['\n']);
    assert DropReturns(['\n']) == ['\n'];
    SplitCut(DropReturns(raw), ['\n'], '\n');
    assert ['\n'][1..] == "" && Split(['\n'], '\n') == ["", ""];
    assert current + "" == current && pieces == pieces[..|pieces| - 1] + [current];
    assert Split(DropReturns(raw + ['\n']), '\n') == pieces + [""];
    NonEmptyAppend(pieces[..|pieces| - 1], [current]);
    OnePiece(current);
  }

  lemma AnotherChar(raw: string, ch: char, lines: seq<string>, current: string)
    requires SoFar(raw, lines, current) && ch != '\n'
    ensures SoFar(raw + [ch], lines, if ch == '\r' then current else current + [ch])
  {
    var pieces := Split(DropReturns(raw), '\n');
    DropAppend(raw, [ch]);
    assert DropReturns([ch]) == if ch == '\r' then "" else [ch];
    if ch == '\r' {
      assert DropReturns(raw) + "" == DropReturns(raw);
    } else {
      SplitCut(DropReturns(raw), [ch], '\n');
      assert [ch][1..] == "" && Split([ch], '\n') == [[ch]];
      assert Split(DropReturns(raw + [ch]), '\n') == pieces[..|pieces| - 1] + [current + [ch]];
    }
  }

  method SplitLines(raw: string) returns (lines: seq<string>)
    ensures lines == LinesOf(raw)
  {
    lines := [];
    var current := "";
    for i := 0 to |raw|
      invariant SoFar(raw[..i], lines, current)
    {
      var ch := raw[i];
      assert raw[..i + 1] == raw[..i] + [ch];
      if ch == '\n' {
        AnotherFeed(raw[..i], lines, current);
      } else {
        AnotherChar(raw[..i], ch, lines, current);
      }
      if ch == '\n' || ch == '\r' {
        if ch == '\n' && current != "" {
          lines := lines + [current];
          current := "";
        }
      } else {
        current := current + [ch];
      }
    }
    assert raw[..|raw|] == raw;
    ghost var pieces := Split(DropReturns(raw), '\n');
    assert pieces == pieces[..|pieces| - 1] + [current];
    NonEmptyAppend(pieces[..|pieces| - 1], [current]);
    if current != "" {
      lines := lines + [current];
    }
  }

  // ----- Many polls

  /** Reading on at `b` what was read up to `a` cuts a line in two. */
  predicate CutsLine(a: string, b: string) {
    var x, y := DropReturns(a), DropReturns(b);
    x != "" && y != "" && x[|x| - 1] != '\n' && y[0] != '\n'
  }

  /** Two readings give one line more than one reading would exactly when the cut goes through a line;
      else they give the same lines. */
  lemma LinesOfTwo(a: string, b: string)
    ensures !CutsLine(a, b) ==> LinesOf(a + b) == LinesOf(a) + LinesOf(b)
    ensures CutsLine(a, b) ==> |LinesOf(a + b)| + 1 == |LinesOf(a)| + |LinesOf(b)|
  {
    var x, y := Split(DropReturns(a), '\n'), Split(DropReturns(b), '\n');
    var front, last, first, rest := x[..|x| - 1], x[|x| - 1], y[0], y[1..];
    DropAppend(a, b);
    SplitCut(DropReturns(a), DropReturns(b), '\n');
    SplitEnds(DropReturns(a), '\n');
    SplitEnds(DropReturns(b), '\n');
    JoinedPieces(front, last, first, rest);
    assert x == front + [last] && y == [first] + rest;
  }

  lemma JoinedPieces(front: seq<string>, last: string, first: string, rest: seq<string>)
    ensures var whole := NonEmpty(front + [last + first] + rest);
            var parts := NonEmpty(front + [last]) + NonEmpty([first] + rest);
            if last == "" || first == "" then whole == parts else |whole| + 1 == |parts|
  {
    Middle(front, last + first, rest);
    NonEmptyAppend(front, [last]);
    NonEmptyAppend([first], rest);
    OnePiece(last);
    OnePiece(first);
    FourParts(NonEmpty(front), NonEmpty([last]), NonEmpty([first]), NonEmpty(rest));
    assert last == "" ==> last + first == first;
    assert first == "" ==> last + first == last;
  }

  lemma FourParts(f: seq<string>, l: seq<string>, h: seq<string>, r: seq<string>)
    ensures (f + l) + (h + r) == f + (l + h) + r
    ensures l == [] ==> l + h == h
    ensures h == [] ==> l + h == l
  {
  }

  lemma Middle(front: seq<string>, piece: string, rest: seq<string>)
    ensures NonEmpty(front + [piece] + rest) == NonEmpty(front) + (if piece == "" then [] else [piece]) + NonEmpty(rest)
  {
    NonEmptyAppend(front + [piece], rest);
    NonEmptyAppend(front, [piece]);
    OnePiece(piece);
  }

  lemma OnePiece(s: string)
    ensures NonEmpty([s]) == if s == "" then [] else [s]
  {
    assert [s][1..] == [];
  }

  /** What successive polls of a log read, when `sizes` are its sizes at the polls. */
  function Polled(log: string, last: nat, sizes: seq<nat>): seq<string>
    requires last <= |log| && forall i | 0 <= i < |sizes| :: sizes[i] <= |log|
    decreases |sizes|
  {
    if sizes == [] then []
    else if sizes[0] > last then LinesOf(log[last..sizes[0]]) + Polled(log, sizes[0], sizes[1..])
    else Polled(log, last, sizes[1..])
  }

  function Furthest(last: nat, sizes: seq<nat>): nat
    decreases |sizes|
  {
    if sizes == [] then last else Furthest(if sizes[0] > last then sizes[0] else last, sizes[1..])
  }

  /** No poll stops in the middle of a line of what is read in the end. */
  predicate NoPollCuts(log: string, last: nat, sizes: seq<nat>)
    requires last <= |log| && forall i | 0 <= i < |sizes| :: sizes[i] <= |log|
    decreases |sizes|
  {
    if sizes == [] then true
    else if sizes[0] > last then
      FurthestReaches(log, sizes[0], sizes[1..]);
      !CutsLine(log[last..sizes[0]], log[sizes[0]..Furthest(sizes[0], sizes[1..])])
      && NoPollCuts(log, sizes[0], sizes[1..])
    else NoPollCuts(log, last, sizes[1..])
  }

  lemma {:induction false} FurthestReaches(log: string, last: nat, sizes: seq<nat>)
    requires last <= |log| && forall i | 0 <= i < |sizes| :: sizes[i] <= |log|
    ensures last <= Furthest(last, sizes) <= |log|
    decreases |sizes|
  {
    if sizes != [] {
      FurthestReaches(log, if sizes[0] > last then sizes[0] else last, sizes[1..]);
    }
  }

  /** However the polls fall between the writes, together they give the lines of the log up to the furthest
      poll if and only if no poll cuts a line; every cut gives one line too many. */
  lemma {:induction false} PollsGiveTheLines(log: string, last: nat, sizes: seq<nat>)
    requires last <= |log| && forall i | 0 <= i < |sizes| :: sizes[i] <= |log|
    ensures last <= Furthest(last, sizes) <= |log|
    ensures |Polled(log, last, sizes)| >= |LinesOf(log[last..Furthest(last, sizes)])|
    ensures Polled(log, last, sizes) == LinesOf(log[last..Furthest(last, sizes)]) <==> NoPollCuts(log, last, sizes)
    ensures |Polled(log, last, sizes)| == |LinesOf(log[last..Furthest(last, sizes)])| <==> NoPollCuts(log, last, sizes)
    decreases |sizes|
  {
    FurthestReaches(log, last, sizes);
    if sizes == [] {
      assert log[last..last] == "" && Split("", '\n') == [""];
      OnePiece("");
    } else if sizes[0] > last {
      PollsGiveTheLines(log, sizes[0], sizes[1..]);
      var end := Furthest(sizes[0], sizes[1..]);
      assert log[last..end] == log[last..sizes[0]] + log[sizes[0]..end];
      LinesOfTwo(log[last..sizes[0]], log[sizes[0]..end]);
    } else {
      PollsGiveTheLines(log, last, sizes[1..]);
    }
  }

  function Flat(lines: seq<string>): string {
    if lines == [] then "" else lines[0] + Flat(lines[1..])
  }

  /** The bytes of a text but for carriage returns and line feeds. */
  function Visible(raw: string): string {
    if raw == "" then ""
    else if raw[0] == '\n' || raw[0] == '\r' then Visible(raw[1..])
    else [raw[0]] + Visible(raw[1..])
  }

  lemma {:induction false} VisibleAppend(a: string, b: string)
    ensures Visible(a + b) == Visible(a) + Visible(b)
    decreases |a|
  {
    if a == "" {
      assert a + b == b;
    } else {
      assert (a + b)[1..] == a[1..] + b;
      VisibleAppend(a[1..], b);
    }
  }

  lemma {:induction false} FlatAppend(a: seq<string>, b: seq<string>)
    ensures Flat(a + b) == Flat(a) + Flat(b)
    decreases |a|
  {
    if a == [] {
      assert a + b == b;
    } else {
      assert (a + b)[1..] == a[1..] + b;
      FlatAppend(a[1..], b);
    }
  }

  /** The lines of a text hold all its visible bytes, in order. */
  lemma {:induction false} LinesAreVisible(raw: string)
    ensures Flat(NonEmpty(Split(DropReturns(raw), '\n'))) == Visible(raw)
  {
    if raw == "" {
      assert Split("", '\n') == [""];
      OnePiece("");
    } else {
      LinesAreVisible(raw[1..]);
      var rest := Split(DropReturns(raw[1..]), '\n');
      if raw[0] == '\n' {
        assert ([""] + rest)[1..] == rest;
      } else if raw[0] != '\r' {
        HeadGrows(raw[0], rest[0], rest[1..]);
        assert [rest[0]] + rest[1..] == rest;
        assert ([raw[0]] + DropReturns(raw[1..]))[1..] == DropReturns(raw[1..]);
      }
    }
  }

  lemma FlatOfHead(head: string, rest: seq<string>)
    ensures Flat(NonEmpty([head] + rest)) == head + Flat(NonEmpty(rest))
  {
    assert ([head] + rest)[1..] == rest;
    if head != "" {
      assert ([head] + NonEmpty(rest))[1..] == NonEmpty(rest);
    }
  }

  lemma HeadGrows(c: char, head: string, rest: seq<string>)
    ensures Flat(NonEmpty([[c] + head] + rest)) == [c] + Flat(NonEmpty([head] + rest))
  {
    FlatOfHead([c] + head, rest);
    FlatOfHead(head, rest);
    Regroup([c], head, Flat(NonEmpty(rest)));
  }

  lemma Regroup(a: string, b: string, c: string)
    ensures (a + b) + c == a + (b + c)
  {
  }

  /** Cut lines or not, no byte is lost and none read twice. */
  lemma {:induction false} NothingIsLost(log: string, last: nat, sizes: seq<nat>)
    requires last <= |log| && forall i | 0 <= i < |sizes| :: sizes[i] <= |log|
    ensures last <= Furthest(last, sizes) <= |log|
    ensures Flat(Polled(log, last, sizes)) == Visible(log[last..Furthest(last, sizes)])
    decreases |sizes|
  {
    FurthestReaches(log, last, sizes);
    if sizes != [] {
      var next := if sizes[0] > last then sizes[0] else last;
      NothingIsLost(log, next, sizes[1..]);
      if sizes[0] > last {
        var end := Furthest(next, sizes[1..]);
        assert log[last..end] == log[last..next] + log[next..end];
        VisibleAppend(log[last..next], log[next..end]);
        LinesAreVisible(log[last..next]);
        FlatAppend(LinesOf(log[last..next]), Polled(log, next, sizes[1..]));
      }
    }
  }
}
