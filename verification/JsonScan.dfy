/** The scanners that find values in JSON text by bracket depth and string state, against the grammar of
    JSON (section 2 of RFC 8259). */
module JsonScan {
  import opened Text

  // ----- JSON texts

  /** Values as they are printed: bodies of strings with their escapes, atoms (numbers, `true`, `false`,
      `null`) as text, white space anywhere around values. */
  datatype Json =
    | Str(body: string)
    | Atom(text: string)
    | Arr(pad: string, items: seq<Json>)
    | Obj(pad: string, members: seq<Member>)
    | Spaced(before: string, value: Json, after: string)

  datatype Member = Member(before: string, key: string, middle: string, value: Json)

  function Print(v: Json): string
    decreases v, 1
  {
    match v
    case Str(body) => Quoted(body)
    case Atom(text) => text
    case Arr(pad, items) => "[" + (pad + PrintItems(items)) + "]"
    case Obj(pad, members) => "{" + (pad + PrintMembers(members)) + "}"
    case Spaced(before, value, after) => before + Print(value) + after
  }

  function Quoted(body: string): string {
    "\"" + body + "\""
  }

  function PrintItems(items: seq<Json>): string
    decreases items, 0
  {
    if items == [] then ""
    else if |items| == 1 then Print(items[0])
    else Print(items[0]) + "," + PrintItems(items[1..])
  }

  function PrintMembers(members: seq<Member>): string
    decreases members, 0
  {
    if members == [] then ""
    else if |members| == 1 then MemberHead(members[0]) + Print(members[0].value)
    else MemberHead(members[0]) + Print(members[0].value) + "," + PrintMembers(members[1..])
  }

  function MemberHead(m: Member): string {
    m.before + Quoted(m.key) + (m.middle + ":")
  }

  /** A string body: every quote is escaped, and every backslash escapes a character. */
  predicate BodyOk(body: string) {
    if body == "" then true
    else if body[0] == '\\' then |body| > 1 && BodyOk(body[2..])
    else body[0] != '"' && BodyOk(body[1..])
  }

  /** Text outside strings that opens and closes nothing. */
  predicate Inert(c: char) {
    c != '"' && c != '{' && c != '}' && c != '[' && c != ']'
  }

  predicate AllInert(s: string) {
    forall i | 0 <= i < |s| :: Inert(s[i])
  }

  predicate WellFormed(v: Json)
    decreases v, 1
  {
    match v
    case Str(body) => BodyOk(body)
    case Atom(text) => AllInert(text)
    case Arr(pad, items) => AllInert(pad) && ItemsWellFormed(items)
    case Obj(pad, members) => AllInert(pad) && MembersWellFormed(members)
    case Spaced(before, value, after) => AllInert(before) && WellFormed(value) && AllInert(after)
  }

  predicate ItemsWellFormed(items: seq<Json>)
    decreases items, 0
  {
    items == [] || (WellFormed(items[0]) && ItemsWellFormed(items[1..]))
  }

  predicate MembersWellFormed(members: seq<Member>)
    decreases members, 0
  {
    members == []
    || (AllInert(members[0].before) && BodyOk(members[0].key) && AllInert(members[0].middle)
        && WellFormed(members[0].value) && MembersWellFormed(members[1..]))
  }

  // ----- Running over text by depth and string state

  /** The kind of bracket a scanner counts; it ignores the other kind. */
  datatype Brackets = Curly | Square {
    function Open(): char { if Curly? then '{' else '[' }
    function Close(): char { if Curly? then '}' else ']' }
  }

  /** Run over `s[p..q]` from depth `d`: every step is inside the text, depth never falls to zero, a
      backslash in a string skips the next character, and the run ends at `q` outside strings at depth `e`. */
  ghost predicate Runs(b: Brackets, s: string, p: nat, q: nat, d: int, inStr: bool, e: int)
    decreases q - p
  {
    if p >= q then p == q && !inStr && d == e
    else if p >= |s| then false
    else if inStr then
      if s[p] == '\\' then Runs(b, s, p + 2, q, d, true, e)
      else Runs(b, s, p + 1, q, d, s[p] != '"', e)
    else if s[p] == '"' then Runs(b, s, p + 1, q, d, true, e)
    else if s[p] == b.Open() then Runs(b, s, p + 1, q, d + 1, false, e)
    else if s[p] == b.Close() then d > 1 && Runs(b, s, p + 1, q, d - 1, false, e)
    else Runs(b, s, p + 1, q, d, false, e)
  }

  lemma {:induction false} RunsOn(b: Brackets, s: string, p: nat, q: nat, r: nat, d: int, inStr: bool, e: int, g: int)
    requires Runs(b, s, p, q, d, inStr, e) && Runs(b, s, q, r, e, false, g) && q <= r
    ensures Runs(b, s, p, r, d, inStr, g)
    decreases q - p
  {
    if p < q {
      if inStr {
        if s[p] == '\\' {
          RunsOn(b, s, p + 2, q, r, d, true, e, g);
        } else {
          RunsOn(b, s, p + 1, q, r, d, s[p] != '"', e, g);
        }
      } else if s[p] == '"' {
        RunsOn(b, s, p + 1, q, r, d, true, e, g);
      } else if s[p] == b.Open() {
        RunsOn(b, s, p + 1, q, r, d + 1, false, e, g);
      } else if s[p] == b.Close() {
        RunsOn(b, s, p + 1, q, r, d - 1, false, e, g);
      } else {
        RunsOn(b, s, p + 1, q, r, d, false, e, g);
      }
    }
  }

  lemma {:induction false} InertRuns(b: Brackets, s: string, p: nat, t: string, q: nat, d: int)
    requires AllInert(t) && Matches(s, t, p) && q == p + |t|
    ensures Runs(b, s, p, q, d, false, d)
    decreases |t|
  {
    if t != "" {
      MatchChar(s, t, p, 0);
      MatchTail(s, t, p, 1);
      InertRuns(b, s, p + 1, t[1..], q, d);
    }
  }

  lemma MatchTail(s: string, t: string, p: nat, n: nat)
    requires Matches(s, t, p) && n <= |t|
    ensures Matches(s, t[n..], p + n)
  {
    var u := t[n..];
    forall k | 0 <= k < |u| ensures s[p + n + k] == u[k] {
      MatchChar(s, t, p, n + k);
    }
  }

  /** From inside a string over the rest of its body and the closing quote. */
  lemma {:induction false} BodyRuns(b: Brackets, s: string, p: nat, body: string, q: nat, d: int)
    requires BodyOk(body) && Matches(s, body, p) && q == p + |body| + 1 && q <= |s| && s[q - 1] == '"'
    ensures Runs(b, s, p, q, d, true, d)
    decreases |body|
  {
    if body == "" {
      assert Runs(b, s, q, q, d, false, d);
    } else {
      MatchChar(s, body, p, 0);
      var n := if body[0] == '\\' then 2 else 1;
      MatchTail(s, body, p, n);
      BodyRuns(b, s, p + n, body[n..], q, d);
    }
  }

  lemma QuotedRuns(b: Brackets, s: string, p: nat, body: string, q: nat, d: int)
    requires BodyOk(body) && Matches(s, Quoted(body), p) && q == p + |Quoted(body)|
    ensures Runs(b, s, p, q, d, false, d)
  {
    MatchesConcat(s, "\"" + body, "\"", p);
    MatchesConcat(s, "\"", body, p);
    MatchChar(s, "\"", p, 0);
    MatchChar(s, "\"", q - 1, 0);
    BodyRuns(b, s, p + 1, body, q, d);
  }

  /** Over two pieces of text, one after the other. */
  lemma PairRuns(b: Brackets, s: string, p: nat, m: nat, q: nat, d: int)
    requires Runs(b, s, p, m, d, false, d) && Runs(b, s, m, q, d, false, d) && m <= q
    ensures Runs(b, s, p, q, d, false, d)
  {
    RunsOn(b, s, p, m, q, d, false, d, d);
  }

  /** The pieces of a bracketed text. */
  lemma Bracketed(s: string, open: string, inside: string, close: string, p: nat, q: nat)
    requires |open| == 1 && |close| == 1 && Matches(s, open + inside + close, p) && q == p + |inside| + 2
    ensures p + 2 <= q <= |s| && s[p] == open[0] && s[q - 1] == close[0] && Matches(s, inside, p + 1)
  {
    MatchesConcat(s, open + inside, close, p);
    MatchesConcat(s, open, inside, p);
    MatchChar(s, open, p, 0);
    MatchChar(s, close, q - 1, 0);
  }

  /** Any printed value, from any depth at least one, is run over and leaves the depth as it was. */
  lemma {:induction false} ValueRuns(b: Brackets, s: string, p: nat, v: Json, q: nat, d: int)
    requires WellFormed(v) && Matches(s, Print(v), p) && q == p + |Print(v)| && d >= 1
    ensures Runs(b, s, p, q, d, false, d)
    decreases v, 2
  {
    match v {
      case Str(body) => QuotedRuns(b, s, p, body, q, d);
      case Atom(text) => InertRuns(b, s, p, text, q, d);
      case Arr(pad, items) => ArrRuns(b, s, p, pad, items, q, d);
      case Obj(pad, members) => ObjRuns(b, s, p, pad, members, q, d);
      case Spaced(before, value, after) =>
        MatchesConcat(s, before + Print(value), after, p);
        MatchesConcat(s, before, Print(value), p);
        var m := p + |before|;
        InertRuns(b, s, p, before, m, d);
        ValueRuns(b, s, m, value, m + |Print(value)|, d);
        InertRuns(b, s, m + |Print(value)|, after, q, d);
        PairRuns(b, s, p, m, m + |Print(value)|, d);
        PairRuns(b, s, p, m + |Print(value)|, q, d);
    }
  }

  lemma {:induction false} ArrRuns(b: Brackets, s: string, p: nat, pad: string, items: seq<Json>, q: nat, d: int)
    requires AllInert(pad) && ItemsWellFormed(items) && d >= 1
    requires Matches(s, "[" + (pad + PrintItems(items)) + "]", p) && q == p + |pad + PrintItems(items)| + 2
    ensures Runs(b, s, p, q, d, false, d)
    decreases items, 2
  {
    var inside := if b.Square? then d + 1 else d;
    Bracketed(s, "[", pad + PrintItems(items), "]", p, q);
    ArrInside(b, s, p + 1, pad, items, q - 1, inside);
    BracketsRun(b, s, p, '[', ']', q, d);
  }

  lemma {:induction false} ObjRuns(b: Brackets, s: string, p: nat, pad: string, members: seq<Member>, q: nat, d: int)
    requires AllInert(pad) && MembersWellFormed(members) && d >= 1
    requires Matches(s, "{" + (pad + PrintMembers(members)) + "}", p) && q == p + |pad + PrintMembers(members)| + 2
    ensures Runs(b, s, p, q, d, false, d)
    decreases members, 2
  {
    var inside := if b.Curly? then d + 1 else d;
    Bracketed(s, "{", pad + PrintMembers(members), "}", p, q);
    ObjInside(b, s, p + 1, pad, members, q - 1, inside);
    BracketsRun(b, s, p, '{', '}', q, d);
  }

  /** Between an opening and a closing bracket, counted or not. */
  lemma BracketsRun(b: Brackets, s: string, p: nat, open: char, close: char, q: nat, d: int)
    requires d >= 1 && p + 2 <= q <= |s| && s[p] == open && s[q - 1] == close
    requires (open == '{' && close == '}') || (open == '[' && close == ']')
    requires var inside := if b.Open() == open then d + 1 else d; Runs(b, s, p + 1, q - 1, inside, false, inside)
    ensures Runs(b, s, p, q, d, false, d)
  {
    var inside := if b.Open() == open then d + 1 else d;
    assert Runs(b, s, q, q, d, false, d);
    assert Runs(b, s, q - 1, q, inside, false, d);
    RunsOn(b, s, p + 1, q - 1, q, inside, false, inside, d);
  }

  lemma {:induction false} ArrInside(b: Brackets, s: string, p: nat, pad: string, items: seq<Json>, q: nat, d: int)
    requires AllInert(pad) && ItemsWellFormed(items) && d >= 1
    requires Matches(s, pad + PrintItems(items), p) && q == p + |pad + PrintItems(items)|
    ensures Runs(b, s, p, q, d, false, d)
    decreases items, 1
  {
    MatchesConcat(s, pad, PrintItems(items), p);
    InertRuns(b, s, p, pad, p + |pad|, d);
    ItemsRun(b, s, p + |pad|, items, q, d);
    PairRuns(b, s, p, p + |pad|, q, d);
  }

  lemma {:induction false} ItemsRun(b: Brackets, s: string, p: nat, items: seq<Json>, q: nat, d: int)
    requires ItemsWellFormed(items) && d >= 1
    requires Matches(s, PrintItems(items), p) && q == p + |PrintItems(items)|
    ensures Runs(b, s, p, q, d, false, d)
    decreases items, 0
  {
    if |items| == 1 {
      ValueRuns(b, s, p, items[0], q, d);
    } else if items != [] {
      var one, rest := Print(items[0]), PrintItems(items[1..]);
      var m := p + |one|;
      MatchesConcat(s, one + ",", rest, p);
      MatchesConcat(s, one, ",", p);
      ValueRuns(b, s, p, items[0], m, d);
      InertRuns(b, s, m, ",", m + 1, d);
      ItemsRun(b, s, m + 1, items[1..], q, d);
      PairRuns(b, s, p, m, m + 1, d);
      PairRuns(b, s, p, m + 1, q, d);
    }
  }

  lemma {:induction false} ObjInside(b: Brackets, s: string, p: nat, pad: string, members: seq<Member>, q: nat, d: int)
    requires AllInert(pad) && MembersWellFormed(members) && d >= 1
    requires Matches(s, pad + PrintMembers(members), p) && q == p + |pad + PrintMembers(members)|
    ensures Runs(b, s, p, q, d, false, d)
    decreases members, 1
  {
    MatchesConcat(s, pad, PrintMembers(members), p);
    InertRuns(b, s, p, pad, p + |pad|, d);
    MembersRun(b, s, p + |pad|, members, q, d);
    PairRuns(b, s, p, p + |pad|, q, d);
  }

  lemma HeadRuns(b: Brackets, s: string, p: nat, m: Member, q: nat, d: int)
    requires AllInert(m.before) && BodyOk(m.key) && AllInert(m.middle)
    requires Matches(s, MemberHead(m), p) && q == p + |MemberHead(m)|
    ensures Runs(b, s, p, q, d, false, d)
  {
    MatchesConcat(s, m.before + Quoted(m.key), m.middle + ":", p);
    MatchesConcat(s, m.before, Quoted(m.key), p);
    var i := p + |m.before|;
    var j := i + |Quoted(m.key)|;
    InertRuns(b, s, p, m.before, i, d);
    QuotedRuns(b, s, i, m.key, j, d);
    InertRuns(b, s, j, m.middle + ":", q, d);
    PairRuns(b, s, p, i, j, d);
    PairRuns(b, s, p, j, q, d);
  }

  lemma {:induction false} MembersRun(b: Brackets, s: string, p: nat, members: seq<Member>, q: nat, d: int)
    requires MembersWellFormed(members) && d >= 1
    requires Matches(s, PrintMembers(members), p) && q == p + |PrintMembers(members)|
    ensures Runs(b, s, p, q, d, false, d)
    decreases members, 0
  {
    if members != [] {
      var head, one := MemberHead(members[0]), Print(members[0].value);
      var i := p + |head|;
      var j := i + |one|;
      if |members| > 1 {
        MatchesConcat(s, head + one + ",", PrintMembers(members[1..]), p);
        MatchesConcat(s, head + one, ",", p);
      }
      MatchesConcat(s, head, one, p);
      HeadRuns(b, s, p, members[0], i, d);
      ValueRuns(b, s, i, members[0].value, j, d);
      PairRuns(b, s, p, i, j, d);
      if |members| > 1 {
        InertRuns(b, s, j, ",", j + 1, d);
        MembersRun(b, s, j + 1, members[1..], q, d);
        PairRuns(b, s, p, j, j + 1, d);
        PairRuns(b, s, p, j + 1, q, d);
      }
    }
  }

  // ----- JsonValueSpan

  /** Where the bracket that brings the depth back to zero stands. */
  function SpanEnd(b: Brackets, s: string, p: nat, depth: int, inStr: bool): (r: Option<nat>)
    ensures r.Some? ==> p <= r.value < |s|
    decreases |s| - p
  {
    if p >= |s| then None
    else if inStr then
      if s[p] == '\\' then SpanEnd(b, s, p + 2, depth, true) else SpanEnd(b, s, p + 1, depth, s[p] != '"')
    else if s[p] == '"' then SpanEnd(b, s, p + 1, depth, true)
    else if s[p] == b.Open() then SpanEnd(b, s, p + 1, depth + 1, false)
    else if s[p] == b.Close() then
      if depth == 1 then Some(p) else SpanEnd(b, s, p + 1, depth - 1, false)
    else SpanEnd(b, s, p + 1, depth, false)
  }

  function SkipBlanks(s: string, p: nat): (r: nat)
    ensures p <= r && (r < |s| ==> s[r] > ' ')
    decreases |s| - p
  {
    if p < |s| && s[p] <= ' ' then SkipBlanks(s, p + 1) else p
  }

  /** Where the value behind the first text `"key"` at or after `from` starts. */
  function ValueStart(s: string, key: string, from: nat): Option<nat> {
    match Find(s, Quoted(key), from)
    case None => None
    case Some(at) =>
      match Find(s, ":", at + |Quoted(key)|)
      case None => None
      case Some(colon) => Some(SkipBlanks(s, colon + 1))
  }

  function ValueSpan(s: string, key: string): string {
    match ValueStart(s, key, 0)
    case None => ""
    case Some(start) =>
      if start >= |s| || (s[start] != '{' && s[start] != '[') then ""
      else match SpanEnd(if s[start] == '{' then Curly else Square, s, start, 0, false)
        case None => ""
        case Some(end) => s[start..end + 1]
  }

  method FindValueStart(s: string, key: string, from: nat) returns (r: Option<nat>)
    ensures r == ValueStart(s, key, from)
  {
    var at := Find(s, Quoted(key), from);
    if at.None? {
      return None;
    }
    var colon := Find(s, ":", at.value + |Quoted(key)|);
    if colon.None? {
      return None;
    }
    var p := colon.value + 1;
    while p < |s| && s[p] <= ' '
      invariant SkipBlanks(s, p) == SkipBlanks(s, colon.value + 1)
      decreases |s| - p
    {
      p := p + 1;
    }
    r := Some(p);
  }

  method JsonValueSpan(s: string, key: string) returns (span: string)
    ensures span == ValueSpan(s, key)
  {
    var start := FindValueStart(s, key, 0);
    if start.None? || start.value >= |s| {
      return "";
    }
    var open := s[start.value];
    if open != '{' && open != '[' {
      return "";
    }
    ghost var b := if open == '{' then Curly else Square;
    var close := if open == '{' then '}' else ']';
    var depth, inStr, p := 0, false, start.value;
    while p < |s|
      invariant start.value <= p
      invariant SpanEnd(b, s, p, depth, inStr) == SpanEnd(b, s, start.value, 0, false)
      decreases |s| - p
    {
      var c := s[p];
      if inStr {
        if c == '\\' {
          p := p + 1;
        } else if c == '"' {
          inStr := false;
        }
      } else if c == '"' {
        inStr := true;
      } else if c == open {
        depth := depth + 1;
      } else if c == close {
        depth := depth - 1;
        if depth == 0 {
          return s[start.value..p + 1];
        }
      }
      p := p + 1;
    }
    span := "";
  }

  lemma {:induction false} SpanRunsOn(b: Brackets, s: string, p: nat, q: nat, d: int, inStr: bool, e: int)
    requires Runs(b, s, p, q, d, inStr, e)
    ensures SpanEnd(b, s, p, d, inStr) == SpanEnd(b, s, q, e, false)
    decreases q - p
  {
    if p < q {
      if inStr {
        if s[p] == '\\' {
          SpanRunsOn(b, s, p + 2, q, d, true, e);
        } else {
          SpanRunsOn(b, s, p + 1, q, d, s[p] != '"', e);
        }
      } else if s[p] == '"' {
        SpanRunsOn(b, s, p + 1, q, d, true, e);
      } else if s[p] == b.Open() {
        SpanRunsOn(b, s, p + 1, q, d + 1, false, e);
      } else if s[p] == b.Close() {
        SpanRunsOn(b, s, p + 1, q, d - 1, false, e);
      } else {
        SpanRunsOn(b, s, p + 1, q, d, false, e);
      }
    }
  }

  /** From the opening bracket of a printed object or array the scan stops at its closing bracket. */
  lemma SpanOfValue(s: string, p: nat, v: Json, q: nat)
    requires WellFormed(v) && (v.Obj? || v.Arr?) && Matches(s, Print(v), p) && q == p + |Print(v)|
    ensures p < q <= |s| && s[p] == (if v.Obj? then '{' else '[')
    ensures SpanEnd(if v.Obj? then Curly else Square, s, p, 0, false) == Some(q - 1)
  {
    var b := if v.Obj? then Curly else Square;
    if v.Obj? {
      Bracketed(s, "{", v.pad + PrintMembers(v.members), "}", p, q);
      ObjInside(b, s, p + 1, v.pad, v.members, q - 1, 1);
    } else {
      Bracketed(s, "[", v.pad + PrintItems(v.items), "]", p, q);
      ArrInside(b, s, p + 1, v.pad, v.items, q - 1, 1);
    }
    SpanRunsOn(b, s, p + 1, q - 1, 1, false, 1);
  }

  predicate Blank(s: string) {
    forall i | 0 <= i < |s| :: s[i] <= ' '
  }

  lemma {:induction false} BlanksAreSkipped(s: string, p: nat, blanks: string, q: nat)
    requires Blank(blanks) && Matches(s, blanks, p) && q == p + |blanks| && (q < |s| ==> s[q] > ' ')
    ensures SkipBlanks(s, p) == q
    decreases |blanks|
  {
    if blanks != "" {
      MatchChar(s, blanks, p, 0);
      MatchTail(s, blanks, p, 1);
      BlanksAreSkipped(s, p + 1, blanks[1..], q);
    }
  }

  /** The first text `"key"` at or after `from` is a key: white space, a colon and more white space lead
      from it to the value at `start`. */
  ghost predicate KeyLeadsTo(s: string, key: string, from: nat, gap: string, blanks: string, start: nat) {
    var at := Find(s, Quoted(key), from);
    at.Some?
    && ':' !in gap && Blank(blanks)
    && var colon := at.value + |Quoted(key)| + |gap|;
       Matches(s, gap, at.value + |Quoted(key)|) && Matches(s, ":", colon) && Matches(s, blanks, colon + 1)
       && start == colon + 1 + |blanks|
  }

  lemma KeyFindsStart(s: string, key: string, from: nat, gap: string, blanks: string, start: nat)
    requires KeyLeadsTo(s, key, from, gap, blanks, start) && start < |s| && s[start] > ' '
    ensures ValueStart(s, key, from) == Some(start)
  {
    var after := Find(s, Quoted(key), from).value + |Quoted(key)|;
    MatchChar(s, ":", after + |gap|, 0);
    FindChar(s, after, gap, ':');
    BlanksAreSkipped(s, after + |gap| + 1, blanks, start);
  }

  /** `JsonValueSpan` returns exactly the printed object or array behind its key, whatever brackets,
      quotes and escapes the value holds and whatever follows it. */
  lemma ValueSpanIsPrinted(s: string, key: string, gap: string, blanks: string, start: nat, v: Json)
    requires WellFormed(v) && (v.Obj? || v.Arr?)
    requires KeyLeadsTo(s, key, 0, gap, blanks, start) && Matches(s, Print(v), start)
    ensures ValueSpan(s, key) == Print(v)
  {
    SpanOfValue(s, start, v, start + |Print(v)|);
    KeyFindsStart(s, key, 0, gap, blanks, start);
    MatchIsSlice(s, Print(v), start);
  }

  // ----- Splitting the array of builds

  /** The elements cut out from `p` on; `from` is where the element being read began. */
  function Elements(s: string, p: nat, depth: int, inStr: bool, from: Option<nat>): seq<string>
    requires from.Some? ==> from.value <= p
    decreases |s| - p
  {
    if p >= |s| then []
    else if inStr then
      if s[p] == '\\' then Elements(s, p + 2, depth, true, from) else Elements(s, p + 1, depth, s[p] != '"', from)
    else if s[p] == '"' then Elements(s, p + 1, depth, true, from)
    else if s[p] == '{' then Elements(s, p + 1, depth + 1, false, if depth == 0 then Some(p) else from)
    else if s[p] == '}' then
      if depth == 1 && from.Some? then [s[from.value..p + 1]] + Elements(s, p + 1, 0, false, None)
      else Elements(s, p + 1, depth - 1, false, from)
    else if s[p] == ']' && depth == 0 then []
    else Elements(s, p + 1, depth, false, from)
  }

  method SplitElements(s: string, arr: nat) returns (elems: seq<string>)
    ensures elems == Elements(s, arr, 0, false, None)
  {
    elems := [];
    var depth, inStr, p := 0, false, arr;
    var elemStart: Option<nat> := None;
    while p < |s|
      invariant elemStart.Some? ==> elemStart.value <= p
      invariant elems + Elements(s, p, depth, inStr, elemStart) == Elements(s, arr, 0, false, None)
      decreases |s| - p
    {
      var c := s[p];
      if inStr {
        if c == '\\' {
          p := p + 1;
        } else if c == '"' {
          inStr := false;
        }
      } else if c == '"' {
        inStr := true;
      } else if c == '{' {
        if depth == 0 {
          elemStart := Some(p);
        }
        depth := depth + 1;
      } else if c == '}' {
        depth := depth - 1;
        if depth == 0 && elemStart.Some? {
          elems := elems + [s[elemStart.value..p + 1]];
          elemStart := None;
        }
      } else if c == ']' && depth == 0 {
        return;
      }
      p := p + 1;
    }
  }

  lemma {:induction false} ElementsRunOn(s: string, p: nat, q: nat, d: int, inStr: bool, e: int, from: Option<nat>)
    requires Runs(Curly, s, p, q, d, inStr, e) && d >= 1
    requires from.Some? ==> from.value <= p
    ensures p <= q && Elements(s, p, d, inStr, from) == Elements(s, q, e, false, from)
    decreases q - p
  {
    if p < q {
      if inStr {
        if s[p] == '\\' {
          ElementsRunOn(s, p + 2, q, d, true, e, from);
        } else {
          ElementsRunOn(s, p + 1, q, d, s[p] != '"', e, from);
        }
      } else if s[p] == '"' {
        ElementsRunOn(s, p + 1, q, d, true, e, from);
      } else if s[p] == '{' {
        ElementsRunOn(s, p + 1, q, d + 1, false, e, from);
      } else if s[p] == '}' {
        ElementsRunOn(s, p + 1, q, d - 1, false, e, from);
      } else {
        ElementsRunOn(s, p + 1, q, d, false, e, from);
      }
    }
  }

  /** Outside every element, text that opens and closes nothing is passed. */
  lemma {:induction false} ElementsPassInert(s: string, p: nat, t: string, q: nat)
    requires AllInert(t) && Matches(s, t, p) && q == p + |t|
    ensures Elements(s, p, 0, false, None) == Elements(s, q, 0, false, None)
    decreases |t|
  {
    if t != "" {
      MatchChar(s, t, p, 0);
      MatchTail(s, t, p, 1);
      ElementsPassInert(s, p + 1, t[1..], q);
    }
  }

  /** Outside every element, a printed object is cut out whole. */
  lemma ElementIsCut(s: string, p: nat, v: Json, q: nat)
    requires WellFormed(v) && v.Obj? && Matches(s, Print(v), p) && q == p + |Print(v)|
    ensures Elements(s, p, 0, false, None) == [Print(v)] + Elements(s, q, 0, false, None)
  {
    Bracketed(s, "{", v.pad + PrintMembers(v.members), "}", p, q);
    ObjInside(Curly, s, p + 1, v.pad, v.members, q - 1, 1);
    ElementsRunOn(s, p + 1, q - 1, 1, false, 1, Some(p));
    MatchIsSlice(s, Print(v), p);
    assert s[p..q - 1 + 1] == Print(v);
  }

  /** Objects with white space around them. */
  predicate IsObject(v: Json) {
    v.Obj? || (v.Spaced? && IsObject(v.value))
  }

  function Core(v: Json): Json {
    if v.Spaced? then Core(v.value) else v
  }

  function Cores(items: seq<Json>): seq<string> {
    if items == [] then [] else [Print(Core(items[0]))] + Cores(items[1..])
  }

  predicate AllObjects(items: seq<Json>) {
    forall i | 0 <= i < |items| :: IsObject(items[i])
  }

  lemma {:induction false} ItemIsCut(s: string, p: nat, v: Json, q: nat)
    requires WellFormed(v) && IsObject(v) && Matches(s, Print(v), p) && q == p + |Print(v)|
    ensures Elements(s, p, 0, false, None) == [Print(Core(v))] + Elements(s, q, 0, false, None)
    decreases v
  {
    if v.Obj? {
      ElementIsCut(s, p, v, q);
    } else {
      MatchesConcat(s, v.before + Print(v.value), v.after, p);
      MatchesConcat(s, v.before, Print(v.value), p);
      var i := p + |v.before|;
      var j := i + |Print(v.value)|;
      ElementsPassInert(s, p, v.before, i);
      ItemIsCut(s, i, v.value, j);
      ElementsPassInert(s, j, v.after, q);
    }
  }

  lemma {:induction false} ItemsAreCut(s: string, p: nat, items: seq<Json>, q: nat)
    requires ItemsWellFormed(items) && AllObjects(items)
    requires Matches(s, PrintItems(items), p) && q == p + |PrintItems(items)| && q < |s| && s[q] == ']'
    ensures Elements(s, p, 0, false, None) == Cores(items)
    decreases |items|
  {
    if |items| == 1 {
      ItemIsCut(s, p, items[0], q);
      assert items[1..] == [];
    } else if items != [] {
      var one, rest := Print(items[0]), PrintItems(items[1..]);
      var m := p + |one|;
      MatchesConcat(s, one + ",", rest, p);
      MatchesConcat(s, one, ",", p);
      ItemIsCut(s, p, items[0], m);
      ElementsPassInert(s, m, ",", m + 1);
      ItemsAreCut(s, m + 1, items[1..], q);
    }
  }

  /** The scan splits any printed array of objects into exactly its elements, in order. */
  lemma ArrayIsSplit(s: string, pad: string, items: seq<Json>, arr: nat)
    requires WellFormed(Arr(pad, items)) && AllObjects(items)
    requires Find(s, "[", 0) == Some(arr) && Matches(s, Print(Arr(pad, items)), arr)
    ensures Elements(s, arr, 0, false, None) == Cores(items)
  {
    var inside := pad + PrintItems(items);
    var q := arr + 1 + |inside|;
    Bracketed(s, "[", inside, "]", arr, q + 1);
    MatchesConcat(s, pad, PrintItems(items), arr + 1);
    ElementsPassInert(s, arr + 1, pad, arr + 1 + |pad|);
    ItemsAreCut(s, arr + 1 + |pad|, items, q);
  }
}
