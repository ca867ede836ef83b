/** What the host reads from the two answers of the Paper service: the versions on offer and the build to
    download. */
module PaperBuilds {
  import opened Text
  import opened JsonScan
  import opened JsonText
  import opened Decimal

  // ----- Version names: every string of the text that looks like one

  /** Where the string whose characters start at `p` ends: at its closing quote or the end of the text. */
  function StringEnd(s: string, p: nat): (q: nat)
    requires p <= |s|
    ensures p <= q <= |s|
    decreases |s| - p
  {
    if p >= |s| || s[p] == '"' then p
    else if s[p] == '\\' && p + 1 < |s| then StringEnd(s, p + 2)
    else StringEnd(s, p + 1)
  }

  function Tokens(s: string, i: nat): seq<string>
    decreases |s| - i
  {
    if i >= |s| then []
    else if s[i] == '"' then [ReadString(s, i + 1)] + Tokens(s, StringEnd(s, i + 1) + 1)
    else Tokens(s, i + 1)
  }

  predicate VersionLike(token: string) {
    token != "" && IsDigit(token[0]) && '.' in token
  }

  function Add(out: seq<string>, token: string): seq<string> {
    if VersionLike(token) && token !in out then out + [token] else out
  }

  function AddAll(out: seq<string>, tokens: seq<string>): seq<string>
    decreases |tokens|
  {
    if tokens == [] then out else AddAll(Add(out, tokens[0]), tokens[1..])
  }

  method ReadToken(s: string, first: nat) returns (token: string, end: nat)
    requires first <= |s|
    ensures token == ReadString(s, first) && end == StringEnd(s, first)
  {
    token, end := "", first;
    while end < |s| && s[end] != '"'
      invariant first <= end <= |s|
      invariant token + ReadString(s, end) == ReadString(s, first)
      invariant StringEnd(s, end) == StringEnd(s, first)
      decreases |s| - end
    {
      ghost var q := end;
      if s[end] == '\\' && end + 1 < |s| {
        end := end + 1;
      }
      Regroup(token, s[end], ReadString(s, end + 1));
      assert ReadString(s, q) == [s[end]] + ReadString(s, end + 1);
      token := token + [s[end]];
      end := end + 1;
    }
  }

  lemma AddFirst(out: seq<string>, token: string, rest: seq<string>)
    ensures AddAll(out, [token] + rest) == AddAll(Add(out, token), rest)
  {
    assert ([token] + rest)[1..] == rest;
  }

  method PaperVersions(json: string) returns (out: seq<string>)
    ensures var span := ValueSpan(json, "versions");
            out == AddAll([], Tokens(if span == "" then json else span, 0))
  {
    var span := JsonValueSpan(json, "versions");
    if span == "" {
      span := json;
    }
    out := VersionsIn(span);
  }

  method VersionsIn(span: string) returns (out: seq<string>)
    ensures out == AddAll([], Tokens(span, 0))
  {
    out := [];
    var i := 0;
    while i < |span|
      invariant AddAll(out, Tokens(span, i)) == AddAll([], Tokens(span, 0))
      decreases |span| - i
    {
      if span[i] == '"' {
        var token, j := ReadToken(span, i + 1);
        AddFirst(out, token, Tokens(span, j + 1));
        i := j + 1;
        if token != "" && '0' <= token[0] <= '9' && '.' in token {
          if token !in out {
            out := out + [token];
          }
        }
      } else {
        i := i + 1;
      }
    }
  }

  /** The list has no name twice and holds exactly the version names among the strings. */
  lemma {:induction false} AddAllIsDistinct(out: seq<string>, tokens: seq<string>)
    requires forall i, j | 0 <= i < j < |out| :: out[i] != out[j]
    ensures var r := AddAll(out, tokens);
            && (forall i, j | 0 <= i < j < |r| :: r[i] != r[j])
            && (forall t :: t in r <==> t in out || (t in tokens && t != "" && '0' <= t[0] <= '9' && '.' in t))
    decreases |tokens|
  {
    if tokens != [] {
      AddAllIsDistinct(Add(out, tokens[0]), tokens[1..]);
      forall t ensures t in tokens <==> t == tokens[0] || t in tokens[1..] {
        if t in tokens && t != tokens[0] {
          var i :| 0 <= i < |tokens| && tokens[i] == t;
          assert tokens[1..][i - 1] == t;
        }
      }
    }
  }

  /** In the order in which the text first names them: reading on only adds at the end. */
  lemma {:induction false} AddAllKeepsOrder(out: seq<string>, before: seq<string>, after: seq<string>)
    ensures AddAll(out, before + after) == AddAll(AddAll(out, before), after)
    ensures out <= AddAll(out, before)
    decreases |before|
  {
    if before == [] {
      assert before + after == after;
    } else {
      assert (before + after)[1..] == before[1..] + after;
      AddAllKeepsOrder(Add(out, before[0]), before[1..], after);
    }
  }

  /** All strings of a value in the order of its text, member names among them, as the scanner hears them. */
  function Strings(v: Json): seq<string>
    decreases v, 1
  {
    match v
    case Str(body) => [Unslash(body)]
    case Atom(_) => []
    case Arr(_, items) => ItemStrings(items)
    case Obj(_, members) => MemberStrings(members)
    case Spaced(_, value, _) => Strings(value)
  }

  function ItemStrings(items: seq<Json>): seq<string>
    decreases items, 0
  {
    if items == [] then [] else Strings(items[0]) + ItemStrings(items[1..])
  }

  function MemberStrings(members: seq<Member>): seq<string>
    decreases members, 0
  {
    if members == [] then []
    else [Unslash(members[0].key)] + Strings(members[0].value) + MemberStrings(members[1..])
  }

  /** Over `s[p..q]` the scan finds exactly `found`. */
  ghost predicate Finds(s: string, p: nat, q: nat, found: seq<string>) {
    p <= q && Tokens(s, p) == found + Tokens(s, q)
  }

  lemma FindsOn(s: string, p: nat, m: nat, q: nat, a: seq<string>, b: seq<string>)
    requires Finds(s, p, m, a) && Finds(s, m, q, b)
    ensures Finds(s, p, q, a + b)
  {
    assert a + (b + Tokens(s, q)) == (a + b) + Tokens(s, q);
  }

  lemma {:induction false} InertFinds(s: string, p: nat, t: string, q: nat)
    requires AllInert(t) && Matches(s, t, p) && q == p + |t|
    ensures Finds(s, p, q, [])
    decreases |t|
  {
    if t != "" {
      MatchChar(s, t, p, 0);
      MatchTail(s, t, p, 1);
      InertFinds(s, p + 1, t[1..], q);
    }
  }

  lemma {:induction false} BodyEnds(s: string, p: nat, body: string, q: nat)
    requires BodyOk(body) && Matches(s, body, p) && q == p + |body| && q < |s| && s[q] == '"'
    ensures StringEnd(s, p) == q
    decreases |body|
  {
    if body != "" {
      MatchChar(s, body, p, 0);
      var n := if body[0] == '\\' then 2 else 1;
      MatchTail(s, body, p, n);
      BodyEnds(s, p + n, body[n..], q);
    }
  }

  lemma QuotedFinds(s: string, p: nat, body: string, q: nat)
    requires BodyOk(body) && Matches(s, Quoted(body), p) && q == p + |Quoted(body)|
    ensures Finds(s, p, q, [Unslash(body)])
  {
    MatchesConcat(s, "\"" + body, "\"", p);
    MatchesConcat(s, "\"", body, p);
    MatchChar(s, "\"", p, 0);
    MatchChar(s, "\"", q - 1, 0);
    BodyIsRead(s, p + 1, body, q - 1);
    BodyEnds(s, p + 1, body, q - 1);
  }

  /** Any printed value, wherever it stands: exactly its strings are found, in order, whatever escapes,
      quotes and brackets they hold. */
  lemma {:induction false} ValueFinds(s: string, p: nat, v: Json, q: nat)
    requires WellFormed(v) && Matches(s, Print(v), p) && q == p + |Print(v)|
    ensures Finds(s, p, q, Strings(v))
    decreases v, 2
  {
    match v {
      case Str(body) => QuotedFinds(s, p, body, q);
      case Atom(text) => InertFinds(s, p, text, q);
      case Arr(pad, items) => ArrFinds(s, p, pad, items, q);
      case Obj(pad, members) => ObjFinds(s, p, pad, members, q);
      case Spaced(before, value, after) =>
        MatchesConcat(s, before + Print(value), after, p);
        MatchesConcat(s, before, Print(value), p);
        var m := p + |before|;
        InertFinds(s, p, before, m);
        ValueFinds(s, m, value, m + |Print(value)|);
        InertFinds(s, m + |Print(value)|, after, q);
        PaddedFinds(s, p, m, m + |Print(value)|, q, Strings(value));
    }
  }

  lemma {:induction false} ArrFinds(s: string, p: nat, pad: string, items: seq<Json>, q: nat)
    requires AllInert(pad) && ItemsWellFormed(items)
    requires Matches(s, "[" + (pad + PrintItems(items)) + "]", p) && q == p + |pad + PrintItems(items)| + 2
    ensures Finds(s, p, q, ItemStrings(items))
    decreases items, 1
  {
    var m := p + 1 + |pad|;
    Bracketed(s, "[", pad + PrintItems(items), "]", p, q);
    MatchesConcat(s, pad, PrintItems(items), p + 1);
    InertFinds(s, p + 1, pad, m);
    ItemsFind(s, m, items, q - 1);
    BracketsFind(s, p, m, q, ItemStrings(items));
  }

  lemma {:induction false} ObjFinds(s: string, p: nat, pad: string, members: seq<Member>, q: nat)
    requires AllInert(pad) && MembersWellFormed(members)
    requires Matches(s, "{" + (pad + PrintMembers(members)) + "}", p) && q == p + |pad + PrintMembers(members)| + 2
    ensures Finds(s, p, q, MemberStrings(members))
    decreases members, 1
  {
    var m := p + 1 + |pad|;
    Bracketed(s, "{", pad + PrintMembers(members), "}", p, q);
    MatchesConcat(s, pad, PrintMembers(members), p + 1);
    InertFinds(s, p + 1, pad, m);
    MembersFind(s, m, members, q - 1);
    BracketsFind(s, p, m, q, MemberStrings(members));
  }

  lemma PaddedFinds(s: string, p: nat, m: nat, n: nat, q: nat, found: seq<string>)
    requires Finds(s, p, m, []) && Finds(s, m, n, found) && Finds(s, n, q, [])
    ensures Finds(s, p, q, found)
  {
    FindsOn(s, p, m, n, [], found);
    FindsOn(s, p, n, q, [] + found, []);
    assert [] + found + [] == found;
  }

  lemma BracketsFind(s: string, p: nat, m: nat, q: nat, found: seq<string>)
    requires p < m < q <= |s| && s[p] != '"' && s[q - 1] != '"'
    requires Finds(s, p + 1, m, []) && Finds(s, m, q - 1, found)
    ensures Finds(s, p, q, found)
  {
    assert Finds(s, q - 1, q, []);
    PaddedFinds(s, p + 1, m, q - 1, q, found);
  }

  lemma {:induction false} ItemsFind(s: string, p: nat, items: seq<Json>, q: nat)
    requires ItemsWellFormed(items) && Matches(s, PrintItems(items), p) && q == p + |PrintItems(items)|
    ensures Finds(s, p, q, ItemStrings(items))
    decreases items, 0
  {
    if |items| == 1 {
      ValueFinds(s, p, items[0], q);
      assert ItemStrings(items) == Strings(items[0]);
    } else if items != [] {
      var one, rest := Print(items[0]), PrintItems(items[1..]);
      var m := p + |one|;
      MatchesConcat(s, one + ",", rest, p);
      MatchesConcat(s, one, ",", p);
      ValueFinds(s, p, items[0], m);
      InertFinds(s, m, ",", m + 1);
      ItemsFind(s, m + 1, items[1..], q);
      FindsOn(s, p, m + 1, q, Strings(items[0]), ItemStrings(items[1..]));
    }
  }

  lemma HeadFinds(s: string, p: nat, m: Member, q: nat)
    requires AllInert(m.before) && BodyOk(m.key) && AllInert(m.middle)
    requires Matches(s, MemberHead(m), p) && q == p + |MemberHead(m)|
    ensures Finds(s, p, q, [Unslash(m.key)])
  {
    MatchesConcat(s, m.before + Quoted(m.key), m.middle + ":", p);
    MatchesConcat(s, m.before, Quoted(m.key), p);
    var i := p + |m.before|;
    var j := i + |Quoted(m.key)|;
    InertFinds(s, p, m.before, i);
    QuotedFinds(s, i, m.key, j);
    InertFinds(s, j, m.middle + ":", q);
  }

  lemma {:induction false} MembersFind(s: string, p: nat, members: seq<Member>, q: nat)
    requires MembersWellFormed(members) && Matches(s, PrintMembers(members), p) && q == p + |PrintMembers(members)|
    ensures Finds(s, p, q, MemberStrings(members))
    decreases members, 0
  {
    if members != [] {
      var head, one := MemberHead(members[0]), Print(members[0].value);
      var name, inner := [Unslash(members[0].key)], Strings(members[0].value);
      var i := p + |head|;
      var j := i + |one|;
      if |members| > 1 {
        MatchesConcat(s, head + one + ",", PrintMembers(members[1..]), p);
        MatchesConcat(s, head + one, ",", p);
      }
      MatchesConcat(s, head, one, p);
      HeadFinds(s, p, members[0], i);
      ValueFinds(s, i, members[0].value, j);
      FindsOn(s, p, i, j, name, inner);
      if |members| > 1 {
        InertFinds(s, j, ",", j + 1);
        MembersFind(s, j + 1, members[1..], q);
        FindsOn(s, p, j + 1, q, name + inner, MemberStrings(members[1..]));
      } else {
        assert MemberStrings(members) == name + inner;
      }
    }
  }

  /** The scan of a printed value on its own, as `PaperVersions` runs it on a value span. */
  lemma PrintedStrings(v: Json)
    requires WellFormed(v)
    ensures Tokens(Print(v), 0) == Strings(v)
  {
    MatchesWhole(Print(v));
    ValueFinds(Print(v), 0, v, |Print(v)|);
  }

  /** From the whole answer to the list: the versions are the strings in the object or array behind the
      first `"versions"`, and nothing around it. */
  lemma VersionsOfAnswer(json: string, gap: string, blanks: string, start: nat, v: Json)
    requires WellFormed(v) && (v.Obj? || v.Arr?)
    requires KeyLeadsTo(json, "versions", 0, gap, blanks, start) && Matches(json, Print(v), start)
    ensures ValueSpan(json, "versions") != ""
    ensures Tokens(ValueSpan(json, "versions"), 0) == Strings(v)
  {
    ValueSpanIsPrinted(json, "versions", gap, blanks, start, v);
    PrintedStrings(v);
  }

  /** So of a printed answer the list holds exactly the strings inside that value that start with a digit and
      have a dot. */
  lemma ListedVersions(json: string, gap: string, blanks: string, start: nat, v: Json, out: seq<string>)
    requires WellFormed(v) && (v.Obj? || v.Arr?)
    requires KeyLeadsTo(json, "versions", 0, gap, blanks, start) && Matches(json, Print(v), start)
    requires var span := ValueSpan(json, "versions"); out == AddAll([], Tokens(if span == "" then json else span, 0))
    ensures forall t :: t in out <==> t in Strings(v) && t != "" && '0' <= t[0] <= '9' && '.' in t
  {
    VersionsOfAnswer(json, gap, blanks, start, v);
    AddAllIsDistinct([], Strings(v));
  }

  /** And of a printed answer that has no text `"versions"`, the strings of the whole answer. */
  lemma ListedWithoutKey(v: Json, out: seq<string>)
    requires WellFormed(v) && !Occurs(Print(v), Quoted("versions"))
    requires var span := ValueSpan(Print(v), "versions");
             out == AddAll([], Tokens(if span == "" then Print(v) else span, 0))
    ensures forall t :: t in out <==> t in Strings(v) && t != "" && '0' <= t[0] <= '9' && '.' in t
  {
    FindNone(Print(v), Quoted("versions"));
    PrintedStrings(v);
    AddAllIsDistinct([], Strings(v));
  }

  // ----- JsonIntAfter

  /** The digits from `p` on, read on from `v` in 32 bits. */
  function DigitsAt(s: string, p: nat, v: int): int
    decreases |s| - p
  {
    if p < |s| && IsDigit(s[p]) then DigitsAt(s, p + 1, Wrap32(10 * v + (s[p] as int - '0' as int))) else v
  }

  /** The number behind the first text `"key"`, or -1, in 32 bits. */
  function IntAfter(s: string, key: string, from: nat): int {
    match ValueStart(s, key, from)
    case None => -1
    case Some(start) =>
      var minus := start < |s| && s[start] == '-';
      var p := if minus then start + 1 else start;
      if p < |s| && IsDigit(s[p]) then Wrap32(if minus then -DigitsAt(s, p, 0) else DigitsAt(s, p, 0)) else -1
  }

  method JsonIntAfter(s: string, key: string, from: nat) returns (r: int)
    ensures r == IntAfter(s, key, from)
  {
    var start := FindValueStart(s, key, from);
    if start.None? {
      return -1;
    }
    var p, sign := start.value, 1;
    if p < |s| && s[p] == '-' {
      sign := -1;
      p := p + 1;
    }
    ghost var first := p;
    var v, any := 0, false;
    while p < |s| && '0' <= s[p] <= '9'
      invariant first <= p
      invariant DigitsAt(s, p, v) == DigitsAt(s, first, 0)
      invariant any <==> p > first
      invariant any ==> first < |s| && IsDigit(s[first])
      decreases |s| - p
    {
      v := Wrap32(v * 10 + (s[p] as int - '0' as int));
      p := p + 1;
      any := true;
    }
    r := if any then Wrap32(sign * v) else -1;
  }

  lemma {:induction false} DigitsAreRead(s: string, p: nat, digits: string, v: nat)
    requires forall i | 0 <= i < |digits| :: IsDigit(digits[i])
    requires Matches(s, digits, p) && (p + |digits| < |s| ==> !IsDigit(s[p + |digits|]))
    ensures DigitsAt(s, p, Wrap32(v)) == Wrap32(ReadDigits(v, digits))
    decreases |digits|
  {
    if digits != "" {
      var d := digits[0] as int - '0' as int;
      MatchChar(s, digits, p, 0);
      MatchTail(s, digits, p, 1);
      WrapOnTheWay(v, 10, d);
      DigitsAreRead(s, p + 1, digits[1..], 10 * v + d);
    }
  }

  function PrintInt(z: int): string {
    if z < 0 then "-" + ToDecimal(-z) else ToDecimal(z)
  }

  /** A printed whole number is read modulo 32 bits, so it is read back exactly when it fits. */
  lemma IntReadsBack(s: string, key: string, from: nat, gap: string, blanks: string, start: nat, z: int)
    requires KeyLeadsTo(s, key, from, gap, blanks, start) && Matches(s, PrintInt(z), start)
    requires start + |PrintInt(z)| < |s| ==> !IsDigit(s[start + |PrintInt(z)|])
    ensures IntAfter(s, key, from) == Wrap32(z)
    ensures IntAfter(s, key, from) == z <==> -0x8000_0000 <= z < 0x8000_0000
  {
    var size := if z < 0 then -z else z;
    var digits := ToDecimal(size);
    var p := if z < 0 then start + 1 else start;
    if z < 0 {
      MatchesConcat(s, "-", digits, start);
      MatchChar(s, "-", start, 0);
    }
    MatchChar(s, digits, p, 0);
    KeyFindsStart(s, key, from, gap, blanks, start);
    assert Wrap32(0) == 0;
    DigitsAreRead(s, p, digits, 0);
    ReadOfDecimal(size);
    WrapOnTheWay(size, -1, 0);
  }

  // ----- ResolveStableBuildUrl

  predicate IsStable(elem: string) {
    StringAfter(elem, "channel", 0) == "STABLE"
  }

  datatype Build = Build(url: string, id: int)

  function BuildOf(elem: string): Option<Build> {
    match Find(elem, Quoted("server:default"), 0)
    case None => None
    case Some(at) =>
      var url := StringAfter(elem, "url", at);
      if url == "" then None else Some(Build(url, IntAfter(elem, "id", 0)))
  }

  /** The answer for a list of elements: the first stable one, else the first one. */
  ghost predicate IsAnswer(elems: seq<string>, r: Option<Build>) {
    if elems == [] then r.None?
    else exists k | 0 <= k < |elems| ::
           r == BuildOf(elems[k])
           && (if exists i | 0 <= i < |elems| :: IsStable(elems[i])
               then IsStable(elems[k]) && forall i | 0 <= i < k :: !IsStable(elems[i])
               else k == 0)
  }

  method ResolveStableBuildUrl(json: string) returns (r: Option<Build>)
    ensures match Find(json, "[", 0)
            case None => r == None
            case Some(arr) => IsAnswer(Elements(json, arr, 0, false, None), r)
  {
    var arr := Find(json, "[", 0);
    if arr.None? {
      return None;
    }
    var elems := SplitElements(json, arr.value);
    if elems == [] {
      return None;
    }
    var k := ChooseBuild(elems);
    r := ReadBuild(elems[k]);
  }

  method ChooseBuild(elems: seq<string>) returns (k: nat)
    requires elems != []
    ensures k < |elems|
    ensures if exists i | 0 <= i < |elems| :: IsStable(elems[i])
            then IsStable(elems[k]) && forall i | 0 <= i < k :: !IsStable(elems[i])
            else k == 0
  {
    k := 0;
    while k < |elems|
      invariant k <= |elems| && forall i | 0 <= i < k :: !IsStable(elems[i])
    {
      var channel := JsonStringAfter(elems[k], "channel", 0);
      if channel == "STABLE" {
        return;
      }
      k := k + 1;
    }
    k := 0;
  }

  method ReadBuild(elem: string) returns (r: Option<Build>)
    ensures r == BuildOf(elem)
  {
    var sd := Find(elem, Quoted("server:default"), 0);
    if sd.None? {
      return None;
    }
    var url := JsonStringAfter(elem, "url", sd.value);
    if url == "" {
      return None;
    }
    var id := JsonIntAfter(elem, "id", 0);
    r := Some(Build(url, id));
  }

  /** There is one answer, so the choice is a function of the elements. */
  lemma AnswerIsUnique(elems: seq<string>, a: Option<Build>, b: Option<Build>)
    requires IsAnswer(elems, a) && IsAnswer(elems, b)
    ensures a == b
  {
    if elems != [] {
      var some := exists i | 0 <= i < |elems| :: IsStable(elems[i]);
      var j :| 0 <= j < |elems| && a == BuildOf(elems[j])
               && (if some then IsStable(elems[j]) && forall i | 0 <= i < j :: !IsStable(elems[i]) else j == 0);
      var k :| 0 <= k < |elems| && b == BuildOf(elems[k])
               && (if some then IsStable(elems[k]) && forall i | 0 <= i < k :: !IsStable(elems[i]) else k == 0);
      assert j == k;
    }
  }

  /** On a printed array of builds the answer is read from exactly the printed text of the first stable
      build, or of the first build when none is stable; nothing of its neighbours comes in. */
  lemma AnswerOfPrintedBuilds(json: string, pad: string, items: seq<Json>, arr: nat, k: nat, r: Option<Build>)
    requires WellFormed(Arr(pad, items)) && AllObjects(items) && k < |items|
    requires Find(json, "[", 0) == Some(arr) && Matches(json, Print(Arr(pad, items)), arr)
    requires (IsStable(Print(Core(items[k]))) && forall i | 0 <= i < k :: !IsStable(Print(Core(items[i]))))
             || (k == 0 && forall i | 0 <= i < |items| :: !IsStable(Print(Core(items[i]))))
    requires IsAnswer(Elements(json, arr, 0, false, None), r)
    ensures r == BuildOf(Print(Core(items[k])))
  {
    ArrayIsSplit(json, pad, items, arr);
    CoresAt(items);
    var elems := Cores(items);
    assert elems[k] == Print(Core(items[k]));
    assert forall i | 0 <= i < |items| :: elems[i] == Print(Core(items[i]));
    assert IsAnswer(elems, BuildOf(elems[k]));
    AnswerIsUnique(elems, r, BuildOf(elems[k]));
  }

  lemma {:induction false} CoresAt(items: seq<Json>)
    ensures |Cores(items)| == |items|
    ensures forall i | 0 <= i < |items| :: Cores(items)[i] == Print(Core(items[i]))
  {
    if items != [] {
      CoresAt(items[1..]);
    }
  }
}
