/** Percent-decoding and form values as the web panel reads them. Bytes are characters below 256. */
module UrlForm {
  import opened Text
  import Decimal

  predicate IsBytes(s: string) {
    forall i | 0 <= i < |s| :: s[i] as int < 256
  }

  function HexValue(c: char): Option<nat> {
    if '0' <= c <= '9' then Some(c as int - '0' as int)
    else if 'a' <= c <= 'f' then Some(c as int - 'a' as int + 10)
    else if 'A' <= c <= 'F' then Some(c as int - 'A' as int + 10)
    else None
  }

  /** `strtol` in base 16 on the two characters after a `%`, accepted when it stops at the end of the
      text: leading white space or a sign may take the place of the first digit, and a zero byte ends
      the text early. */
  function TwoDigits(c1: char, c2: char): Option<char> {
    if c1 as int == 0 then Some(0 as char)
    else match (HexValue(c1), HexValue(c2))
      case (Some(a), Some(b)) => Some((16 * a + b) as char)
      case (Some(a), None) => if c2 as int == 0 then Some(a as char) else None
      case (None, Some(b)) =>
        if Decimal.IsSpace(c1) || c1 == '+' then Some(b as char)
        else if c1 == '-' then Some(((256 - b) % 256) as char)
        else None
      case (None, None) => None
  }

  function Decode(v: string): string {
    if v == "" then ""
    else if v[0] == '%' && |v| > 2 && TwoDigits(v[1], v[2]).Some? then
      [TwoDigits(v[1], v[2]).value] + Decode(v[3..])
    else [if v[0] == '+' then ' ' else v[0]] + Decode(v[1..])
  }

  /** What decoding does at position `i`. */
  lemma DecodeStep(out: string, v: string, i: nat)
    requires i < |v|
    ensures var hex := v[i] == '%' && i + 2 < |v| && TwoDigits(v[i + 1], v[i + 2]).Some?;
            var c := if hex then TwoDigits(v[i + 1], v[i + 2]).value else if v[i] == '+' then ' ' else v[i];
            out + Decode(v[i..]) == (out + [c]) + Decode(v[i + (if hex then 3 else 1)..])
  {
    var t := v[i..];
    var hex := v[i] == '%' && i + 2 < |v| && TwoDigits(v[i + 1], v[i + 2]).Some?;
    var n := if hex then 3 else 1;
    assert t[n..] == v[i + n..];
    var c := if hex then TwoDigits(v[i + 1], v[i + 2]).value else if v[i] == '+' then ' ' else v[i];
    assert Decode(t) == [c] + Decode(t[n..]);
  }

  method UrlDecode(v: string) returns (out: string)
    ensures out == Decode(v)
  {
    out := "";
    var i := 0;
    while i < |v|
      invariant i <= |v|
      invariant out + Decode(v[i..]) == Decode(v)
    {
      DecodeStep(out, v, i);
      if v[i] == '%' && i + 2 < |v| {
        var c := TwoDigits(v[i + 1], v[i + 2]);
        if c.Some? {
          out := out + [c.value];
          i := i + 3;
          continue;
        }
      } else if v[i] == '+' {
        out := out + [' '];
        i := i + 1;
        continue;
      }
      out := out + [v[i]];
      i := i + 1;
    }
  }

  // ----- Percent-encoding (section 2.1 of RFC 3986)

  /** Which bytes are written as they are, and which digits - of either case - write the others. */
  datatype Encoding = Encoding(keep: char -> bool, digit: int -> char)

  ghost predicate Sound(e: Encoding) {
    && (forall c {:trigger e.keep(c)} :: e.keep(c) ==> c != '%' && c != '+' && c != '&' && c != '=')
    && (forall d {:trigger e.digit(d)} | 0 <= d < 16 :: HexValue(e.digit(d)) == Some(d))
  }

  function EncodeByte(e: Encoding, c: char): string {
    if e.keep(c) then [c] else ['%', e.digit(c as int / 16), e.digit(c as int % 16)]
  }

  function Encode(e: Encoding, s: string): string {
    if s == "" then "" else EncodeByte(e, s[0]) + Encode(e, s[1..])
  }

  /** Decoding undoes every percent-encoding of every byte string. */
  lemma {:induction false} DecodeOfEncode(e: Encoding, s: string)
    requires Sound(e) && IsBytes(s)
    ensures Decode(Encode(e, s)) == s
  {
    if s != "" {
      var c, rest := s[0], Encode(e, s[1..]);
      var v := EncodeByte(e, c) + rest;
      DecodeOfEncode(e, s[1..]);
      assert s == [c] + s[1..];
      if e.keep(c) {
        assert v[1..] == rest;
      } else {
        assert c as int == 16 * (c as int / 16) + c as int % 16;
        assert v[3..] == rest;
      }
    }
  }

  lemma {:induction false} EncodedIsPlain(e: Encoding, s: string)
    requires Sound(e) && IsBytes(s)
    ensures '&' !in Encode(e, s) && '=' !in Encode(e, s)
  {
    if s != "" {
      EncodedIsPlain(e, s[1..]);
      var c := s[0];
      if !e.keep(c) {
        assert HexValue(e.digit(c as int / 16)).Some? && HexValue(e.digit(c as int % 16)).Some?;
      }
    }
  }

  /** Without a percent sign, decoding only makes blanks of the plus signs. */
  lemma {:induction false} DecodeOfPlain(s: string, i: nat)
    requires '%' !in s && i < |s|
    ensures |Decode(s)| == |s| && Decode(s)[i] == if s[i] == '+' then ' ' else s[i]
    decreases |s|
  {
    var rest := s[1..];
    assert '%' !in rest && s[0] != '%';
    if |s| > 1 {
      DecodeOfPlain(rest, if i > 0 then i - 1 else 0);
    } else {
      assert rest == "";
    }
  }

  /** A percent sign that two hexadecimal digits do not follow stays, unless blanks, a sign or a zero byte stand
      there, which `strtol` passes over. */
  lemma StrayPercentStays(a: char, b: char, rest: string)
    requires HexValue(a).None? || HexValue(b).None?
    requires !Decimal.IsSpace(a) && a != '+' && a != '-' && a as int != 0 && b as int != 0
    ensures Decode("%" + ([a, b] + rest)) == "%" + Decode([a, b] + rest)
    ensures Decode("%") == "%" && Decode("%" + [a]) == "%" + Decode([a])
  {
    var s := "%" + ([a, b] + rest);
    assert s[0] == '%' && s[1] == a && s[2] == b && s[1..] == [a, b] + rest;
    assert ("%" + [a])[1..] == [a] && "%"[1..] == "";
  }

  // ----- Form values

  function KeyOf(part: string): string {
    match Find(part, "=", 0)
    case None => Decode(part)
    case Some(eq) => Decode(part[..eq])
  }

  function ValueOf(part: string): string {
    match Find(part, "=", 0)
    case None => Decode("")
    case Some(eq) => Decode(part[eq + 1..])
  }

  /** The value of the first part that has the key. */
  function FirstValue(parts: seq<string>, key: string): string {
    if parts == [] then ""
    else if KeyOf(parts[0]) == key then ValueOf(parts[0])
    else FirstValue(parts[1..], key)
  }

  /** The value of the first part behind `pos` that has the key. */
  function ValueBehind(query: string, pos: nat, key: string): string
    requires pos <= |query|
  {
    FirstValue(Split(query[pos..], '&'), key)
  }

  method QueryValue(query: string, key: string) returns (value: string)
    ensures value == FirstValue(Split(query, '&'), key)
  {
    var pos := 0;
    WholeQuery(query, key);
    while pos <= |query|
      invariant pos <= |query|
      invariant ValueBehind(query, pos, key) == FirstValue(Split(query, '&'), key)
    {
      var part, next := NextPart(query, pos);
      ValueFrom(query, pos, part, next, key);
      var has;
      has, value := PartValue(part, key);
      if has {
        return;
      }
      if next.None? {
        return "";
      }
      pos := next.value;
    }
    value := "";
  }

  lemma WholeQuery(query: string, key: string)
    ensures ValueBehind(query, 0, key) == FirstValue(Split(query, '&'), key)
  {
    assert query[0..] == query;
  }

  /** The part at `pos`, and where the next one starts. */
  ghost predicate IsPart(query: string, pos: nat, part: string, next: Option<nat>)
    requires pos <= |query|
  {
    match next
    case None => Split(query[pos..], '&') == [part]
    case Some(n) => pos < n <= |query| && Split(query[pos..], '&') == [part] + Split(query[n..], '&')
  }

  method NextPart(query: string, pos: nat) returns (part: string, next: Option<nat>)
    requires pos <= |query|
    ensures IsPart(query, pos, part, next)
  {
    var amp := Find(query, "&", pos);
    CutAtAmp(query, pos, amp);
    if amp.None? {
      return query[pos..], None;
    }
    return query[pos..amp.value], Some(amp.value + 1);
  }

  lemma ValueFrom(query: string, pos: nat, part: string, next: Option<nat>, key: string)
    requires pos <= |query| && IsPart(query, pos, part, next)
    ensures ValueBehind(query, pos, key)
            == if KeyOf(part) == key then ValueOf(part)
               else if next.None? then "" else ValueBehind(query, next.value, key)
  {
    if next.None? {
      assert [part][1..] == [] && FirstValue([], key) == "";
    } else {
      var rest := Split(query[next.value..], '&');
      assert ([part] + rest)[1..] == rest;
    }
  }

  method PartValue(part: string, key: string) returns (has: bool, value: string)
    ensures has <==> KeyOf(part) == key
    ensures has ==> value == ValueOf(part)
  {
    var eq := Find(part, "=", 0);
    var k := UrlDecode(if eq.None? then part else part[..eq.value]);
    has, value := k == key, "";
    if has {
      value := UrlDecode(if eq.None? then "" else part[eq.value + 1..]);
    }
  }

  lemma CutAtAmp(query: string, pos: nat, amp: Option<nat>)
    requires pos <= |query| && amp == Find(query, "&", pos)
    ensures amp.None? ==> Split(query[pos..], '&') == [query[pos..]]
    ensures amp.Some? ==> amp.value < |query|
                          && Split(query[pos..], '&') == [query[pos..amp.value]] + Split(query[amp.value + 1..], '&')
  {
    if amp.None? {
      NotFoundIsFree(query, pos, |query|);
      assert query[pos..|query|] == query[pos..];
      SplitOnePiece(query[pos..], '&');
    } else {
      var a, b := query[pos..amp.value], query[amp.value + 1..];
      NotFoundIsFree(query, pos, amp.value);
      MatchChar(query, "&", amp.value, 0);
      assert query[pos..] == a + "&" + b;
      SplitOnePiece(a, '&');
      SplitAtSeparator(a, b, '&');
    }
  }

  lemma NotFoundIsFree(query: string, pos: nat, end: nat)
    requires pos <= end <= |query| && forall j: nat | pos <= j < end :: !Matches(query, "&", j)
    ensures '&' !in query[pos..end]
  {
    forall j: nat | pos <= j < end ensures query[j] != '&' {
      if query[j] == '&' {
        assert Matches(query, "&", j);
      }
    }
  }

  /** The body the panel's page sends: encoded `key=value` pairs joined by `&`. */
  function EncodePair(e: Encoding, pair: (string, string)): string {
    Encode(e, pair.0) + "=" + Encode(e, pair.1)
  }

  function EncodePairs(e: Encoding, pairs: seq<(string, string)>): seq<string> {
    if pairs == [] then [] else [EncodePair(e, pairs[0])] + EncodePairs(e, pairs[1..])
  }

  function Lookup(pairs: seq<(string, string)>, key: string): string {
    if pairs == [] then ""
    else if pairs[0].0 == key then pairs[0].1
    else Lookup(pairs[1..], key)
  }

  predicate PairsAreBytes(pairs: seq<(string, string)>) {
    forall i | 0 <= i < |pairs| :: IsBytes(pairs[i].0) && IsBytes(pairs[i].1)
  }

  lemma CutAtEquals(k: string, v: string)
    requires '=' !in k
    ensures var part := k + "=" + v;
            Find(part, "=", 0) == Some(|k|) && part[..|k|] == k && part[|k| + 1..] == v
  {
    FindChar(k + "=" + v, 0, k, '=');
  }

  lemma PairReadsBack(e: Encoding, pair: (string, string))
    requires Sound(e) && IsBytes(pair.0) && IsBytes(pair.1)
    ensures KeyOf(EncodePair(e, pair)) == pair.0 && ValueOf(EncodePair(e, pair)) == pair.1
    ensures '&' !in EncodePair(e, pair)
  {
    EncodedIsPlain(e, pair.0);
    EncodedIsPlain(e, pair.1);
    DecodeOfEncode(e, pair.0);
    DecodeOfEncode(e, pair.1);
    CutAtEquals(Encode(e, pair.0), Encode(e, pair.1));
  }

  /** A part without an equals sign is a key without a value. */
  lemma KeyAlone(e: Encoding, key: string)
    requires Sound(e) && IsBytes(key)
    ensures KeyOf(Encode(e, key)) == key && ValueOf(Encode(e, key)) == ""
  {
    var part := Encode(e, key);
    EncodedIsPlain(e, key);
    DecodeOfEncode(e, key);
    OccursChar(part, '=');
    FindNone(part, "=");
  }

  lemma {:induction false} PairsReadBack(e: Encoding, pairs: seq<(string, string)>, key: string)
    requires Sound(e) && PairsAreBytes(pairs)
    ensures FirstValue(EncodePairs(e, pairs), key) == Lookup(pairs, key) && Free(EncodePairs(e, pairs), '&')
    ensures |EncodePairs(e, pairs)| == |pairs|
  {
    if pairs != [] {
      PairReadsBack(e, pairs[0]);
      PairsReadBack(e, pairs[1..], key);
      assert EncodePairs(e, pairs)[1..] == EncodePairs(e, pairs[1..]);
    }
  }

  /** Looking a key up in an encoded form gives the decoded value of its first pair, or nothing. */
  lemma QueryOfForm(e: Encoding, pairs: seq<(string, string)>, key: string)
    requires Sound(e) && PairsAreBytes(pairs)
    ensures FirstValue(Split(Join(EncodePairs(e, pairs), '&'), '&'), key) == Lookup(pairs, key)
  {
    PairsReadBack(e, pairs, key);
    if pairs != [] {
      SplitOfJoin(EncodePairs(e, pairs), '&');
    } else {
      assert Split("", '&') == [""];
    }
  }
}
