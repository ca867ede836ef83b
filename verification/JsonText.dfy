/** Strings in JSON text: how `JsonEsc` writes them and how `JsonStringAfter` reads them back, against the
    meaning of a string body (section 7 of RFC 8259). */
module JsonText {
  import opened Text
  import JsonScan

  // ----- What a string body means

  predicate IsHex(c: char) { '0' <= c <= '9' || 'a' <= c <= 'f' || 'A' <= c <= 'F' }

  function HexValue(c: char): (v: nat)
    requires IsHex(c)
    ensures v < 16
  {
    if c <= '9' then c as int - '0' as int
    else if c <= 'F' then c as int - 'A' as int + 10
    else c as int - 'a' as int + 10
  }

  /** The code unit that `uXXXX` after a backslash at `i` denotes. */
  function CodeUnit(body: string, i: nat): (r: Option<nat>)
    ensures r.Some? ==> i + 6 <= |body|
  {
    if i + 6 <= |body| && body[i] == '\\' && body[i + 1] == 'u'
       && IsHex(body[i + 2]) && IsHex(body[i + 3]) && IsHex(body[i + 4]) && IsHex(body[i + 5])
    then Some(4096 * HexValue(body[i + 2]) + 256 * HexValue(body[i + 3]) + 16 * HexValue(body[i + 4])
              + HexValue(body[i + 5]))
    else None
  }

  /** The UTF-8 bytes of a code point. */
  function Utf8(c: nat): (bytes: string)
    requires c < 0xD800 || 0xE000 <= c < 0x110000
    ensures 1 <= |bytes| <= 4
  {
    if c < 0x80 then [c as char]
    else if c < 0x800 then [(0xC0 + c / 64) as char, (0x80 + c % 64) as char]
    else if c < 0x10000 then [(0xE0 + c / 4096) as char, (0x80 + c / 64 % 64) as char, (0x80 + c % 64) as char]
    else [(0xF0 + c / 262144) as char, (0x80 + c / 4096 % 64) as char, (0x80 + c / 64 % 64) as char,
          (0x80 + c % 64) as char]
  }

  /** The bytes one escape denotes, and how much text it takes. A high surrogate needs its low one. */
  datatype Unit = Unit(bytes: string, width: nat)

  function ReadUnicode(body: string): (r: Option<Unit>)
    ensures r.Some? ==> 6 <= r.value.width <= |body| && |r.value.bytes| <= 4
  {
    match CodeUnit(body, 0)
    case None => None
    case Some(c) =>
      if c < 0xD800 || 0xE000 <= c then Some(Unit(Utf8(c), 6))
      else match CodeUnit(body, 6)
        case None => None
        case Some(low) =>
          if c < 0xDC00 && 0xDC00 <= low < 0xE000
          then Some(Unit(Utf8(0x10000 + (c - 0xD800) * 1024 + (low - 0xDC00)), 12))
          else None
  }

  function ShortEscape(c: char): Option<char> {
    if c == '"' || c == '\\' || c == '/' then Some(c)
    else if c == 'b' then Some(8 as char)
    else if c == 'f' then Some(12 as char)
    else if c == 'n' then Some('\n')
    else if c == 'r' then Some('\r')
    else if c == 't' then Some('\t')
    else None
  }

  /** The first character of a body, as the grammar reads it. */
  function ReadUnit(body: string): (r: Option<Unit>)
    requires body != ""
    ensures r.Some? ==> 1 <= r.value.width <= |body|
  {
    if body[0] == '\\' then
      if |body| < 2 then None
      else if body[1] == 'u' then ReadUnicode(body)
      else match ShortEscape(body[1])
        case None => None
        case Some(c) => Some(Unit([c], 2))
    else if body[0] == '"' || body[0] < ' ' then None
    else Some(Unit([body[0]], 1))
  }

  /** The bytes a string body denotes; nothing for a text that is not a string body. */
  function Unescape(body: string): Option<string>
    decreases |body|
  {
    if body == "" then Some("")
    else match ReadUnit(body)
      case None => None
      case Some(u) =>
        match Unescape(body[u.width..])
        case None => None
        case Some(rest) => Some(u.bytes + rest)
  }

  // ----- JsonEsc

  function HexDigit(d: nat): (c: char)
    requires d < 16
    ensures IsHex(c) && HexValue(c) == d
  {
    if d < 10 then ('0' as int + d) as char else ('a' as int + d - 10) as char
  }

  function EscapeChar(c: char): string {
    if c == '"' then "\\\""
    else if c == '\\' then "\\\\"
    else if c == '\n' then "\\n"
    else if c == '\r' then "\\r"
    else if c == '\t' then "\\t"
    else if c < ' ' then "\\u00" + [HexDigit(c as int / 16), HexDigit(c as int % 16)]
    else [c]
  }

  function Escape(s: string): string {
    if s == "" then "" else EscapeChar(s[0]) + Escape(s[1..])
  }

  /** How each byte is written: the two that JSON reserves and the three line characters with a backslash and a
      letter, the other control bytes by number, and the rest as they are. */
  lemma EscapeByByte(s: string, c: char)
    ensures Escape(s + "\"") == Escape(s) + "\\\"" && Escape(s + "\\") == Escape(s) + "\\\\"
    ensures Escape(s + "\n") == Escape(s) + "\\n" && Escape(s + "\r") == Escape(s) + "\\r"
    ensures Escape(s + "\t") == Escape(s) + "\\t"
    ensures c < ' ' && c !in "\n\r\t" ==>
              Escape(s + [c]) == Escape(s) + "\\u00" + [if c as int < 16 then '0' else '1', HexDigit(c as int % 16)]
    ensures c >= ' ' && c !in "\"\\" ==> Escape(s + [c]) == Escape(s) + [c]
  {
    EscapeAppend(s, '"');
    EscapeAppend(s, '\\');
    EscapeAppend(s, '\n');
    EscapeAppend(s, '\r');
    EscapeAppend(s, '\t');
    EscapeAppend(s, c);
  }

  lemma {:induction false} EscapeAppend(s: string, c: char)
    ensures Escape(s + [c]) == Escape(s) + EscapeChar(c)
  {
    if s == "" {
      assert [c][1..] == "";
    } else {
      assert (s + [c])[1..] == s[1..] + [c];
      EscapeAppend(s[1..], c);
    }
  }

  method JsonEsc(s: string) returns (o: string)
    ensures o == Escape(s)
  {
    o := "";
    for i := 0 to |s|
      invariant o == Escape(s[..i])
    {
      var c := s[i];
      EscapeAppend(s[..i], c);
      assert s[..i] + [c] == s[..i + 1];
      if c == '"' {
        o := o + "\\\"";
      } else if c == '\\' {
        o := o + "\\\\";
      } else if c == '\n' {
        o := o + "\\n";
      } else if c == '\r' {
        o := o + "\\r";
      } else if c == '\t' {
        o := o + "\\t";
      } else if c < ' ' {
        o := o + ("\\u00" + [HexDigit(c as int / 16), HexDigit(c as int % 16)]);
      } else {
        o := o + [c];
      }
    }
    assert s[..|s|] == s;
  }

  /** One escaped character, whatever follows it, is read as that character. */
  lemma EscapeCharReads(c: char, rest: string)
    ensures ReadUnit(EscapeChar(c) + rest) == Some(Unit([c], |EscapeChar(c)|))
  {
    var text := EscapeChar(c) + rest;
    if c < ' ' && c != '\n' && c != '\r' && c != '\t' {
      assert text[0] == '\\' && text[1] == 'u' && text[2] == '0' && text[3] == '0';
      assert text[4] == HexDigit(c as int / 16) && text[5] == HexDigit(c as int % 16);
      assert CodeUnit(text, 0) == Some(c as int);
    }
  }

  /** Whatever bytes it is given, `JsonEsc` writes a string body that means exactly those bytes; so no two
      texts are written alike. */
  lemma {:induction false} UnescapeOfEscape(s: string)
    ensures Unescape(Escape(s)) == Some(s)
  {
    if s != "" {
      var text := EscapeChar(s[0]) + Escape(s[1..]);
      EscapeCharReads(s[0], Escape(s[1..]));
      UnescapeOfEscape(s[1..]);
      assert text[|EscapeChar(s[0])|..] == Escape(s[1..]);
      assert [s[0]] + s[1..] == s;
      assert Unescape(text) == Some([s[0]] + s[1..]);
    }
  }

  lemma EscapeInjective(s: string, t: string)
    requires Escape(s) == Escape(t)
    ensures s == t
  {
    UnescapeOfEscape(s);
    UnescapeOfEscape(t);
  }

  /** A text that means something as a string body is one the bracket scanners run over. */
  lemma {:induction false} MeaningIsBody(body: string)
    requires Unescape(body).Some?
    ensures JsonScan.BodyOk(body)
    decreases |body|
  {
    if body != "" {
      var u := ReadUnit(body).value;
      MeaningIsBody(body[u.width..]);
      if body[0] == '\\' && body[1] == 'u' {
        UnicodeIsBody(body, u.width);
      }
    }
  }

  lemma HexIsBody(body: string)
    requires CodeUnit(body, 0).Some?
    requires JsonScan.BodyOk(body[6..])
    ensures JsonScan.BodyOk(body)
  {
    var b2, b3, b4, b5 := body[2..], body[3..], body[4..], body[5..];
    assert b5[1..] == body[6..] && JsonScan.BodyOk(b5);
    assert b4[1..] == b5 && JsonScan.BodyOk(b4);
    assert b3[1..] == b4 && JsonScan.BodyOk(b3);
    assert b2[1..] == b3 && JsonScan.BodyOk(b2);
  }

  lemma UnicodeIsBody(body: string, width: nat)
    requires ReadUnicode(body).Some? && width == ReadUnicode(body).value.width
    requires JsonScan.BodyOk(body[width..])
    ensures JsonScan.BodyOk(body)
  {
    if width == 12 {
      var low := body[6..];
      assert CodeUnit(low, 0) == CodeUnit(body, 6);
      assert low[6..] == body[12..];
      HexIsBody(low);
    }
    HexIsBody(body);
  }

  // ----- JsonStringAfter

  /** What the scanner makes of a string body: it drops each backslash and keeps the next character. */
  function Unslash(body: string): string
    decreases |body|
  {
    if body == "" then ""
    else if body[0] == '\\' && |body| > 1 then [body[1]] + Unslash(body[2..])
    else [body[0]] + Unslash(body[1..])
  }

  /** The characters from `p` up to the first quote that no backslash precedes, without the backslashes. */
  function ReadString(s: string, p: nat): string
    decreases |s| - p
  {
    if p >= |s| || s[p] == '"' then ""
    else if s[p] == '\\' && p + 1 < |s| then [s[p + 1]] + ReadString(s, p + 2)
    else [s[p]] + ReadString(s, p + 1)
  }

  function StringAfter(s: string, key: string, from: nat): string {
    match JsonScan.ValueStart(s, key, from)
    case None => ""
    case Some(start) => if start >= |s| || s[start] != '"' then "" else ReadString(s, start + 1)
  }

  lemma Regroup(out: string, c: char, rest: string)
    ensures out + ([c] + rest) == (out + [c]) + rest
  {
  }

  method JsonStringAfter(s: string, key: string, from: nat) returns (out: string)
    ensures out == StringAfter(s, key, from)
  {
    out := "";
    var start := JsonScan.FindValueStart(s, key, from);
    if start.None? || start.value >= |s| || s[start.value] != '"' {
      return;
    }
    out := ReadQuoted(s, start.value + 1);
  }

  method ReadQuoted(s: string, first: nat) returns (out: string)
    ensures out == ReadString(s, first)
  {
    out := "";
    var p := first;
    while p < |s| && s[p] != '"'
      invariant out + ReadString(s, p) == ReadString(s, first)
      decreases |s| - p
    {
      ghost var q := p;
      if s[p] == '\\' && p + 1 < |s| {
        p := p + 1;
      }
      Regroup(out, s[p], ReadString(s, p + 1));
      assert ReadString(s, q) == [s[p]] + ReadString(s, p + 1);
      out := out + [s[p]];
      p := p + 1;
    }
  }

  lemma {:induction false} BodyIsRead(s: string, p: nat, body: string, q: nat)
    requires JsonScan.BodyOk(body) && Matches(s, body, p) && q == p + |body| && q < |s| && s[q] == '"'
    ensures ReadString(s, p) == Unslash(body)
    decreases |body|
  {
    if body != "" {
      MatchChar(s, body, p, 0);
      var n := if body[0] == '\\' then 2 else 1;
      if n == 2 {
        MatchChar(s, body, p, 1);
      }
      JsonScan.MatchTail(s, body, p, n);
      BodyIsRead(s, p + n, body[n..], q);
    }
  }

  /** The string behind the first text `"key"`, as the scanner reads it from any printed JSON string. */
  lemma StringAfterIsUnslash(s: string, key: string, from: nat, gap: string, blanks: string, start: nat, body: string)
    requires JsonScan.BodyOk(body)
    requires JsonScan.KeyLeadsTo(s, key, from, gap, blanks, start) && Matches(s, JsonScan.Quoted(body), start)
    ensures StringAfter(s, key, from) == Unslash(body)
  {
    MatchesConcat(s, "\"" + body, "\"", start);
    MatchesConcat(s, "\"", body, start);
    MatchChar(s, "\"", start, 0);
    var q := start + 1 + |body|;
    MatchChar(s, "\"", q, 0);
    JsonScan.KeyFindsStart(s, key, from, gap, blanks, start);
    BodyIsRead(s, start + 1, body, q);
  }

  /** Every escape in the body is of a quote, a backslash or a slash. */
  predicate PlainEscapes(body: string)
    decreases |body|
  {
    if body == "" then true
    else if body[0] == '\\' then
      |body| > 1 && (body[1] == '"' || body[1] == '\\' || body[1] == '/') && PlainEscapes(body[2..])
    else PlainEscapes(body[1..])
  }

  /** Dropping backslashes never makes a string shorter than its meaning. */
  lemma {:induction false} UnslashIsLong(body: string)
    requires Unescape(body).Some?
    ensures |Unescape(body).value| <= |Unslash(body)|
    decreases |body|
  {
    if body != "" {
      var u := ReadUnit(body).value;
      UnslashIsLong(body[u.width..]);
      if body[0] == '\\' && body[1] == 'u' {
        UnslashOfUnicode(body, u.width);
      }
    }
  }

  lemma UnslashOfHex(body: string)
    requires CodeUnit(body, 0).Some?
    ensures |Unslash(body)| == 5 + |Unslash(body[6..])|
  {
    var b2, b3, b4, b5 := body[2..], body[3..], body[4..], body[5..];
    assert b5[1..] == body[6..] && |Unslash(b5)| == 1 + |Unslash(body[6..])|;
    assert b4[1..] == b5 && |Unslash(b4)| == 1 + |Unslash(b5)|;
    assert b3[1..] == b4 && |Unslash(b3)| == 1 + |Unslash(b4)|;
    assert b2[1..] == b3 && |Unslash(b2)| == 1 + |Unslash(b3)|;
  }

  lemma UnslashOfUnicode(body: string, width: nat)
    requires ReadUnicode(body).Some? && width == ReadUnicode(body).value.width
    ensures |Unslash(body)| >= |ReadUnicode(body).value.bytes| + 1 + |Unslash(body[width..])|
  {
    if width == 12 {
      var low := body[6..];
      assert CodeUnit(low, 0) == CodeUnit(body, 6);
      assert low[6..] == body[12..];
      UnslashOfHex(low);
    }
    UnslashOfHex(body);
  }

  /** What the scanner reads is what the string means exactly when the string uses no other escapes than
      those of quote, backslash and slash. */
  lemma {:induction false} ReadsMeaningIffPlain(body: string)
    requires Unescape(body).Some?
    ensures Unslash(body) == Unescape(body).value <==> PlainEscapes(body)
    decreases |body|
  {
    if body != "" {
      var u := ReadUnit(body).value;
      var tail := body[u.width..];
      if body[0] == '\\' && body[1] == 'u' {
        UnslashOfUnicode(body, u.width);
        UnslashIsLong(tail);
      } else {
        ReadsMeaningIffPlain(tail);
        var shown := if body[0] == '\\' then body[1] else body[0];
        HeadsAndTails(shown, Unslash(tail), u.bytes[0], Unescape(tail).value);
      }
    }
  }

  lemma HeadsAndTails(a: char, s: string, b: char, t: string)
    ensures [a] + s == [b] + t <==> a == b && s == t
  {
    assert ([a] + s)[1..] == s && ([b] + t)[1..] == t;
  }

  predicate NoControls(s: string) {
    forall i | 0 <= i < |s| :: s[i] >= ' '
  }

  /** What `JsonEsc` writes uses plain escapes only when there is no control character to write. */
  lemma {:induction false} EscapeIsPlain(s: string)
    ensures PlainEscapes(Escape(s)) <==> NoControls(s)
  {
    if s != "" {
      EscapeIsPlain(s[1..]);
      HeadIsPlain(s[0], Escape(s[1..]));
      NoControlsCons(s);
    }
  }

  lemma {:induction false} HeadIsPlain(c: char, rest: string)
    ensures PlainEscapes(EscapeChar(c) + rest) <==> c >= ' ' && PlainEscapes(rest)
  {
    var head := EscapeChar(c);
    var text := head + rest;
    if c == '"' || c == '\\' {
      assert text[2..] == rest;
    } else if c >= ' ' {
      assert text[1..] == rest;
    } else {
      assert text[0] == '\\' && text[1] == head[1];
    }
  }

  lemma NoControlsCons(s: string)
    requires s != ""
    ensures NoControls(s) <==> s[0] >= ' ' && NoControls(s[1..])
  {
    var rest := s[1..];
    if s[0] >= ' ' && NoControls(rest) {
      forall i | 0 <= i < |s| ensures s[i] >= ' ' {
        assert i > 0 ==> s[i] == rest[i - 1];
      }
    }
  }

  /** A string written by `JsonEsc` is read back by `JsonStringAfter` exactly when it has no byte below 0x20. */
  lemma StringReadsBack(s: string, key: string, from: nat, gap: string, blanks: string, start: nat, t: string)
    requires JsonScan.KeyLeadsTo(s, key, from, gap, blanks, start)
    requires Matches(s, JsonScan.Quoted(Escape(t)), start)
    ensures StringAfter(s, key, from) == t <==> NoControls(t)
  {
    UnescapeOfEscape(t);
    MeaningIsBody(Escape(t));
    StringAfterIsUnslash(s, key, from, gap, blanks, start, Escape(t));
    ReadsMeaningIffPlain(Escape(t));
    EscapeIsPlain(t);
  }
}
