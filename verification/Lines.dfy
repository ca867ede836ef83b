/** Blocks of CRLF-separated lines, as they stand at the head of requests and form fields. */
module Lines {
  import opened Text

  const CRLF := "\r\n"
  const CRLFCRLF := "\r\n\r\n"

  /** A carriage return at `i` is followed by a line that does not start with another. */
  predicate GoesOn(h: string, i: nat) {
    i < |h| && h[i] == '\r' ==> i + 2 < |h| && h[i + 2] != '\r'
  }

  predicate HeadersOk(h: string) {
    forall i: nat | i < |h| :: GoesOn(h, i)
  }

  /** Header blocks of non-empty lines are of that kind. */
  function JoinLines(lines: seq<string>): string {
    if lines == [] then "" else if |lines| == 1 then lines[0] else lines[0] + CRLF + JoinLines(lines[1..])
  }

  lemma HeadersConcat(a: string, b: string)
    requires '\r' !in a && HeadersOk(b) && b != "" && b[0] != '\r'
    ensures HeadersOk(a + CRLF + b)
  {
    var h, n := a + CRLF + b, |a|;
    forall i: nat | i < |h| ensures GoesOn(h, i) {
      assert h[i] == if i < n then a[i] else if i < n + 2 then CRLF[i - n] else b[i - n - 2];
      if i >= n + 2 {
        assert GoesOn(b, i - n - 2);
        assert h[i] == '\r' ==> b[i - n] == h[i + 2];
      }
    }
  }

  lemma {:induction false} LinesAreHeaders(lines: seq<string>)
    requires forall i | 0 <= i < |lines| :: lines[i] != "" && '\r' !in lines[i]
    ensures HeadersOk(JoinLines(lines))
    ensures lines != [] ==> JoinLines(lines) != "" && JoinLines(lines)[0] != '\r'
  {
    assert lines != [] ==> '\r' !in lines[0];
    if |lines| > 1 {
      LinesAreHeaders(lines[1..]);
      HeadersConcat(lines[0], JoinLines(lines[1..]));
    }
  }

  lemma NoCrNoCrlf(s: string)
    requires '\r' !in s
    ensures !Occurs(s, CRLF)
  {
    if Occurs(s, CRLF) {
      var i: nat :| i <= |s| && Matches(s, CRLF, i);
      MatchChar(s, CRLF, i, 0);
    }
  }

  lemma HeaderGoesOn(s: string, from: nat, h: string, j: nat)
    requires HeadersOk(h) && Matches(s, h, from) && from <= j < from + |h|
    ensures s[j] == '\r' ==> j + 2 < |s| && s[j + 2] != '\r'
  {
    MatchChar(s, h, from, j - from);
    assert GoesOn(h, j - from);
    if s[j] == '\r' {
      MatchChar(s, h, from, j - from + 2);
    }
  }

  /** The header block ends where it was written to end. */
  lemma FindHeaderEnd(s: string, from: nat, h: string)
    requires HeadersOk(h) && Matches(s, h, from) && Matches(s, CRLFCRLF, from + |h|)
    ensures Find(s, CRLFCRLF, from) == Some(from + |h|)
  {
    forall j: nat | from <= j < from + |h| ensures !Matches(s, CRLFCRLF, j) {
      HeaderGoesOn(s, from, h, j);
      if Matches(s, CRLFCRLF, j) {
        MatchChar(s, CRLFCRLF, j, 0);
        MatchChar(s, CRLFCRLF, j, 2);
      }
    }
    FoundAt(s, CRLFCRLF, from, from + |h|);
  }
}
