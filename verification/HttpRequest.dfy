/** Reading one HTTP request from a socket that delivers the stream in pieces (sections 5 and 6 of
    RFC 9112), against reading it from the whole stream at once. */
module HttpRequest {
  import opened Decimal
  import opened Lines
  import opened Text

  import CaseFold

  const HEADER_LIMIT: nat := 1024 * 1024
  const BUFFER: nat := 8192
  const BODY_LIMIT: nat := 512 * 1024 * 1024

  datatype Request = Request(head: string, headers: map<string, string>, body: string)

  // ----- Header fields

  function LowerChar(c: char): char {
    if 'A' <= c <= 'Z' then (c as int + 32) as char else c
  }

  function Lower(s: string): string {
    seq(|s|, i requires 0 <= i < |s| => LowerChar(s[i]))
  }

  function DropSpaces(s: string): string {
    if s != "" && s[0] == ' ' then DropSpaces(s[1..]) else s
  }

  /** One header line; a line without a colon is skipped, a repeated name overwrites. */
  function AddLine(m: map<string, string>, line: string): map<string, string> {
    match Find(line, ":", 0)
    case None => m
    case Some(colon) => m[Lower(line[..colon]) := DropSpaces(line[colon + 1..])]
  }

  function HeadersFrom(request: string, pos: nat, m: map<string, string>): map<string, string>
    decreases |request| - pos
  {
    if pos >= |request| then m
    else match Find(request, CRLF, pos)
      case None => AddLine(m, request[pos..])
      case Some(next) => HeadersFrom(request, next + 2, AddLine(m, request[pos..next]))
  }

  function HeaderMap(request: string): map<string, string> {
    match Find(request, CRLF, 0)
    case None => map[]
    case Some(lineStart) => HeadersFrom(request, lineStart + 2, map[])
  }

  lemma HeadersStep(request: string, pos: nat, m: map<string, string>, next: nat, more: map<string, string>)
    requires pos < |request| && Find(request, CRLF, pos) == Some(next) && more == AddLine(m, request[pos..next])
    ensures HeadersFrom(request, pos, m) == HeadersFrom(request, next + 2, more)
  {
  }

  /** A line without a colon is no field, and the first colon ends the name. */
  lemma LinesAddFields(m: map<string, string>, line: string, name: string, rest: string)
    ensures ':' !in line ==> AddLine(m, line) == m
    ensures ':' !in name ==> AddLine(m, name + ":" + rest) == m[Lower(name) := DropSpaces(rest)]
  {
    if ':' !in line {
      OccursChar(line, ':');
      FindNone(line, ":");
    }
    if ':' !in name {
      var s := name + ":" + rest;
      FindChar(s, 0, name, ':');
      assert s[..|name|] == name && s[|name| + 1..] == rest;
    }
  }

  lemma HeadersEnd(request: string, pos: nat, m: map<string, string>)
    requires pos < |request| ==> Find(request, CRLF, pos).None?
    ensures HeadersFrom(request, pos, m) == if pos < |request| then AddLine(m, request[pos..]) else m
  {
  }

  method ParseLine(line: string, m: map<string, string>) returns (headers: map<string, string>)
    ensures headers == AddLine(m, line)
  {
    headers := m;
    var colon := Find(line, ":", 0);
    if colon.Some? {
      var vs := SkipSpaces(line, colon.value + 1);
      headers := headers[Lower(line[..colon.value]) := line[vs..]];
    }
  }

  method ParseHeaders(request: string) returns (headers: map<string, string>)
    ensures headers == HeaderMap(request)
  {
    headers := map[];
    var lineStart := Find(request, CRLF, 0);
    var pos: nat := if lineStart.None? then |request| else lineStart.value + 2;
    while pos < |request|
      invariant HeadersFrom(request, pos, headers) == HeaderMap(request)
      decreases |request| - pos
    {
      var next := Find(request, CRLF, pos);
      if next.None? {
        HeadersEnd(request, pos, headers);
        headers := ParseLine(request[pos..], headers);
        return;
      }
      var more := ParseLine(request[pos..next.value], headers);
      HeadersStep(request, pos, headers, next.value, more);
      headers := more;
      pos := next.value + 2;
    }
  }

  method SkipSpaces(line: string, start: nat) returns (vs: nat)
    requires start <= |line|
    ensures vs <= |line| && line[vs..] == DropSpaces(line[start..])
  {
    vs := start;
    while vs < |line| && line[vs] == ' '
      invariant vs <= |line| && DropSpaces(line[vs..]) == DropSpaces(line[start..])
    {
      assert line[vs..][1..] == line[vs + 1..];
      vs := vs + 1;
    }
  }

  function ContentLength(headers: map<string, string>): nat {
    if "content-length" in headers then Strtoull(headers["content-length"]) else 0
  }

  // ----- Reading from the whole stream

  /** The request with this header block, followed by these bytes. */
  function Finish(head: string, rest: string): Option<Request> {
    var n := ContentLength(HeaderMap(head));
    if n > BODY_LIMIT || |rest| < n then None else Some(Request(head, HeaderMap(head), rest[..n]))
  }

  /** The request at the front of the stream; `None` is the refusal. */
  function Read(stream: string): Option<Request> {
    match Find(stream, CRLFCRLF, 0)
    case None => None
    case Some(end) => Finish(stream[..end], stream[end + 4..])
  }

  // ----- Reading from pieces

  /** The receive calls until the end of the header block is seen. */
  function Gather(data: string, chunks: seq<string>): Option<(string, seq<string>)>
    decreases |chunks|
  {
    if |data| >= HEADER_LIMIT || chunks == [] then None
    else
      var more := data + chunks[0];
      if Find(more, CRLFCRLF, 0).Some? then Some((more, chunks[1..])) else Gather(more, chunks[1..])
  }

  /** The receive calls until the body is complete. */
  function Fill(body: string, chunks: seq<string>, n: nat): Option<string>
    decreases |chunks|
  {
    if |body| >= n then Some(body[..n])
    else if chunks == [] then None
    else Fill(body + chunks[0], chunks[1..], n)
  }

  function FillRequest(head: string, start: string, chunks: seq<string>): Option<Request> {
    var n := ContentLength(HeaderMap(head));
    if n > BODY_LIMIT then None
    else match Fill(start, chunks, n)
      case None => None
      case Some(body) => Some(Request(head, HeaderMap(head), body))
  }

  function ReadChunks(chunks: seq<string>): Option<Request> {
    match Gather("", chunks)
    case None => None
    case Some((data, later)) =>
      match Find(data, CRLFCRLF, 0)
      case None => None
      case Some(end) => FillRequest(data[..end], data[end + 4..], later)
  }

  /** What successive `recv` calls will deliver; nothing left is the end of the stream. */
  class Socket {
    var chunks: seq<string>

    constructor (chunks: seq<string>)
      ensures this.chunks == chunks
    {
      this.chunks := chunks;
    }

    method Recv() returns (read: bool, data: string)
      modifies this
      ensures read == (old(chunks) != [])
      ensures read ==> data == old(chunks)[0] && chunks == old(chunks)[1..]
      ensures !read ==> chunks == old(chunks)
    {
      if chunks == [] {
        return false, "";
      }
      read, data := true, chunks[0];
      chunks := chunks[1..];
    }
  }

  method ReadHead(s: Socket) returns (ok: bool, data: string)
    modifies s
    ensures (if ok then Some((data, s.chunks)) else None) == Gather("", old(s.chunks))
    ensures ok ==> Find(data, CRLFCRLF, 0).Some?
  {
    data := "";
    ok := false;
    while |data| < HEADER_LIMIT
      invariant !ok && Gather(data, s.chunks) == Gather("", old(s.chunks))
      decreases |s.chunks|
    {
      var read, buffer := s.Recv();
      if !read {
        return;
      }
      data := data + buffer;
      if Find(data, CRLFCRLF, 0).Some? {
        ok := true;
        return;
      }
    }
  }

  method ReadBody(s: Socket, start: string, contentLength: nat) returns (ok: bool, body: string)
    modifies s
    ensures (if ok then Some(body) else None) == Fill(start, old(s.chunks), contentLength)
  {
    body := start;
    while |body| < contentLength
      invariant Fill(body, s.chunks, contentLength) == Fill(start, old(s.chunks), contentLength)
      decreases |s.chunks|
    {
      var read, buffer := s.Recv();
      if !read {
        return false, body;
      }
      body := body + buffer;
    }
    if |body| > contentLength {
      body := body[..contentLength];
    }
    ok := true;
    assert body[..contentLength] == body;
  }

  method ReadRequest(s: Socket) returns (ok: bool, request: string, body: string, headers: map<string, string>)
    modifies s
    ensures (if ok then Some(Request(request, headers, body)) else None) == ReadChunks(old(s.chunks))
  {
    request, body, headers := "", "", map[];
    var found, data := ReadHead(s);
    if !found {
      return false, request, body, headers;
    }
    var headerEnd := Find(data, CRLFCRLF, 0).value;
    request := data[..headerEnd];
    headers := ParseHeaders(request);
    var contentLength := ContentLength(headers);
    if contentLength > BODY_LIMIT {
      return false, request, body, headers;
    }
    ok, body := ReadBody(s, data[headerEnd + 4..], contentLength);
  }

  // ----- The pieces do not matter

  function Stream(chunks: seq<string>): string {
    if chunks == [] then "" else chunks[0] + Stream(chunks[1..])
  }

  lemma MatchesExtend(a: string, b: string, pat: string, i: nat)
    requires i + |pat| <= |a|
    ensures Matches(a + b, pat, i) <==> Matches(a, pat, i)
  {
  }

  /** A first occurrence stays the first when text is added, and is there before when it lies in front. */
  lemma FindExtend(a: string, b: string, pat: string)
    ensures Find(a, pat, 0).Some? ==> Find(a + b, pat, 0) == Find(a, pat, 0)
    ensures Find(a + b, pat, 0).Some? && Find(a + b, pat, 0).value + |pat| <= |a| ==>
              Find(a, pat, 0) == Find(a + b, pat, 0)
  {
    var s := a + b;
    var r, t := Find(a, pat, 0), Find(s, pat, 0);
    if r.Some? {
      forall j: nat | j < r.value ensures !Matches(s, pat, j) {
        MatchesExtend(a, b, pat, j);
      }
      MatchesExtend(a, b, pat, r.value);
      FoundAt(s, pat, 0, r.value);
    } else if t.Some? && t.value + |pat| <= |a| {
      MatchesExtend(a, b, pat, t.value);
    }
  }

  lemma {:induction false} FillIsTake(body: string, chunks: seq<string>, n: nat)
    ensures Fill(body, chunks, n)
            == if |body + Stream(chunks)| >= n then Some((body + Stream(chunks))[..n]) else None
    decreases |chunks|
  {
    if |body| >= n {
      assert (body + Stream(chunks))[..n] == body[..n];
    } else if chunks == [] {
      assert body + Stream(chunks) == body;
    } else {
      FillIsTake(body + chunks[0], chunks[1..], n);
      assert body + chunks[0] + Stream(chunks[1..]) == body + Stream(chunks);
    }
  }

  /** Gathering succeeds with a front of the stream that holds the first end of header, provided that
      end lies within the limit; without one it fails. */
  lemma {:induction false} GatherFinds(data: string, chunks: seq<string>)
    requires Find(data, CRLFCRLF, 0).None?
    ensures var end := Find(data + Stream(chunks), CRLFCRLF, 0);
            (end.None? ==> Gather(data, chunks).None?)
            && (end.Some? && end.value + 4 <= HEADER_LIMIT ==>
                  Gather(data, chunks).Some? && Find(Gather(data, chunks).value.0, CRLFCRLF, 0) == end)
    ensures Gather(data, chunks).Some? ==>
              var (d, later) := Gather(data, chunks).value;
              d + Stream(later) == data + Stream(chunks) && Find(d, CRLFCRLF, 0).Some?
    decreases |chunks|
  {
    var whole := data + Stream(chunks);
    FindExtend(data, Stream(chunks), CRLFCRLF);
    if chunks == [] {
      assert whole == data;
    } else if |data| < HEADER_LIMIT {
      var more := data + chunks[0];
      assert more + Stream(chunks[1..]) == whole;
      FindExtend(more, Stream(chunks[1..]), CRLFCRLF);
      if Find(more, CRLFCRLF, 0).None? {
        GatherFinds(more, chunks[1..]);
      }
    }
  }

  lemma NoEndInNothing()
    ensures Find("", CRLFCRLF, 0) == None
  {
  }

  lemma CutConcat(d: string, x: string, i: nat)
    requires i <= |d|
    ensures (d + x)[..i] == d[..i] && (d + x)[i..] == d[i..] + x
  {
  }

  /** Reading the whole stream from a front that holds the end of the header block. */
  lemma ReadFromFront(d: string, x: string, end: nat)
    requires Find(d, CRLFCRLF, 0) == Some(end)
    ensures Find(d + x, CRLFCRLF, 0) == Some(end) && end + 4 <= |d|
    ensures Read(d + x) == Finish(d[..end], d[end + 4..] + x)
  {
    FindExtend(d, x, CRLFCRLF);
    MatchFits(d, end);
    CutConcat(d, x, end);
    CutConcat(d, x, end + 4);
  }

  /** Reading does not depend on how the stream was cut: whenever the header block ends within the limit,
      or never ends, every cutting gives what the whole stream gives. */
  lemma ChunksDoNotMatter(chunks: seq<string>)
    requires var end := Find(Stream(chunks), CRLFCRLF, 0); end.Some? ==> end.value + 4 <= HEADER_LIMIT
    ensures ReadChunks(chunks) == Read(Stream(chunks))
  {
    NoEndInNothing();
    GatherFinds("", chunks);
    assert "" + Stream(chunks) == Stream(chunks);
    if Gather("", chunks).Some? {
      ReadGathered(chunks);
    }
  }

  lemma FillIsFinish(head: string, start: string, chunks: seq<string>)
    ensures FillRequest(head, start, chunks) == Finish(head, start + Stream(chunks))
  {
    FillIsTake(start, chunks, ContentLength(HeaderMap(head)));
  }

  lemma GatheredFront(chunks: seq<string>, d: string, later: seq<string>)
    requires Gather("", chunks) == Some((d, later))
    ensures Stream(chunks) == d + Stream(later) && Find(d, CRLFCRLF, 0).Some?
  {
    NoEndInNothing();
    GatherFinds("", chunks);
    assert "" + Stream(chunks) == Stream(chunks);
  }

  lemma ReadChunksFills(chunks: seq<string>, d: string, later: seq<string>, end: nat)
    requires Gather("", chunks) == Some((d, later)) && Find(d, CRLFCRLF, 0) == Some(end)
    ensures end + 4 <= |d| && ReadChunks(chunks) == FillRequest(d[..end], d[end + 4..], later)
  {
    MatchFits(d, end);
  }

  lemma ReadAfterGather(chunks: seq<string>, d: string, later: seq<string>)
    requires Gather("", chunks) == Some((d, later))
    ensures ReadChunks(chunks) == Read(Stream(chunks))
  {
    GatheredFront(chunks, d, later);
    var end := Find(d, CRLFCRLF, 0).value;
    ReadChunksFills(chunks, d, later, end);
    ReadFromFront(d, Stream(later), end);
    FillIsFinish(d[..end], d[end + 4..], later);
  }

  /** Bytes behind the body are not looked at. */
  lemma ReadIgnoresTheRest(stream: string, more: string)
    requires Read(stream).Some?
    ensures Read(stream + more) == Read(stream)
  {
    FindExtend(stream, more, CRLFCRLF);
    var end := Find(stream, CRLFCRLF, 0).value;
    assert (stream + more)[..end] == stream[..end];
    assert (stream + more)[end + 4..] == stream[end + 4..] + more;
    var n := ContentLength(HeaderMap(stream[..end]));
    assert (stream[end + 4..] + more)[..n] == stream[end + 4..][..n];
  }

  // ----- At the header limit

  /** Pieces a receive call with the panel's buffer can deliver. */
  predicate PiecesOk(chunks: seq<string>) {
    forall i | 0 <= i < |chunks| :: 1 <= |chunks[i]| <= BUFFER
  }

  /** The stream cut into full buffers. */
  function Cut(stream: string): seq<string>
    decreases |stream|
  {
    if stream == "" then []
    else if |stream| <= BUFFER then [stream]
    else [stream[..BUFFER]] + Cut(stream[BUFFER..])
  }

  lemma {:induction false} CutIsOk(stream: string)
    ensures PiecesOk(Cut(stream)) && Stream(Cut(stream)) == stream
    decreases |stream|
  {
    if |stream| > BUFFER {
      CutIsOk(stream[BUFFER..]);
      assert stream == stream[..BUFFER] + stream[BUFFER..];
      assert Cut(stream)[1..] == Cut(stream[BUFFER..]);
    } else if stream != "" {
      assert [stream][1..] == [];
    }
  }

  /** Where full buffers take the length of what has been gathered, from `n` on. */
  function FirstAtLimit(n: nat): nat
    decreases HEADER_LIMIT - n
  {
    if n >= HEADER_LIMIT then n else FirstAtLimit(n + BUFFER)
  }

  /** Gathering full buffers succeeds exactly when the header block ends before the length at which the
      limit is reached or passed. */
  lemma {:induction false} GatherCut(data: string, rest: string, end: nat)
    requires Find(data + rest, CRLFCRLF, 0) == Some(end) && Find(data, CRLFCRLF, 0).None?
    ensures Gather(data, Cut(rest)).Some? <==> end + 4 <= FirstAtLimit(|data|)
    decreases |rest|
  {
    FindExtend(data, rest, CRLFCRLF);
    MatchFits(data + rest, end);
    assert rest == "" ==> data + rest == data;
    if rest != "" && |data| < HEADER_LIMIT {
      var n := if |rest| <= BUFFER then |rest| else BUFFER;
      var more, later := data + rest[..n], rest[n..];
      assert more + later == data + rest;
      assert Cut(rest)[0] == rest[..n] && Cut(rest)[1..] == Cut(later);
      FindExtend(more, later, CRLFCRLF);
      LimitGrows(|data| + BUFFER);
      if Find(more, CRLFCRLF, 0).None? {
        GatherCut(more, later, end);
      }
    }
  }

  lemma MatchFits(s: string, end: nat)
    requires Find(s, CRLFCRLF, 0) == Some(end)
    ensures end + 4 <= |s|
  {
  }

  lemma {:induction false} LimitGrows(n: nat)
    ensures FirstAtLimit(n) >= n && FirstAtLimit(n) >= HEADER_LIMIT
    decreases HEADER_LIMIT - n
  {
    if n < HEADER_LIMIT {
      LimitGrows(n + BUFFER);
    }
  }

  /** From the start, full buffers stop exactly at the limit; one byte short of a full buffer first, they
      stop as far behind it as is possible. */
  lemma {:induction false} LimitFrom(k: nat, n: nat)
    requires k <= 128 && (n == k * BUFFER || n == k * BUFFER + BUFFER - 1)
    ensures FirstAtLimit(n) == if n == k * BUFFER then HEADER_LIMIT
                               else if k == 128 then n else HEADER_LIMIT + BUFFER - 1
    decreases 128 - k
  {
    if k < 128 {
      LimitFrom(k + 1, n + BUFFER);
    }
  }

  /** No cutting gathers a header block that ends more than a buffer less one byte behind the limit. */
  lemma {:induction false} GatherIsBounded(data: string, chunks: seq<string>)
    requires PiecesOk(chunks) && Gather(data, chunks).Some?
    ensures |Gather(data, chunks).value.0| <= HEADER_LIMIT + BUFFER - 1
    decreases |chunks|
  {
    var more := data + chunks[0];
    if Find(more, CRLFCRLF, 0).None? {
      GatherIsBounded(more, chunks[1..]);
    }
  }

  /** The header block ends, and within the first `limit` bytes. */
  predicate EndsWithin(stream: string, limit: nat) {
    var end := Find(stream, CRLFCRLF, 0);
    end.Some? && end.value + 4 <= limit
  }

  ghost predicate EveryCuttingAgrees(stream: string) {
    forall chunks | PiecesOk(chunks) && Stream(chunks) == stream :: ReadChunks(chunks) == Read(stream)
  }

  ghost predicate SomeCuttingAgrees(stream: string) {
    exists chunks :: PiecesOk(chunks) && Stream(chunks) == stream && ReadChunks(chunks) == Read(stream)
  }

  /** For every stream: every cutting gives what the whole stream gives exactly when that is a refusal or the
      header block ends within the limit; some cutting does exactly when it is a refusal or the block ends less
      than one buffer behind the limit. */
  lemma ReadAtLimit(stream: string)
    ensures EveryCuttingAgrees(stream) <==> Read(stream).None? || EndsWithin(stream, HEADER_LIMIT)
    ensures SomeCuttingAgrees(stream) <==> Read(stream).None? || EndsWithin(stream, HEADER_LIMIT + BUFFER - 1)
  {
    CutIsOk(stream);
    if Read(stream).None? {
      forall chunks | PiecesOk(chunks) && Stream(chunks) == stream ensures ReadChunks(chunks) == Read(stream) {
        RefusedIsRefused(chunks);
      }
    } else {
      CompleteAtLimit(stream, Find(stream, CRLFCRLF, 0).value);
    }
  }

  /** No cutting makes a request out of a stream that is refused whole. */
  lemma RefusedIsRefused(chunks: seq<string>)
    requires Read(Stream(chunks)).None?
    ensures ReadChunks(chunks).None?
  {
    if Gather("", chunks).Some? {
      ReadGathered(chunks);
    }
  }

  lemma CompleteAtLimit(stream: string, end: nat)
    requires Read(stream).Some? && Find(stream, CRLFCRLF, 0) == Some(end)
    ensures EveryCuttingAgrees(stream) <==> end + 4 <= HEADER_LIMIT
    ensures SomeCuttingAgrees(stream) <==> end + 4 < HEADER_LIMIT + BUFFER
  {
    if end + 4 <= HEADER_LIMIT {
      forall chunks | PiecesOk(chunks) && Stream(chunks) == stream ensures ReadChunks(chunks) == Read(stream) {
        ChunksDoNotMatter(chunks);
      }
      CutIsOk(stream);
    } else {
      FullBuffersRefuse(stream, end);
    }
    if HEADER_LIMIT < end + 4 < HEADER_LIMIT + BUFFER {
      ShortFirstAccepts(stream, end);
    }
    forall chunks | PiecesOk(chunks) && Stream(chunks) == stream && ReadChunks(chunks) == Read(stream)
      ensures end + 4 < HEADER_LIMIT + BUFFER
    {
      AcceptedEndsEarly(chunks, end);
    }
  }

  lemma AcceptedEndsEarly(chunks: seq<string>, end: nat)
    requires PiecesOk(chunks) && Find(Stream(chunks), CRLFCRLF, 0) == Some(end) && ReadChunks(chunks).Some?
    ensures end + 4 < HEADER_LIMIT + BUFFER
  {
    NoEndInNothing();
    GatherFinds("", chunks);
    GatherIsBounded("", chunks);
    assert "" + Stream(chunks) == Stream(chunks);
    var (d, later) := Gather("", chunks).value;
    ReadFromFront(d, Stream(later), Find(d, CRLFCRLF, 0).value);
  }

  lemma FullBuffersRefuse(stream: string, end: nat)
    requires Find(stream, CRLFCRLF, 0) == Some(end) && end + 4 > HEADER_LIMIT
    ensures var chunks := Cut(stream); PiecesOk(chunks) && Stream(chunks) == stream && ReadChunks(chunks).None?
  {
    NoEndInNothing();
    CutIsOk(stream);
    assert "" + stream == stream;
    GatherCut("", stream, end);
    LimitFrom(0, 0);
  }

  lemma ShortFirstGathers(first: string, rest: string, end: nat)
    requires |first| == BUFFER - 1
    requires Find(first + rest, CRLFCRLF, 0) == Some(end) && HEADER_LIMIT < end + 4 < HEADER_LIMIT + BUFFER
    ensures Gather("", [first] + Cut(rest)).Some?
  {
    NotYet(first, rest, end);
    GatherCut(first, rest, end);
    LimitFrom(0, BUFFER - 1);
    GatherShort(first, rest, [first] + Cut(rest));
  }

  lemma ShortFirstAccepts(stream: string, end: nat)
    requires Find(stream, CRLFCRLF, 0) == Some(end) && HEADER_LIMIT < end + 4 < HEADER_LIMIT + BUFFER
    ensures exists chunks :: PiecesOk(chunks) && Stream(chunks) == stream && ReadChunks(chunks) == Read(stream)
  {
    MatchFits(stream, end);
    var first, rest := stream[..BUFFER - 1], stream[BUFFER - 1..];
    assert first + rest == stream;
    ShortFirst(first, rest);
    ShortFirstGathers(first, rest, end);
    ReadGathered([first] + Cut(rest));
  }

  lemma ReadGathered(chunks: seq<string>)
    requires Gather("", chunks).Some?
    ensures ReadChunks(chunks) == Read(Stream(chunks))
  {
    ReadAfterGather(chunks, Gather("", chunks).value.0, Gather("", chunks).value.1);
  }

  lemma GatherShort(first: string, rest: string, chunks: seq<string>)
    requires |first| == BUFFER - 1 && Find(first, CRLFCRLF, 0).None? && Gather(first, Cut(rest)).Some?
    requires chunks == [first] + Cut(rest)
    ensures Gather("", chunks).Some?
  {
    assert "" + first == first && chunks[1..] == Cut(rest);
  }

  lemma ShortFirst(first: string, rest: string)
    requires |first| == BUFFER - 1
    ensures var chunks := [first] + Cut(rest);
            PiecesOk(chunks) && Stream(chunks) == first + rest && chunks[0] == first && chunks[1..] == Cut(rest)
  {
    CutIsOk(rest);
    assert ([first] + Cut(rest))[1..] == Cut(rest);
  }

  lemma NotYet(first: string, rest: string, end: nat)
    requires Find(first + rest, CRLFCRLF, 0) == Some(end) && end + 4 > |first|
    ensures Find(first, CRLFCRLF, 0).None?
  {
    FindExtend(first, rest, CRLFCRLF);
    if Find(first, CRLFCRLF, 0).Some? {
      MatchFits(first, Find(first, CRLFCRLF, 0).value);
    }
  }

  // ----- Printed requests read back

  datatype Field = Field(name: string, pad: nat, value: string)

  function Spaces(n: nat): string {
    if n == 0 then "" else " " + Spaces(n - 1)
  }

  function FieldText(f: Field): string {
    f.name + ":" + (Spaces(f.pad) + f.value)
  }

  predicate FieldOk(f: Field) {
    ':' !in f.name && '\r' !in f.name && '\r' !in f.value && (f.value != "" ==> f.value[0] != ' ')
  }

  predicate FieldsOk(fields: seq<Field>) {
    forall i | 0 <= i < |fields| :: FieldOk(fields[i])
  }

  function FieldTexts(fields: seq<Field>): (r: seq<string>)
    ensures |r| == |fields|
  {
    if fields == [] then [] else [FieldText(fields[0])] + FieldTexts(fields[1..])
  }

  /** Request line and fields, one a line. */
  function HeadText(line: string, fields: seq<Field>): string {
    JoinLines([line] + FieldTexts(fields))
  }

  /** Later fields win over earlier ones of the same name, whatever its case. */
  function Collect(m: map<string, string>, fields: seq<Field>): map<string, string>
    decreases |fields|
  {
    if fields == [] then m else Collect(m[Lower(fields[0].name) := fields[0].value], fields[1..])
  }

  lemma {:induction false} PaddingDrops(n: nat, v: string)
    requires v != "" ==> v[0] != ' '
    ensures DropSpaces(Spaces(n) + v) == v && '\r' !in Spaces(n)
  {
    if n == 0 {
      assert Spaces(0) + v == v;
    } else {
      PaddingDrops(n - 1, v);
      assert (Spaces(n) + v)[1..] == Spaces(n - 1) + v;
    }
  }

  lemma FieldReadsBack(m: map<string, string>, f: Field)
    requires FieldOk(f)
    ensures AddLine(m, FieldText(f)) == m[Lower(f.name) := f.value]
    ensures FieldText(f) != "" && '\r' !in FieldText(f)
  {
    PaddingDrops(f.pad, f.value);
    var line := FieldText(f);
    FindChar(line, 0, f.name, ':');
    assert line[..|f.name|] == f.name && line[|f.name| + 1..] == Spaces(f.pad) + f.value;
  }

  lemma {:induction false} FieldTextsAreLines(fields: seq<Field>, i: nat)
    requires FieldsOk(fields) && i < |fields|
    ensures FieldTexts(fields)[i] != "" && '\r' !in FieldTexts(fields)[i]
  {
    FieldReadsBack(map[], fields[0]);
    if i > 0 {
      FieldTextsAreLines(fields[1..], i - 1);
    }
  }

  predicate LinesOk(lines: seq<string>) {
    forall i | 0 <= i < |lines| :: lines[i] != "" && '\r' !in lines[i]
  }

  function AddLines(m: map<string, string>, lines: seq<string>): map<string, string>
    decreases |lines|
  {
    if lines == [] then m else AddLines(AddLine(m, lines[0]), lines[1..])
  }

  lemma {:induction false} FieldsReadBack(m: map<string, string>, fields: seq<Field>)
    requires FieldsOk(fields)
    ensures AddLines(m, FieldTexts(fields)) == Collect(m, fields)
    decreases |fields|
  {
    if fields != [] {
      FieldReadsBack(m, fields[0]);
      FieldsReadBack(m[Lower(fields[0].name) := fields[0].value], fields[1..]);
      assert FieldTexts(fields)[1..] == FieldTexts(fields[1..]);
    }
  }

  /** The line that stands at `pos` ends at the next line break, or with the text. */
  lemma LineEnds(request: string, pos: nat, line: string, end: nat)
    requires '\r' !in line && Matches(request, line, pos) && end == pos + |line|
    ensures Matches(request, CRLF, end) ==> Find(request, CRLF, pos) == Some(end) && request[pos..end] == line
    ensures end == |request| ==> Find(request, CRLF, pos) == None && request[pos..] == line
  {
    NoCrNoCrlf(line);
    if Matches(request, CRLF, end) {
      FindAfterClean(request, pos, line, CRLF);
    }
    if end == |request| {
      var r := Find(request, CRLF, pos);
      if r.Some? {
        MatchInPart(request, line, pos, CRLF, r.value);
      }
    }
  }

  /** The loop over header lines sees exactly the lines that were joined. */
  lemma {:induction false} LinesReadBack(request: string, pos: nat, lines: seq<string>, m: map<string, string>)
    requires LinesOk(lines) && Matches(request, JoinLines(lines), pos) && pos + |JoinLines(lines)| == |request|
    ensures HeadersFrom(request, pos, m) == AddLines(m, lines)
    decreases |lines|
  {
    if |lines| == 1 {
      LineEnds(request, pos, lines[0], |request|);
      assert lines[1..] == [];
    } else if lines != [] {
      var end := pos + |lines[0]|;
      FirstLine(request, pos, lines, end);
      HeadersStep(request, pos, m, end, AddLine(m, lines[0]));
      LinesReadBack(request, end + 2, lines[1..], AddLine(m, lines[0]));
    }
  }

  lemma FirstLine(request: string, pos: nat, lines: seq<string>, end: nat)
    requires LinesOk(lines) && |lines| > 1 && Matches(request, JoinLines(lines), pos) && end == pos + |lines[0]|
    ensures Find(request, CRLF, pos) == Some(end) && end <= |request| && request[pos..end] == lines[0]
    ensures Matches(request, JoinLines(lines[1..]), end + 2)
  {
    MatchesConcat(request, lines[0] + CRLF, JoinLines(lines[1..]), pos);
    MatchesConcat(request, lines[0], CRLF, pos);
    LineEnds(request, pos, lines[0], end);
  }

  /** The first line is the request line. */
  lemma RequestLineFound(line: string, fields: seq<Field>)
    requires '\r' !in line && FieldsOk(fields)
    ensures var request := HeadText(line, fields);
            Find(request, CRLF, 0) == (if fields == [] then None else Some(|line|)) && line <= request
    ensures fields == [] ==> HeadText(line, fields) == line
    ensures fields != [] ==> Matches(HeadText(line, fields), JoinLines(FieldTexts(fields)), |line| + 2)
                             && |HeadText(line, fields)| == |line| + 2 + |JoinLines(FieldTexts(fields))|
  {
    var texts := FieldTexts(fields);
    var lines, request := [line] + texts, HeadText(line, fields);
    assert lines[1..] == texts;
    MatchesWhole(request);
    if fields == [] {
      assert request == line;
      LineEnds(request, 0, line, |request|);
    } else {
      MatchesConcat(request, line + CRLF, JoinLines(texts), 0);
      MatchesConcat(request, line, CRLF, 0);
      LineEnds(request, 0, line, |line|);
    }
  }

  lemma HeadReadsBack(line: string, fields: seq<Field>)
    requires line != "" && '\r' !in line && FieldsOk(fields)
    ensures HeaderMap(HeadText(line, fields)) == Collect(map[], fields) && HeadersOk(HeadText(line, fields))
  {
    var texts := FieldTexts(fields);
    var lines := [line] + texts;
    forall i | 0 <= i < |fields| ensures texts[i] != "" && '\r' !in texts[i] {
      FieldTextsAreLines(fields, i);
    }
    LinesAreHeaders(lines);
    FieldsReadBack(map[], fields);
    RequestLineFound(line, fields);
    if fields != [] {
      LinesReadBack(HeadText(line, fields), |line| + 2, texts, map[]);
    }
  }

  /** The value of the last field that has this name, in whatever case its letters are written. */
  function LastValue(fields: seq<Field>, name: string): Option<string> {
    if fields == [] then None
    else match LastValue(fields[1..], name)
      case Some(value) => Some(value)
      case None => if CaseFold.Same(CaseFold.AsciiLow, fields[0].name, name) then Some(fields[0].value) else None
  }

  /** A name without capital letters. */
  predicate IsLow(name: string) {
    forall i | 0 <= i < |name| :: CaseFold.AsciiLow(name[i]) == name[i]
  }

  lemma LowerIsSame(name: string, key: string)
    ensures Lower(name) == key <==> IsLow(key) && CaseFold.Same(CaseFold.AsciiLow, name, key)
  {
    if Lower(name) == key {
      forall i | 0 <= i < |key| ensures CaseFold.AsciiLow(key[i]) == key[i] && CaseFold.AsciiLow(name[i]) == key[i] {
        assert Lower(name)[i] == key[i];
      }
    }
    if IsLow(key) && CaseFold.Same(CaseFold.AsciiLow, name, key) {
      forall i | 0 <= i < |key| ensures Lower(name)[i] == key[i] {
        assert CaseFold.AsciiLow(name[i]) == CaseFold.AsciiLow(key[i]);
      }
    }
  }

  lemma {:induction false} CollectFinds(m: map<string, string>, fields: seq<Field>, key: string)
    ensures var all, value := Collect(m, fields), if IsLow(key) then LastValue(fields, key) else None;
            && (key in all <==> value.Some? || key in m)
            && (key in all ==> all[key] == if value.Some? then value.value else m[key])
    decreases |fields|
  {
    if fields != [] {
      CollectFinds(m[Lower(fields[0].name) := fields[0].value], fields[1..], key);
      LowerIsSame(fields[0].name, key);
    }
  }

  /** What the header map of a printed request holds: under each name in small letters the value of the last
      field that has this name in any spelling, and nothing else. */
  lemma HeadersAreFound(line: string, fields: seq<Field>, key: string)
    requires line != "" && '\r' !in line && FieldsOk(fields)
    ensures var headers, value := HeaderMap(HeadText(line, fields)), LastValue(fields, key);
            && (key in headers <==> IsLow(key) && value.Some?)
            && (key in headers ==> headers[key] == value.value)
  {
    HeadReadsBack(line, fields);
    CollectFinds(map[], fields, key);
  }

  /** The length that is read is the one the last such field announces. */
  lemma LengthIsFound(fields: seq<Field>, n: nat)
    requires n <= ULL_MAX && LastValue(fields, "content-length") == Some(ToDecimal(n))
    ensures ContentLength(Collect(map[], fields)) == n
  {
    CollectFinds(map[], fields, "content-length");
    StrtoullOfDecimal(n);
  }

  /** The content length a browser announces is the one that is read. */
  lemma AnnouncedLength(fields: seq<Field>, pad: nat, n: nat)
    requires n <= ULL_MAX
    ensures ContentLength(Collect(map[], fields + [Field("Content-Length", pad, ToDecimal(n))])) == n
  {
    StrtoullOfDecimal(n);
    CollectLast(map[], fields, Field("Content-Length", pad, ToDecimal(n)));
    assert Lower("Content-Length") == "content-length";
  }

  lemma {:induction false} CollectLast(m: map<string, string>, fields: seq<Field>, f: Field)
    ensures Collect(m, fields + [f]) == Collect(m, fields)[Lower(f.name) := f.value]
    decreases |fields|
  {
    if fields == [] {
      assert fields + [f] == [f] && [f][1..] == [];
    } else {
      assert (fields + [f])[0] == fields[0] && (fields + [f])[1..] == fields[1..] + [f];
      CollectLast(m[Lower(fields[0].name) := fields[0].value], fields[1..], f);
    }
  }

  /** A printed request reads back whole, whatever follows it and however the stream is cut: the header
      block, every field under its lower-cased name, and a body of exactly the announced length. */
  lemma PrintedRequestReadsBack(line: string, fields: seq<Field>, body: string, rest: string, chunks: seq<string>)
    requires line != "" && '\r' !in line && FieldsOk(fields)
    requires |HeadText(line, fields)| + 4 <= HEADER_LIMIT
    requires ContentLength(Collect(map[], fields)) == |body| <= BODY_LIMIT
    requires Stream(chunks) == HeadText(line, fields) + CRLFCRLF + (body + rest)
    ensures ReadChunks(chunks) == Some(Request(HeadText(line, fields), Collect(map[], fields), body))
  {
    var head := HeadText(line, fields);
    HeadReadsBack(line, fields);
    EndOfPrinted(head, body + rest);
    ChunksDoNotMatter(chunks);
    CutPrinted(head, body, rest);
  }

  /** Of any printed header block within the limit, whatever stands behind it and however the stream is cut: the
      request is refused exactly when more than 512 MiB are announced or fewer bytes arrive than announced, and
      else its body is the announced number of bytes. */
  lemma PrintedRequestOutcome(line: string, fields: seq<Field>, n: nat, rest: string, chunks: seq<string>)
    requires line != "" && '\r' !in line && FieldsOk(fields)
    requires |HeadText(line, fields)| + 4 <= HEADER_LIMIT && n <= ULL_MAX
    requires LastValue(fields, "content-length") == (if n == 0 then None else Some(ToDecimal(n)))
    requires Stream(chunks) == HeadText(line, fields) + CRLFCRLF + rest
    ensures ReadChunks(chunks)
         == if n > 512 * 1024 * 1024 || |rest| < n then None
            else Some(Request(HeadText(line, fields), HeaderMap(HeadText(line, fields)), rest[..n]))
  {
    var head := HeadText(line, fields);
    HeadReadsBack(line, fields);
    CollectFinds(map[], fields, "content-length");
    if n != 0 {
      LengthIsFound(fields, n);
    }
    EndOfPrinted(head, rest);
    ChunksDoNotMatter(chunks);
    CutPrinted(head, rest, "");
    assert rest + "" == rest;
  }

  lemma EndOfPrinted(head: string, after: string)
    requires HeadersOk(head)
    ensures Find(head + CRLFCRLF + after, CRLFCRLF, 0) == Some(|head|)
  {
    var stream := head + CRLFCRLF + after;
    MatchesWhole(stream);
    MatchesConcat(stream, head + CRLFCRLF, after, 0);
    MatchesConcat(stream, head, CRLFCRLF, 0);
    FindHeaderEnd(stream, 0, head);
  }

  lemma CutPrinted(head: string, body: string, rest: string)
    ensures var s := head + CRLFCRLF + (body + rest);
            s[..|head|] == head && s[|head| + 4..] == body + rest && (body + rest)[..|body|] == body
  {
  }

  // ----- A request on which cuttings disagree

  /** A request line without fields or body. */
  function LineOnly(line: string): string {
    HeadText(line, []) + CRLFCRLF
  }

  lemma LineOnlyReads(line: string)
    requires line != "" && '\r' !in line
    ensures Find(LineOnly(line), CRLFCRLF, 0) == Some(|line|) && Read(LineOnly(line)) == Some(Request(line, map[], ""))
  {
    HeadReadsBack(line, []);
    assert HeadText(line, []) == line;
    EndOfPrinted(line, "");
    CutPrinted(line, "", "");
    assert line + CRLFCRLF + ("" + "") == LineOnly(line) && line + CRLFCRLF + "" == LineOnly(line);
  }

  /** A request line of any length between the two limits is read or refused as the bytes arrive. */
  lemma CuttingsDisagree(line: string)
    requires line != "" && '\r' !in line && HEADER_LIMIT < |line| + 4 < HEADER_LIMIT + BUFFER
    ensures !EveryCuttingAgrees(LineOnly(line)) && SomeCuttingAgrees(LineOnly(line))
  {
    LineOnlyReads(line);
    ReadAtLimit(LineOnly(line));
  }

  lemma LongLineExists() returns (line: string)
    ensures line != "" && '\r' !in line && HEADER_LIMIT < |line| + 4 < HEADER_LIMIT + BUFFER
  {
    line := seq(HEADER_LIMIT, i => 'a');
  }
}
