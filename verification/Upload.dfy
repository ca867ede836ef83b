/** The upload route of the web panel, from the bytes that arrive to the file that is written. */
module Upload {
  import opened Decimal
  import opened HttpRequest
  import opened Lines
  import opened Multipart
  import opened Text
  import opened UrlForm

  import PanelPaths

  // ----- The request line

  /** What `operator>>` takes, behind the white space it skips. */
  function WordEnd(s: string): (n: nat)
    ensures n <= |s|
  {
    if s == "" || IsSpace(s[0]) then 0 else WordEnd(s[1..]) + 1
  }

  function Word(s: string): string {
    var t := SkipSpace(s);
    t[..WordEnd(t)]
  }

  function AfterWord(s: string): string {
    var t := SkipSpace(s);
    t[WordEnd(t)..]
  }

  function RequestLine(head: string): string {
    match Find(head, CRLF, 0)
    case None => head
    case Some(end) => head[..end]
  }

  function PathOf(target: string): string {
    match Find(target, "?", 0)
    case None => target
    case Some(q) => target[..q]
  }

  function QueryOf(target: string): string {
    match Find(target, "?", 0)
    case None => ""
    case Some(q) => target[q + 1..]
  }

  // ----- What is written

  const ROUTE := "/api/upload"

  datatype Written = Written(place: string, data: string)

  function ContentType(headers: map<string, string>): Option<string> {
    if "content-type" in headers then Some(headers["content-type"]) else None
  }

  /** `HandleUpload`: the file and where it goes; `None` is the refusal. */
  function Uploaded(root: string, widen: string -> string, query: string, r: Request): Option<Written> {
    match PanelPaths.Resolve(root, FirstValue(Split(query, '&'), "path"))
    case None => None
    case Some(dir) =>
      var boundary := ParseBoundary(ContentType(r.headers));
      if boundary == "" then None
      else match Extract(widen, boundary, r.body, 0)
        case None => None
        case Some(part) => Some(Written(PanelPaths.ChildTarget(dir.full, part.fileName), part.data))
  }

  /** What a client's request has written, if it is an upload. */
  function Served(root: string, widen: string -> string, request: Option<Request>): Option<Written> {
    match request
    case None => None
    case Some(r) =>
      var line := RequestLine(r.head);
      var target := Word(AfterWord(line));
      if Word(line) == "POST" && PathOf(target) == ROUTE then Uploaded(root, widen, QueryOf(target), r) else None
  }

  // ----- What can be written at all

  /** Without a content type, or with one that announces no boundary, nothing is written. */
  lemma NoBoundaryNoFile(root: string, widen: string -> string, query: string, r: Request)
    requires "content-type" !in r.headers || !Occurs(r.headers["content-type"], "boundary=")
    ensures Uploaded(root, widen, query, r) == None
  {
    if "content-type" in r.headers {
      FindNone(r.headers["content-type"], "boundary=");
    }
  }

  lemma {:induction false} ExtractedIsSafe(widen: string -> string, boundary: string, body: string, pos: nat)
    ensures Extract(widen, boundary, body, pos).Some? ==>
              var name := Extract(widen, boundary, body, pos).value.fileName; name != "" && PanelPaths.IsSafe(name)
    decreases |body| - pos
  {
    var part := Multipart.NextPart(boundary, body, pos);
    if part.Some? {
      match NameOf(part.value.headers) {
        case NoName => ExtractedIsSafe(widen, boundary, body, part.value.content);
        case Unclosed =>
        case Name(text) => PanelPaths.SafeNameIsSafe(widen(text));
      }
    }
  }

  lemma UploadStaysUnder(root: string, widen: string -> string, query: string, r: Request)
    ensures Uploaded(root, widen, query, r).Some? ==>
              PanelPaths.IsBelow(root, Uploaded(root, widen, query, r).value.place)
  {
    if Uploaded(root, widen, query, r).Some? {
      var rel := FirstValue(Split(query, '&'), "path");
      var boundary := ParseBoundary(ContentType(r.headers));
      ExtractedIsSafe(widen, boundary, r.body, 0);
      var name := Extract(widen, boundary, r.body, 0).value.fileName;
      PanelPaths.SafeNameFixesSafe(name);
      PanelPaths.ChildIsResolved(root, rel, name);
      PanelPaths.ResolvedIsBelow(root, PanelPaths.JoinPath(PanelPaths.Resolve(root, rel).value.norm, name));
    }
  }

  /** Whatever bytes a client sends, nothing is written but below the root: its text, and behind a backslash
      each plain names. */
  lemma ServedStaysUnder(root: string, widen: string -> string, request: Option<Request>)
    ensures Served(root, widen, request).Some? ==> PanelPaths.IsBelow(root, Served(root, widen, request).value.place)
  {
    if request.Some? {
      UploadStaysUnder(root, widen, QueryOf(Word(AfterWord(RequestLine(request.value.head)))), request.value);
    }
  }

  method HandleUpload(root: string, widen: string -> string, query: string, r: Request)
    returns (ok: bool, place: string, data: string)
    ensures (if ok then Some(Written(place, data)) else None) == Uploaded(root, widen, query, r)
  {
    ok, place, data := false, "", "";
    var path := QueryValue(query, "path");
    var resolved, full, rel := PanelPaths.ResolveUnderRoot(root, path);
    if !resolved {
      return;
    }
    var boundary := ParseBoundary(ContentType(r.headers));
    var found, fileName, start, len := ExtractFilePart(widen, boundary, r.body);
    if !found {
      return;
    }
    ok, place, data := true, full + "\\" + fileName, r.body[start..start + len];
  }

  method RouteRequest(root: string, widen: string -> string, r: Request)
    returns (ok: bool, place: string, data: string)
    ensures (if ok then Some(Written(place, data)) else None) == Served(root, widen, Some(r))
    ensures ok ==> PanelPaths.IsBelow(root, place)
  {
    ServedStaysUnder(root, widen, Some(r));
    ok, place, data := false, "", "";
    var firstEnd := Find(r.head, CRLF, 0);
    var line := if firstEnd.None? then r.head else r.head[..firstEnd.value];
    var target := Word(AfterWord(line));
    var q := Find(target, "?", 0);
    var path := if q.None? then target else target[..q.value];
    var query := if q.None? then "" else target[q.value + 1..];
    if Word(line) == "POST" && path == ROUTE {
      ok, place, data := HandleUpload(root, widen, query, r);
    }
  }

  /** `HandleClient`, as far as it writes uploads. */
  method HandleClient(s: Socket, root: string, widen: string -> string) returns (ok: bool, place: string, data: string)
    modifies s
    ensures (if ok then Some(Written(place, data)) else None) == Served(root, widen, ReadChunks(old(s.chunks)))
    ensures ok ==> PanelPaths.IsBelow(root, place)
  {
    var read, head, body, headers := ReadRequest(s);
    ok, place, data := false, "", "";
    if read {
      ok, place, data := RouteRequest(root, widen, Request(head, headers, body));
    }
  }

  // ----- What the page sends

  /** A request line that starts with another word, or names another path, has nothing written. */
  lemma OtherRequestsWriteNothing(root: string, widen: string -> string, word: string, path: string, query: string,
                                  r: Request)
    requires word != "" && NoSpace(word) && NoSpace(path) && NoSpace(query) && '?' !in path
    requires RequestLine(r.head) == word + (" " + ((path + "?" + query) + PROTOCOL))
    requires word != "POST" || path != "/api/upload"
    ensures Served(root, widen, Some(r)) == None
  {
    var target := path + "?" + query;
    FirstWord(word, " " + (target + PROTOCOL));
    NextWord(target, PROTOCOL);
    FindChar(target, 0, path, '?');
    assert target[..|path|] == path;
  }

  predicate NoSpace(s: string) {
    forall i | 0 <= i < |s| :: !IsSpace(s[i])
  }

  lemma {:induction false} WordEnds(w: string, rest: string)
    requires NoSpace(w) && (rest == "" || IsSpace(rest[0]))
    ensures WordEnd(w + rest) == |w| && (w + rest)[..|w|] == w && (w + rest)[|w|..] == rest
  {
    if w == "" {
      assert w + rest == rest;
    } else {
      assert (w + rest)[1..] == w[1..] + rest;
      WordEnds(w[1..], rest);
    }
  }

  lemma FirstWord(w: string, rest: string)
    requires w != "" && NoSpace(w) && (rest == "" || IsSpace(rest[0]))
    ensures Word(w + rest) == w && AfterWord(w + rest) == rest
  {
    WordEnds(w, rest);
    assert (w + rest)[0] == w[0];
  }

  lemma NextWord(w: string, rest: string)
    requires w != "" && NoSpace(w) && (rest == "" || IsSpace(rest[0]))
    ensures Word(" " + (w + rest)) == w && AfterWord(" " + (w + rest)) == rest
  {
    var s := " " + (w + rest);
    assert s[1..] == w + rest;
    FirstWord(w, rest);
  }

  const PROTOCOL := " HTTP/1.1"

  /** The line the page's browser writes for an upload into the directory of the query. */
  function UploadLine(query: string): string {
    "POST" + (" " + ((ROUTE + "?" + query) + PROTOCOL))
  }

  lemma UploadLineReads(query: string)
    requires NoSpace(query)
    ensures var line := UploadLine(query);
            var target := Word(AfterWord(line));
            Word(line) == "POST" && PathOf(target) == ROUTE && QueryOf(target) == query
            && line != "" && '\r' !in line
  {
    var target := ROUTE + "?" + query;
    FirstWord("POST", " " + (target + PROTOCOL));
    NextWord(target, PROTOCOL);
    FindChar(target, 0, ROUTE, '?');
    assert target[..|ROUTE|] == ROUTE && target[|ROUTE| + 1..] == query;
  }

  /** `path=` and the encoded directory. */
  function PathQuery(e: Encoding, dir: string): string {
    "path" + "=" + Encode(e, dir)
  }

  /** Bytes that are kept are not white space. */
  ghost predicate KeepsNoSpace(e: Encoding) {
    forall c {:trigger e.keep(c)} :: e.keep(c) ==> !IsSpace(c)
  }

  lemma {:induction false} EncodedHasNoSpace(e: Encoding, s: string)
    requires Sound(e) && KeepsNoSpace(e) && IsBytes(s)
    ensures NoSpace(Encode(e, s))
  {
    if s != "" {
      EncodedHasNoSpace(e, s[1..]);
      var c := s[0];
      assert !e.keep(c) ==> HexValue(e.digit(c as int / 16)).Some? && HexValue(e.digit(c as int % 16)).Some?;
    }
  }

  lemma PathQueryReads(e: Encoding, dir: string)
    requires Sound(e) && KeepsNoSpace(e) && IsBytes(dir)
    ensures NoSpace(PathQuery(e, dir)) && FirstValue(Split(PathQuery(e, dir), '&'), "path") == dir
  {
    EncodedHasNoSpace(e, dir);
    EncodedIsPlain(e, dir);
    DecodeOfEncode(e, dir);
    OnePairReads("path", Encode(e, dir));
  }

  lemma OnePairReads(key: string, value: string)
    requires '&' !in key && '&' !in value && '=' !in key && '%' !in key && '+' !in key
    ensures FirstValue(Split(key + "=" + value, '&'), key) == Decode(value)
  {
    CutAtEquals(key, value);
    PlainDecode(key);
    SplitOnePiece(key + "=" + value, '&');
  }

  lemma {:induction false} PlainDecode(s: string)
    requires '%' !in s && '+' !in s
    ensures Decode(s) == s
  {
    if s != "" {
      PlainDecode(s[1..]);
      assert s == [s[0]] + s[1..];
    }
  }

  /** The body that the browser builds: plain fields, the file, and whatever follows the delimiter. */
  datatype Form = Form(boundary: string, parts: seq<Part>, file: FileHeader, data: string, tail: string) {
    function Delimiter(): string { "--" + boundary }

    function Body(): string {
      PartsText(Delimiter(), parts) + FileText(Delimiter(), file, data) + tail
    }

    predicate Ok(widen: string -> string) {
      && '"' !in boundary && '\r' !in boundary
      && PlainParts(Delimiter(), parts) && file.Ok() && PanelPaths.SafeName(widen(file.name)) != ""
    }
  }

  /** The content type that announces the form's boundary, quoted or not. */
  function Announced(before: string, boundary: string, quoted: bool): string {
    before + BOUNDARY + (if quoted then "\"" + boundary + "\"" else boundary)
  }

  lemma BodyReads(widen: string -> string, f: Form)
    requires f.Ok(widen)
    ensures Extract(widen, f.Delimiter(), f.Body(), 0)
              == Some(FilePart(PanelPaths.SafeName(widen(f.file.name)), f.data))
            <==> !Occurs(f.data, CRLF + f.Delimiter())
  {
    ExtractUndoesBuild(widen, f.Delimiter(), f.parts, f.file, f.data, f.tail);
  }

  /** A printed upload request is routed to the upload, with the query it names. */
  lemma PrintedIsRouted(root: string, widen: string -> string, query: string, fields: seq<Field>, r: Request)
    requires NoSpace(query) && FieldsOk(fields) && r.head == HeadText(UploadLine(query), fields)
    ensures Served(root, widen, Some(r)) == Uploaded(root, widen, query, r)
  {
    UploadLineReads(query);
    RequestLineFound(UploadLine(query), fields);
    assert RequestLine(r.head) == UploadLine(query);
  }

  lemma AnnouncedIsParsed(before: string, f: Form, quoted: bool)
    requires !Occurs(before, BOUNDARY) && '"' !in f.boundary
    ensures ParseBoundary(Some(Announced(before, f.boundary, quoted))) == f.Delimiter()
  {
    BoundaryReadsBack(before, f.boundary);
  }

  lemma FormIsUploaded(root: string, widen: string -> string, query: string, dir: string, r: Request, f: Form)
    requires FirstValue(Split(query, '&'), "path") == dir && PanelPaths.Resolve(root, dir).Some?
    requires f.Ok(widen) && r.body == f.Body() && ParseBoundary(ContentType(r.headers)) == f.Delimiter()
    ensures var to, name := PanelPaths.Resolve(root, dir).value, PanelPaths.SafeName(widen(f.file.name));
            Uploaded(root, widen, query, r) == Some(Written(PanelPaths.ChildTarget(to.full, name), f.data))
            <==> !Occurs(f.data, CRLF + f.Delimiter())
  {
    BodyReads(widen, f);
    var to, name := PanelPaths.Resolve(root, dir).value, PanelPaths.SafeName(widen(f.file.name));
    var part := Extract(widen, f.Delimiter(), f.Body(), 0);
    if part.Some? {
      SamePlace(to.full, part.value.fileName, name);
    }
  }

  lemma SamePlace(full: string, a: string, b: string)
    ensures PanelPaths.ChildTarget(full, a) == PanelPaths.ChildTarget(full, b) ==> a == b
  {
    var n := |full| + 1;
    assert PanelPaths.ChildTarget(full, a)[n..] == a && PanelPaths.ChildTarget(full, b)[n..] == b;
  }

  lemma AnnouncedFields(fields: seq<Field>, contentType: string, n: nat)
    requires LastValue(fields, "content-type") == Some(contentType)
    requires LastValue(fields, "content-length") == Some(ToDecimal(n)) && n <= BODY_LIMIT
    ensures ContentType(Collect(map[], fields)) == Some(contentType) && ContentLength(Collect(map[], fields)) == n
  {
    LengthIsFound(fields, n);
    CollectFinds(map[], fields, "content-type");
  }

  /** An upload, end to end: whatever follows the request and however its bytes arrive, the file's bytes are
      written, under the safe form of its name in the directory that the query names, if and only if they do not
      hold the delimiter. That place is the one the page's own joined path resolves to. */
  lemma UploadWritesTheFile(root: string, widen: string -> string, e: Encoding, dir: string, fields: seq<Field>,
                            before: string, quoted: bool, f: Form, rest: string, chunks: seq<string>)
    requires Sound(e) && KeepsNoSpace(e) && IsBytes(dir) && PanelPaths.Resolve(root, dir).Some?
    requires f.Ok(widen) && !Occurs(before, BOUNDARY) && FieldsOk(fields)
    requires LastValue(fields, "content-type") == Some(Announced(before, f.boundary, quoted))
    requires LastValue(fields, "content-length") == Some(ToDecimal(|f.Body()|)) && |f.Body()| <= BODY_LIMIT
    requires |HeadText(UploadLine(PathQuery(e, dir)), fields)| + 4 <= HEADER_LIMIT
    requires Stream(chunks) == HeadText(UploadLine(PathQuery(e, dir)), fields) + CRLFCRLF + (f.Body() + rest)
    ensures var to, name := PanelPaths.Resolve(root, dir).value, PanelPaths.SafeName(widen(f.file.name));
            && (Served(root, widen, ReadChunks(chunks)) == Some(Written(PanelPaths.ChildTarget(to.full, name), f.data))
                <==> !Occurs(f.data, CRLF + f.Delimiter()))
            && PanelPaths.Resolve(root, PanelPaths.JoinPath(to.norm, name))
               == Some(PanelPaths.Resolved(PanelPaths.ChildTarget(to.full, name), PanelPaths.JoinPath(to.norm, name)))
  {
    var query, headers := PathQuery(e, dir), Collect(map[], fields);
    var r := Request(HeadText(UploadLine(query), fields), headers, f.Body());
    PathQueryReads(e, dir);
    UploadLineReads(query);
    AnnouncedFields(fields, Announced(before, f.boundary, quoted), |f.Body()|);
    PrintedRequestReadsBack(UploadLine(query), fields, f.Body(), rest, chunks);
    PrintedIsRouted(root, widen, query, fields, r);
    AnnouncedIsParsed(before, f, quoted);
    FormIsUploaded(root, widen, query, dir, r, f);
    PanelPaths.ChildIsResolved(root, dir, widen(f.file.name));
  }
}
