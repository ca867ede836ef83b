/** Extraction of the uploaded file from a `multipart/form-data` body (section 5.1.1 of RFC 2046, section 4
    of RFC 7578), against the bodies a browser builds. */
module Multipart {
  import opened Lines
  import opened PanelPaths
  import opened Text

  const FILENAME := "filename=\""
  const BOUNDARY := "boundary="

  // ----- The boundary

  /** From the value of the content-type header, `None` when there is no such header. */
  function ParseBoundary(contentType: Option<string>): string {
    match contentType
    case None => ""
    case Some(ct) =>
      match Find(ct, BOUNDARY, 0)
      case None => ""
      case Some(at) =>
        var b := ct[at + 9..];
        "--" + if |b| > 1 && b[0] == '"' && b[|b| - 1] == '"' then b[1..|b| - 1]
               else if b == "\"" then "" else b
  }

  /** The boundary is read back, quoted or not, when it is the last parameter. */
  lemma BoundaryReadsBack(before: string, b: string)
    requires !Occurs(before, BOUNDARY) && '"' !in b
    ensures ParseBoundary(Some(before + BOUNDARY + b)) == "--" + b
    ensures ParseBoundary(Some(before + BOUNDARY + ("\"" + b + "\""))) == "--" + b
  {
    BoundaryFound(before, b);
    BoundaryFound(before, "\"" + b + "\"");
    var q := "\"" + b + "\"";
    assert q[1..|q| - 1] == b;
  }

  /** With anything behind it but a quote the boundary is read back, quoted or not, exactly when nothing is
      there: a parameter behind the boundary becomes part of it. */
  lemma BoundaryTakesTheRest(before: string, b: string, rest: string)
    requires !Occurs(before, BOUNDARY) && '"' !in b && (rest == "" || rest[0] != '"')
    ensures ParseBoundary(Some(before + BOUNDARY + (b + rest))) == "--" + b <==> rest == ""
    ensures ParseBoundary(Some(before + BOUNDARY + ("\"" + b + "\"" + rest))) == "--" + b <==> rest == ""
  {
    var plain, quoted := b + rest, "\"" + b + "\"" + rest;
    BoundaryFound(before, plain);
    BoundaryFound(before, quoted);
    if rest == "" {
      assert plain == b && quoted[1..|quoted| - 1] == b;
    } else {
      assert plain[0] != '"';
      assert |"--" + b| == 2 + |b| && |quoted[1..|quoted| - 1]| > |b|;
    }
  }

  lemma BoundaryFound(before: string, b: string)
    requires !Occurs(before, BOUNDARY)
    ensures var ct := before + BOUNDARY + b;
            Find(ct, BOUNDARY, 0) == Some(|before|) && ct[|before| + 9..] == b
  {
    BehindClean(before, BOUNDARY, b);
  }

  /** The first occurrence is the one written behind text without any. */
  lemma BehindClean(before: string, pat: string, after: string)
    requires HeadUnique(pat) && !Occurs(before, pat)
    ensures var s := before + pat + after;
            Find(s, pat, 0) == Some(|before|) && s[|before| + |pat|..] == after
  {
    var s := before + pat + after;
    MatchesWhole(s);
    MatchesConcat(s, before + pat, after, 0);
    MatchesConcat(s, before, pat, 0);
    FindAfterClean(s, 0, before, pat);
  }

  // ----- Extraction

  datatype FilePart = FilePart(fileName: string, data: string)

  /** A part of the body: its header block and where its content starts. */
  datatype PartHead = PartHead(headers: string, content: nat)

  /** The next part at or after `pos`. */
  function NextPart(boundary: string, body: string, pos: nat): (r: Option<PartHead>)
    ensures r.Some? ==> pos < r.value.content <= |body|
  {
    match Find(body, boundary, pos)
    case None => None
    case Some(partStart) =>
      match Find(body, CRLF, partStart)
      case None => None
      case Some(headerStart) =>
        match Find(body, CRLFCRLF, headerStart + 2)
        case None => None
        case Some(headerEnd) => Some(PartHead(body[headerStart + 2..headerEnd], headerEnd + 4))
  }

  /** The file name in a header block: no `filename`, an unclosed quote, or the quoted text. */
  datatype NameField = NoName | Unclosed | Name(text: string)

  function NameOf(headers: string): NameField {
    match Find(headers, FILENAME, 0)
    case None => NoName
    case Some(fn) =>
      match Find(headers, "\"", fn + 10)
      case None => Unclosed
      case Some(end) => Name(headers[fn + 10..end])
  }

  /** The file whose content starts at `at`; the data runs to the next delimiter. */
  function FileAt(name: string, boundary: string, body: string, at: nat): Option<FilePart>
    requires at <= |body|
  {
    match Find(body, CRLF + boundary, at)
    case None => None
    case Some(end) => if name == "" then None else Some(FilePart(name, body[at..end]))
  }

  /** The scan from position `pos`; `widen` is the conversion of the file name's bytes to text. */
  function Extract(widen: string -> string, boundary: string, body: string, pos: nat): Option<FilePart>
    decreases |body| - pos
  {
    match NextPart(boundary, body, pos)
    case None => None
    case Some(part) =>
      match NameOf(part.headers)
      case NoName => Extract(widen, boundary, body, part.content)
      case Unclosed => None
      case Name(text) => FileAt(SafeName(widen(text)), boundary, body, part.content)
  }

  lemma ScanPasses(widen: string -> string, boundary: string, body: string, pos: nat, h: string, at: nat)
    requires NextPart(boundary, body, pos) == Some(PartHead(h, at)) && NameOf(h).NoName?
    ensures Extract(widen, boundary, body, pos) == Extract(widen, boundary, body, at)
  {
  }

  lemma ScanStops(widen: string -> string, boundary: string, body: string, pos: nat, h: string, at: nat, name: string)
    requires NextPart(boundary, body, pos) == Some(PartHead(h, at)) && NameOf(h) == Name(name)
    ensures at <= |body| && Extract(widen, boundary, body, pos) == FileAt(SafeName(widen(name)), boundary, body, at)
  {
  }

  method FindPart(boundary: string, body: string, pos: nat) returns (r: Option<PartHead>)
    ensures r == NextPart(boundary, body, pos)
  {
    var partStart := Find(body, boundary, pos);
    if partStart.None? {
      return None;
    }
    var headerStart := Find(body, CRLF, partStart.value);
    if headerStart.None? {
      return None;
    }
    var headerEnd := Find(body, CRLFCRLF, headerStart.value + 2);
    if headerEnd.None? {
      return None;
    }
    r := Some(PartHead(body[headerStart.value + 2..headerEnd.value], headerEnd.value + 4));
  }

  method FindName(ph: string) returns (r: NameField)
    ensures r == NameOf(ph)
  {
    var fn := Find(ph, FILENAME, 0);
    if fn.None? {
      return NoName;
    }
    var fnEnd := Find(ph, "\"", fn.value + 10);
    if fnEnd.None? {
      return Unclosed;
    }
    r := Name(ph[fn.value + 10..fnEnd.value]);
  }

  method ExtractFilePart(widen: string -> string, boundary: string, body: string)
    returns (ok: bool, fileName: string, dataStart: nat, dataLen: nat)
    ensures ok ==> dataStart + dataLen <= |body|
    ensures (if ok then Some(FilePart(fileName, body[dataStart..dataStart + dataLen])) else None)
            == if boundary == "" then None else Extract(widen, boundary, body, 0)
  {
    ok, fileName, dataStart, dataLen := false, "", 0, 0;
    if boundary == "" {
      return;
    }
    var pos: nat := 0;
    while true
      invariant !ok && Extract(widen, boundary, body, pos) == Extract(widen, boundary, body, 0)
      decreases |body| - pos
    {
      var part := FindPart(boundary, body, pos);
      if part.None? {
        return;
      }
      var name := FindName(part.value.headers);
      if name.Unclosed? {
        return;
      }
      if name.Name? {
        ScanStops(widen, boundary, body, pos, part.value.headers, part.value.content, name.text);
        ok, fileName, dataStart, dataLen := CutData(widen(name.text), boundary, body, part.value.content);
        return;
      }
      ScanPasses(widen, boundary, body, pos, part.value.headers, part.value.content);
      pos := part.value.content;
    }
  }

  /** The safe name, and the content from its start to the delimiter behind it. */
  method CutData(wide: string, boundary: string, body: string, at: nat)
    returns (ok: bool, fileName: string, dataStart: nat, dataLen: nat)
    requires at <= |body|
    ensures ok ==> dataStart + dataLen <= |body|
    ensures FileAt(SafeName(wide), boundary, body, at)
            == if ok then Some(FilePart(fileName, body[dataStart..dataStart + dataLen])) else None
  {
    fileName := MakeSafeName(wide);
    dataStart, dataLen := at, 0;
    var dataEnd := Find(body, CRLF + boundary, dataStart);
    if dataEnd.None? {
      return false, fileName, dataStart, dataLen;
    }
    dataLen := dataEnd.value - dataStart;
    ok := fileName != "";
  }

  // ----- What browsers send

  /** One form field: its header block and its content. */
  datatype Part = Part(headers: string, content: string)

  function PartText(boundary: string, p: Part): string {
    boundary + CRLF + p.headers + CRLFCRLF + p.content + CRLF
  }

  function PartsText(boundary: string, parts: seq<Part>): string {
    if parts == [] then "" else PartText(boundary, parts[0]) + PartsText(boundary, parts[1..])
  }

  /** A boundary line: dashes and token characters, no carriage return. */
  predicate BoundaryOk(boundary: string) {
    boundary != "" && boundary[0] != '\n' && '\r' !in boundary
  }

  predicate PlainPart(boundary: string, p: Part) {
    p.headers != "" && HeadersOk(p.headers) && !Occurs(p.headers, FILENAME) && !Occurs(p.content, boundary)
  }

  predicate PlainParts(boundary: string, parts: seq<Part>) {
    forall i | 0 <= i < |parts| :: PlainPart(boundary, parts[i])
  }

  /** The header block of a file field. */
  datatype FileHeader = FileHeader(before: string, name: string, after: string) {
    function Headers(): string {
      before + FILENAME + name + "\"" + after
    }

    predicate Ok() {
      HeadersOk(Headers()) && !Occurs(before, FILENAME) && '"' !in name
    }
  }

  // ----- Finding the pieces

  lemma NoCrNoMatch(s: string, pat: string, i: nat, j: nat)
    requires Matches(s, pat, j) && j <= i < j + |pat| && '\r' !in pat
    ensures s[i] != '\r'
  {
    MatchChar(s, pat, j, i - j);
  }

  lemma NotAtNewline(s: string, boundary: string, j: nat)
    requires BoundaryOk(boundary) && j < |s| && s[j] == '\n'
    ensures !Matches(s, boundary, j)
  {
    assert boundary[0] != '\n';
  }

  /** After a field's content, the next boundary is the one behind the line break. */
  lemma FindNextBoundary(s: string, from: nat, content: string, boundary: string, end: nat)
    requires BoundaryOk(boundary) && !Occurs(content, boundary) && end == from + |content| + 2
    requires Matches(s, content, from) && Matches(s, CRLF, from + |content|) && Matches(s, boundary, end)
    ensures Find(s, boundary, from) == Some(end)
  {
    var at := from + |content|;
    MatchChar(s, CRLF, at, 0);
    MatchChar(s, CRLF, at, 1);
    NotAtNewline(s, boundary, at + 1);
    forall j: nat | from <= j < at + 2 ensures !Matches(s, boundary, j) {
      if Matches(s, boundary, j) {
        if j + |boundary| <= at {
          MatchInPart(s, content, from, boundary, j);
        } else if j <= at {
          NoCrNoMatch(s, boundary, at, j);
        }
      }
    }
    FoundAt(s, boundary, from, end);
  }

  /** A part stands at `i`: boundary line, header block, empty line. */
  ghost predicate HeadStands(body: string, i: nat, boundary: string, h: string) {
    && Matches(body, boundary, i) && Matches(body, CRLF, i + |boundary|)
    && Matches(body, h, i + |boundary| + 2) && Matches(body, CRLFCRLF, i + |boundary| + 2 + |h|)
  }

  function ContentAt(i: nat, boundary: string, h: string): nat {
    i + |boundary| + 2 + |h| + 4
  }

  lemma PartFound(body: string, pos: nat, i: nat, boundary: string, h: string)
    requires BoundaryOk(boundary) && HeadersOk(h) && HeadStands(body, i, boundary, h)
    requires Find(body, boundary, pos) == Some(i)
    ensures NextPart(boundary, body, pos) == Some(PartHead(h, ContentAt(i, boundary, h)))
  {
    NoCrNoCrlf(boundary);
    FindAfterClean(body, i, boundary, CRLF);
    FindHeaderEnd(body, i + |boundary| + 2, h);
    MatchIsSlice(body, h, i + |boundary| + 2);
  }

  lemma NamePieces(f: FileHeader)
    ensures var ph, at := f.Headers(), |f.before| + 10;
            Matches(ph, f.before, 0) && Matches(ph, FILENAME, |f.before|) && Matches(ph, f.name, at)
            && Matches(ph, "\"", at + |f.name|)
  {
    var ph := f.Headers();
    MatchesWhole(ph);
    MatchesConcat(ph, f.before + FILENAME + f.name + "\"", f.after, 0);
    MatchesConcat(ph, f.before + FILENAME + f.name, "\"", 0);
    MatchesConcat(ph, f.before + FILENAME, f.name, 0);
    MatchesConcat(ph, f.before, FILENAME, 0);
  }

  /** The two searches for the file name, given where its pieces stand. */
  lemma NameBetweenQuotes(ph: string, before: string, name: string, at: nat, end: nat)
    requires !Occurs(before, FILENAME) && '"' !in name && at == |before| + 10 && end == at + |name|
    requires Matches(ph, before, 0) && Matches(ph, FILENAME, |before|)
    requires Matches(ph, name, at) && Matches(ph, "\"", end)
    ensures Find(ph, FILENAME, 0) == Some(|before|) && Find(ph, "\"", at) == Some(end) && ph[at..end] == name
  {
    FindAfterClean(ph, 0, before, FILENAME);
    MatchChar(ph, "\"", end, 0);
    FindChar(ph, at, name, '"');
  }

  /** The file name between its quotes. */
  lemma NameFound(f: FileHeader)
    requires f.Ok()
    ensures NameOf(f.Headers()) == Name(f.name)
  {
    NamePieces(f);
    NameBetweenQuotes(f.Headers(), f.before, f.name, |f.before| + 10, |f.before| + 10 + |f.name|);
  }

  /** The data of the file is cut out whole exactly when it does not hold the delimiter. */
  lemma DataFound(name: string, body: string, at: nat, data: string, boundary: string)
    requires BoundaryOk(boundary) && name != ""
    requires Matches(body, data, at) && Matches(body, CRLF + boundary, at + |data|)
    ensures FileAt(name, boundary, body, at) == Some(FilePart(name, data)) <==> !Occurs(data, CRLF + boundary)
  {
    var delim := CRLF + boundary;
    if !Occurs(data, delim) {
      FindAfterClean(body, at, data, delim);
      MatchIsSlice(body, data, at);
    } else {
      var i: nat :| i <= |data| && Matches(data, delim, i);
      forall k | 0 <= k < |delim| ensures body[at + i + k] == delim[k] {
        MatchChar(data, delim, i, k);
        MatchChar(body, data, at, i + k);
      }
      assert Matches(body, delim, at + i);
      var end := Find(body, delim, at);
      assert end.Some? && end.value <= at + i;
      assert |body[at..end.value]| < |data|;
    }
  }

  // ----- Extraction undoes building

  /** The part that holds the file, up to and including the delimiter behind it. */
  function FileText(boundary: string, f: FileHeader, data: string): string {
    boundary + CRLF + f.Headers() + CRLFCRLF + data + (CRLF + boundary)
  }

  lemma HeadOfText(body: string, i: nat, boundary: string, h: string, rest: string)
    requires Matches(body, boundary + CRLF + h + CRLFCRLF + rest, i)
    ensures HeadStands(body, i, boundary, h) && Matches(body, rest, ContentAt(i, boundary, h))
  {
    MatchesConcat(body, boundary + CRLF + h + CRLFCRLF, rest, i);
    MatchesConcat(body, boundary + CRLF + h, CRLFCRLF, i);
    MatchesConcat(body, boundary + CRLF, h, i);
    MatchesConcat(body, boundary, CRLF, i);
  }

  /** The scan arrives at the part that holds the file. */
  lemma ExtractAtFile(widen: string -> string, boundary: string, body: string, pos: nat, i: nat, f: FileHeader,
                      data: string)
    requires BoundaryOk(boundary) && f.Ok() && SafeName(widen(f.name)) != ""
    requires Matches(body, FileText(boundary, f, data), i) && Find(body, boundary, pos) == Some(i)
    ensures Extract(widen, boundary, body, pos) == Some(FilePart(SafeName(widen(f.name)), data))
            <==> !Occurs(data, CRLF + boundary)
  {
    var head := boundary + CRLF + f.Headers() + CRLFCRLF;
    assert FileText(boundary, f, data) == head + (data + (CRLF + boundary));
    HeadOfText(body, i, boundary, f.Headers(), data + (CRLF + boundary));
    PartFound(body, pos, i, boundary, f.Headers());
    NameFound(f);
    var at := ContentAt(i, boundary, f.Headers());
    ScanStops(widen, boundary, body, pos, f.Headers(), at, f.name);
    MatchesConcat(body, data, CRLF + boundary, at);
    DataFound(SafeName(widen(f.name)), body, at, data, boundary);
  }

  /** The scan passes a plain field. */
  lemma PlainIsPassed(widen: string -> string, boundary: string, body: string, pos: nat, i: nat, p: Part)
    requires BoundaryOk(boundary) && PlainPart(boundary, p)
    requires HeadStands(body, i, boundary, p.headers) && Find(body, boundary, pos) == Some(i)
    ensures Extract(widen, boundary, body, pos) == Extract(widen, boundary, body, ContentAt(i, boundary, p.headers))
  {
    PartFound(body, pos, i, boundary, p.headers);
    FindNone(p.headers, FILENAME);
    ScanPasses(widen, boundary, body, pos, p.headers, ContentAt(i, boundary, p.headers));
  }

  /** ... and stands in front of what follows it, at `end`. */
  lemma {:induction false} ExtractAtPlain(widen: string -> string, boundary: string, body: string, pos: nat, i: nat,
                                          p: Part, end: nat)
    requires BoundaryOk(boundary) && PlainPart(boundary, p) && Find(body, boundary, pos) == Some(i)
    requires PlainStands(body, i, boundary, p, end) && Matches(body, boundary, end)
    ensures var next := ContentAt(i, boundary, p.headers);
            Extract(widen, boundary, body, pos) == Extract(widen, boundary, body, next)
            && Find(body, boundary, next) == Some(end)
  {
    NextAfterPlain(boundary, body, i, p, end);
    PlainIsPassed(widen, boundary, body, pos, i, p);
  }

  lemma NextAfterPlain(boundary: string, body: string, i: nat, p: Part, end: nat)
    requires BoundaryOk(boundary) && PlainPart(boundary, p)
    requires PlainStands(body, i, boundary, p, end) && Matches(body, boundary, end)
    ensures Find(body, boundary, ContentAt(i, boundary, p.headers)) == Some(end)
  {
    FindNextBoundary(body, ContentAt(i, boundary, p.headers), p.content, boundary, end);
  }

  /** A plain field stands at `i` and ends, line break included, at `end`. */
  ghost predicate PlainStands(body: string, i: nat, boundary: string, p: Part, end: nat) {
    var at := ContentAt(i, boundary, p.headers);
    HeadStands(body, i, boundary, p.headers) && Matches(body, p.content, at) && Matches(body, CRLF, at + |p.content|)
    && end == at + |p.content| + 2
  }

  lemma PlainPieces(boundary: string, body: string, i: nat, p: Part)
    requires Matches(body, PartText(boundary, p), i)
    ensures PlainStands(body, i, boundary, p, i + |PartText(boundary, p)|)
  {
    assert PartText(boundary, p) == boundary + CRLF + p.headers + CRLFCRLF + (p.content + CRLF);
    HeadOfText(body, i, boundary, p.headers, p.content + CRLF);
    MatchesConcat(body, p.content, CRLF, ContentAt(i, boundary, p.headers));
  }

  lemma {:induction false} ExtractThrough(widen: string -> string, boundary: string, body: string, pos: nat, i: nat,
                                          parts: seq<Part>, f: FileHeader, data: string, end: nat)
    requires BoundaryOk(boundary) && PlainParts(boundary, parts) && f.Ok() && SafeName(widen(f.name)) != ""
    requires Matches(body, PartsText(boundary, parts), i) && end == i + |PartsText(boundary, parts)|
    requires Matches(body, FileText(boundary, f, data), end)
    requires Find(body, boundary, pos) == Some(i)
    ensures Extract(widen, boundary, body, pos) == Some(FilePart(SafeName(widen(f.name)), data))
            <==> !Occurs(data, CRLF + boundary)
    decreases |parts|
  {
    if parts == [] {
      ExtractAtFile(widen, boundary, body, pos, end, f, data);
    } else {
      var mid := i + |PartText(boundary, parts[0])|;
      MatchesConcat(body, PartText(boundary, parts[0]), PartsText(boundary, parts[1..]), i);
      BoundaryFollows(body, mid, boundary, parts[1..], f, data, end);
      PlainPieces(boundary, body, i, parts[0]);
      ExtractAtPlain(widen, boundary, body, pos, i, parts[0], mid);
      ExtractThrough(widen, boundary, body, ContentAt(i, boundary, parts[0].headers), mid, parts[1..], f, data, end);
    }
  }

  /** Whatever part comes next, it starts with the boundary. */
  lemma BoundaryFollows(body: string, i: nat, boundary: string, parts: seq<Part>, f: FileHeader, data: string, end: nat)
    requires Matches(body, PartsText(boundary, parts), i) && end == i + |PartsText(boundary, parts)|
    requires Matches(body, FileText(boundary, f, data), end)
    ensures Matches(body, boundary, i)
  {
    if parts == [] {
      assert FileText(boundary, f, data) == boundary + (CRLF + f.Headers() + CRLFCRLF + data + (CRLF + boundary));
      MatchesConcat(body, boundary, CRLF + f.Headers() + CRLFCRLF + data + (CRLF + boundary), i);
    } else {
      var p := parts[0];
      MatchesConcat(body, PartText(boundary, p), PartsText(boundary, parts[1..]), i);
      assert PartText(boundary, p) == boundary + (CRLF + p.headers + CRLFCRLF + p.content + CRLF);
      MatchesConcat(body, boundary, CRLF + p.headers + CRLFCRLF + p.content + CRLF, i);
    }
  }

  /** Extraction undoes multipart building: behind any plain fields, the file comes back byte for byte
      under its safe name - exactly when its bytes do not hold the delimiter. */
  lemma ExtractUndoesBuild(widen: string -> string, boundary: string, parts: seq<Part>, f: FileHeader, data: string,
                           tail: string)
    requires BoundaryOk(boundary) && PlainParts(boundary, parts) && f.Ok() && SafeName(widen(f.name)) != ""
    ensures var body := PartsText(boundary, parts) + FileText(boundary, f, data) + tail;
            Extract(widen, boundary, body, 0) == Some(FilePart(SafeName(widen(f.name)), data))
            <==> !Occurs(data, CRLF + boundary)
  {
    var ps, file := PartsText(boundary, parts), FileText(boundary, f, data);
    var body := ps + file + tail;
    MatchesWhole(body);
    MatchesConcat(body, ps + file, tail, 0);
    MatchesConcat(body, ps, file, 0);
    BoundaryFollows(body, 0, boundary, parts, f, data, |ps|);
    FoundAt(body, boundary, 0, 0);
    ExtractThrough(widen, boundary, body, 0, 0, parts, f, data, |ps|);
  }

  // ----- Bodies that are refused

  /** Without the boundary in the body there is no file. */
  lemma NoBoundaryNoPart(widen: string -> string, boundary: string, body: string)
    requires !Occurs(body, boundary)
    ensures Extract(widen, boundary, body, 0) == None
  {
    FindNone(body, boundary);
  }

  /** A file field whose content no delimiter ends is refused, however long it is. */
  lemma UnendedIsRefused(widen: string -> string, boundary: string, f: FileHeader, data: string)
    requires BoundaryOk(boundary) && f.Ok() && !Occurs(data, CRLF + boundary)
    ensures Extract(widen, boundary, boundary + CRLF + f.Headers() + CRLFCRLF + data, 0) == None
  {
    var body := boundary + CRLF + f.Headers() + CRLFCRLF + data;
    var at := ContentAt(0, boundary, f.Headers());
    HeadAtFront(boundary, f.Headers(), data);
    NameFound(f);
    ScanStops(widen, boundary, body, 0, f.Headers(), at, f.name);
    NothingInTail(body, data, at, CRLF + boundary);
  }

  /** A header block in which the quotes around the file name are not closed ends the search. */
  lemma UnclosedIsRefused(widen: string -> string, boundary: string, before: string, name: string, rest: string)
    requires BoundaryOk(boundary) && !Occurs(before, FILENAME) && '"' !in name && HeadersOk(before + FILENAME + name)
    ensures Extract(widen, boundary, boundary + CRLF + (before + FILENAME + name) + CRLFCRLF + rest, 0) == None
  {
    HeadAtFront(boundary, before + FILENAME + name, rest);
    NameUnclosed(before, name);
  }

  /** So is a file whose name has nothing safe in it. */
  lemma NamelessIsRefused(widen: string -> string, boundary: string, f: FileHeader, rest: string)
    requires BoundaryOk(boundary) && f.Ok() && SafeName(widen(f.name)) == ""
    ensures Extract(widen, boundary, boundary + CRLF + f.Headers() + CRLFCRLF + rest, 0) == None
  {
    var body := boundary + CRLF + f.Headers() + CRLFCRLF + rest;
    HeadAtFront(boundary, f.Headers(), rest);
    NameFound(f);
    ScanStops(widen, boundary, body, 0, f.Headers(), ContentAt(0, boundary, f.Headers()), f.name);
  }

  lemma HeadAtFront(boundary: string, h: string, rest: string)
    requires BoundaryOk(boundary) && HeadersOk(h)
    ensures var body := boundary + CRLF + h + CRLFCRLF + rest;
            && NextPart(boundary, body, 0) == Some(PartHead(h, ContentAt(0, boundary, h)))
            && ContentAt(0, boundary, h) + |rest| == |body| && Matches(body, rest, ContentAt(0, boundary, h))
  {
    var body := boundary + CRLF + h + CRLFCRLF + rest;
    MatchesWhole(body);
    HeadOfText(body, 0, boundary, h, rest);
    FoundAt(body, boundary, 0, 0);
    PartFound(body, 0, 0, boundary, h);
  }

  lemma NameUnclosed(before: string, name: string)
    requires !Occurs(before, FILENAME) && '"' !in name
    ensures NameOf(before + FILENAME + name) == Unclosed
  {
    var ph := before + FILENAME + name;
    MatchesWhole(ph);
    MatchesConcat(ph, before + FILENAME, name, 0);
    MatchesConcat(ph, before, FILENAME, 0);
    FindAfterClean(ph, 0, before, FILENAME);
    OccursChar(name, '"');
    NothingInTail(ph, name, |before| + 10, "\"");
  }

  /** What does not occur in the tail of a text is not found from there on. */
  lemma NothingInTail(s: string, tail: string, at: nat, pat: string)
    requires Matches(s, tail, at) && at + |tail| == |s| && !Occurs(tail, pat)
    ensures Find(s, pat, at) == None
  {
    var r := Find(s, pat, at);
    if r.Some? {
      MatchInPart(s, tail, at, pat, r.value);
    }
  }
}
