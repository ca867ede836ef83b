/** What the answer for a build is read from, when the service's text is a printed JSON value. */
module PrintedBuilds {
  import opened Decimal
  import opened JsonScan
  import opened JsonText
  import opened PaperBuilds
  import opened Text

  // ----- Where the members of a printed object stand

  /** The printed members before the `j`-th, commas included. */
  function FrontText(members: seq<Member>, j: nat): string
    requires j <= |members|
  {
    if j == 0 then ""
    else MemberHead(members[0]) + Print(members[0].value) + "," + FrontText(members[1..], j - 1)
  }

  lemma {:induction false} MemberStands(s: string, i: nat, members: seq<Member>, j: nat)
    requires j < |members| && Matches(s, PrintMembers(members), i)
    ensures Matches(s, MemberHead(members[j]) + Print(members[j].value), i + |FrontText(members, j)|)
    decreases j
  {
    var first := MemberHead(members[0]) + Print(members[0].value);
    if |members| > 1 {
      MatchesConcat(s, first + ",", PrintMembers(members[1..]), i);
      MatchesConcat(s, first, ",", i);
      if j > 0 {
        MemberStands(s, i + |first + ","|, members[1..], j - 1);
      }
    }
  }

  /** Which member of an object, and the white space around its value. */
  datatype Slot = Slot(j: nat, before: string, after: string)

  /** The slot holds the value under the key. */
  predicate Holds(members: seq<Member>, slot: Slot, key: string, v: Json) {
    && slot.j < |members| && members[slot.j].key == key && members[slot.j].value == Spaced(slot.before, v, slot.after)
    && ':' !in members[slot.j].middle && Blank(slot.before)
  }

  /** Of an object printed at `i`: where the member in the slot starts, its key, and its value. */
  function MemberAt(i: nat, pad: string, members: seq<Member>, slot: Slot): nat
    requires slot.j < |members|
  {
    i + 1 + |pad| + |FrontText(members, slot.j)|
  }

  function KeyAt(i: nat, pad: string, members: seq<Member>, slot: Slot): nat
    requires slot.j < |members|
  {
    MemberAt(i, pad, members, slot) + |members[slot.j].before|
  }

  function ValueAt(i: nat, pad: string, members: seq<Member>, slot: Slot): nat
    requires slot.j < |members|
  {
    MemberAt(i, pad, members, slot) + |MemberHead(members[slot.j])| + |slot.before|
  }

  lemma {:induction false} MemberEnds(s: string, i: nat, members: seq<Member>, j: nat, end: nat)
    requires j < |members| && Matches(s, PrintMembers(members), i) && Matches(s, "}", i + |PrintMembers(members)|)
    requires end == i + |FrontText(members, j)| + |MemberHead(members[j]) + Print(members[j].value)|
    ensures end < |s| && (s[end] == ',' || s[end] == '}')
    decreases j
  {
    var first := MemberHead(members[0]) + Print(members[0].value);
    if |members| > 1 {
      MatchesConcat(s, first + ",", PrintMembers(members[1..]), i);
      MatchesConcat(s, first, ",", i);
      MatchChar(s, ",", i + |first|, 0);
      if j > 0 {
        MemberEnds(s, i + |first + ","|, members[1..], j - 1, end);
      }
    } else {
      MatchChar(s, "}", i + |PrintMembers(members)|, 0);
    }
  }

  lemma InObject(s: string, i: nat, pad: string, members: seq<Member>, slot: Slot)
    requires slot.j < |members| && Matches(s, Print(Obj(pad, members)), i)
    ensures var at, text := MemberAt(i, pad, members, slot), MemberHead(members[slot.j]) + Print(members[slot.j].value);
            Matches(s, text, at) && at + |text| < |s| && (s[at + |text|] == ',' || s[at + |text|] == '}')
  {
    var text := PrintMembers(members);
    assert Print(Obj(pad, members)) == "{" + (pad + text) + "}";
    MatchesConcat(s, "{" + (pad + text), "}", i);
    MatchesConcat(s, "{", pad + text, i);
    MatchesConcat(s, pad, text, i + 1);
    MemberStands(s, i + 1 + |pad|, members, slot.j);
    MemberEnds(s, i + 1 + |pad|, members, slot.j,
               MemberAt(i, pad, members, slot) + |MemberHead(members[slot.j]) + Print(members[slot.j].value)|);
  }

  lemma InMember(s: string, at: nat, m: Member, before: string, v: Json, after: string)
    requires m.value == Spaced(before, v, after) && Matches(s, MemberHead(m) + Print(m.value), at)
    ensures var key, start := at + |m.before| + |Quoted(m.key)|, at + |MemberHead(m)| + |before|;
            && Matches(s, m.middle, key) && Matches(s, ":", key + |m.middle|)
            && Matches(s, before, key + |m.middle| + 1)
            && Matches(s, Print(v), start) && Matches(s, after, start + |Print(v)|)
  {
    assert Print(m.value) == before + Print(v) + after;
    MatchesConcat(s, MemberHead(m), before + Print(v) + after, at);
    MatchesConcat(s, m.before + Quoted(m.key), m.middle + ":", at);
    MatchesConcat(s, m.middle, ":", at + |m.before| + |Quoted(m.key)|);
    MatchesConcat(s, before + Print(v), after, at + |MemberHead(m)|);
    MatchesConcat(s, before, Print(v), at + |MemberHead(m)|);
  }

  /** The value in a slot stands where it was said to stand, and the key leads there once it is found. */
  lemma SlotStands(s: string, i: nat, pad: string, members: seq<Member>, slot: Slot, key: string, v: Json)
    requires Holds(members, slot, key, v) && Matches(s, Print(Obj(pad, members)), i)
    ensures Matches(s, Print(v), ValueAt(i, pad, members, slot))
    ensures Matches(s, slot.after, ValueAt(i, pad, members, slot) + |Print(v)|)
    ensures forall from | Find(s, Quoted(key), from) == Some(KeyAt(i, pad, members, slot)) ::
              KeyLeadsTo(s, key, from, members[slot.j].middle, slot.before, ValueAt(i, pad, members, slot))
  {
    InObject(s, i, pad, members, slot);
    InMember(s, MemberAt(i, pad, members, slot), members[slot.j], slot.before, v, slot.after);
  }

  /** No digit follows a value that white space, a comma or a brace follows. */
  lemma ValueEnds(s: string, i: nat, pad: string, members: seq<Member>, slot: Slot, key: string, v: Json)
    requires Holds(members, slot, key, v) && Matches(s, Print(Obj(pad, members)), i)
    requires slot.after == "" || !IsDigit(slot.after[0])
    ensures var end := ValueAt(i, pad, members, slot) + |Print(v)|; end < |s| && !IsDigit(s[end])
  {
    SlotStands(s, i, pad, members, slot, key, v);
    InObject(s, i, pad, members, slot);
    var m := members[slot.j];
    assert Print(m.value) == slot.before + Print(v) + slot.after;
    if slot.after != "" {
      MatchChar(s, slot.after, ValueAt(i, pad, members, slot) + |Print(v)|, 0);
    }
  }

  // ----- Whose channel is read

  /** Of the bodies that mean something, only the plain one reads as `STABLE`. */
  lemma {:induction false} PlainStable(body: string, word: string)
    requires Unescape(body).Some? && forall i | 0 <= i < |word| :: 'A' <= word[i] <= 'Z'
    ensures Unslash(body) == word <==> body == word
    decreases |body|
  {
    if body != "" && word != "" && body[0] == word[0] {
      PlainStable(body[1..], word[1..]);
      assert body == [body[0]] + body[1..] && word == [word[0]] + word[1..];
    }
  }

  /** The string in a slot is read once its key is found. */
  lemma SlotIsRead(s: string, i: nat, pad: string, members: seq<Member>, slot: Slot, key: string, from: nat,
                   body: string)
    requires Holds(members, slot, key, Str(body)) && BodyOk(body) && Matches(s, Print(Obj(pad, members)), i)
    requires Find(s, Quoted(key), from) == Some(KeyAt(i, pad, members, slot))
    ensures StringAfter(s, key, from) == Unslash(body)
  {
    SlotStands(s, i, pad, members, slot, key, Str(body));
    assert Print(Str(body)) == Quoted(body);
    StringAfterIsUnslash(s, key, from, members[slot.j].middle, slot.before, ValueAt(i, pad, members, slot), body);
  }

  /** When the first text `"channel"` of a printed element is the key of its own member, the element is chosen
      as stable exactly when that member is written `STABLE`. */
  lemma OwnChannelDecides(pad: string, members: seq<Member>, slot: Slot, body: string)
    requires Holds(members, slot, "channel", Str(body)) && Unescape(body).Some?
    requires Find(Print(Obj(pad, members)), Quoted("channel"), 0) == Some(KeyAt(0, pad, members, slot))
    ensures IsStable(Print(Obj(pad, members))) <==> body == "STABLE"
  {
    MatchesWhole(Print(Obj(pad, members)));
    MeaningIsBody(body);
    SlotIsRead(Print(Obj(pad, members)), 0, pad, members, slot, "channel", 0, body);
    PlainStable(body, "STABLE");
  }

  // ----- A build

  /** A build as the service prints it: `members`, of which one holds the downloads `files`, of which one under
      `server:default` holds the file's members `file`; there the address, and in the build its number. */
  datatype Printed = Printed(pad: string, members: seq<Member>, inBuild: Slot, downloads: string, filesPad: string,
                             files: seq<Member>, inFiles: Slot, filePad: string, file: seq<Member>, inFile: Slot,
                             url: string, ofId: Slot, id: int)
  {
    function Text(): string { Print(Obj(pad, members)) }

    predicate Ok() {
      && Holds(members, inBuild, downloads, Obj(filesPad, files))
      && Holds(files, inFiles, "server:default", Obj(filePad, file))
      && Holds(file, inFile, "url", Str(url)) && BodyOk(url)
      && Holds(members, ofId, "id", Atom(PrintInt(id))) && (ofId.after == "" || !IsDigit(ofId.after[0]))
    }

    function FilesAt(): nat
      requires Ok()
    {
      ValueAt(0, pad, members, inBuild)
    }

    function FileAt(): nat
      requires Ok()
    {
      ValueAt(FilesAt(), filesPad, files, inFiles)
    }

    /** The first texts that look like these keys are these keys. */
    predicate FirstAreOwn()
      requires Ok()
    {
      && Find(Text(), Quoted("server:default"), 0) == Some(KeyAt(FilesAt(), filesPad, files, inFiles))
      && Find(Text(), Quoted("url"), KeyAt(FilesAt(), filesPad, files, inFiles))
         == Some(KeyAt(FileAt(), filePad, file, inFile))
      && Find(Text(), Quoted("id"), 0) == Some(KeyAt(0, pad, members, ofId))
    }
  }

  lemma FileStands(b: Printed)
    requires b.Ok()
    ensures Matches(b.Text(), Print(Obj(b.filePad, b.file)), b.FileAt())
  {
    MatchesWhole(b.Text());
    SlotStands(b.Text(), 0, b.pad, b.members, b.inBuild, b.downloads, Obj(b.filesPad, b.files));
    SlotStands(b.Text(), b.FilesAt(), b.filesPad, b.files, b.inFiles, "server:default", Obj(b.filePad, b.file));
  }

  lemma UrlIsRead(b: Printed)
    requires b.Ok() && b.FirstAreOwn()
    ensures StringAfter(b.Text(), "url", KeyAt(b.FilesAt(), b.filesPad, b.files, b.inFiles)) == Unslash(b.url)
  {
    FileStands(b);
    SlotIsRead(b.Text(), b.FileAt(), b.filePad, b.file, b.inFile, "url",
               KeyAt(b.FilesAt(), b.filesPad, b.files, b.inFiles), b.url);
  }

  /** The whole number in a slot is read once its key is found. */
  lemma NumberIsRead(s: string, i: nat, pad: string, members: seq<Member>, slot: Slot, key: string, z: int)
    requires Holds(members, slot, key, Atom(PrintInt(z))) && (slot.after == "" || !IsDigit(slot.after[0]))
    requires Matches(s, Print(Obj(pad, members)), i) && Find(s, Quoted(key), 0) == Some(KeyAt(i, pad, members, slot))
    ensures IntAfter(s, key, 0) == Wrap32(z)
  {
    SlotStands(s, i, pad, members, slot, key, Atom(PrintInt(z)));
    ValueEnds(s, i, pad, members, slot, key, Atom(PrintInt(z)));
    assert Print(Atom(PrintInt(z))) == PrintInt(z);
    IntReadsBack(s, key, 0, members[slot.j].middle, slot.before, ValueAt(i, pad, members, slot), z);
  }

  lemma IdIsRead(b: Printed)
    requires b.Ok() && b.FirstAreOwn()
    ensures IntAfter(b.Text(), "id", 0) == Wrap32(b.id)
  {
    MatchesWhole(b.Text());
    NumberIsRead(b.Text(), 0, b.pad, b.members, b.ofId, "id", b.id);
  }

  /** What is read of a printed build: the body of its own `url` without the backslashes, and its own number in
      32 bits; nothing when that body is empty. */
  lemma PrintedBuildIsRead(b: Printed)
    requires b.Ok() && b.FirstAreOwn()
    ensures BuildOf(b.Text()) == if b.url == "" then None else Some(Build(Unslash(b.url), Wrap32(b.id)))
  {
    UrlIsRead(b);
    IdIsRead(b);
    UnslashIsEmpty(b.url);
  }

  lemma UnslashIsEmpty(body: string)
    ensures Unslash(body) == "" <==> body == ""
  {
  }

  /** There is no answer without the text `"server:default"`, and none without `"url"` behind it. */
  lemma NoAnswerWithoutKeys(elem: string)
    ensures !Occurs(elem, Quoted("server:default")) ==> BuildOf(elem) == None
    ensures forall at | Find(elem, Quoted("server:default"), 0) == Some(at) && Find(elem, Quoted("url"), at).None? ::
              BuildOf(elem) == None
  {
    if !Occurs(elem, Quoted("server:default")) {
      FindNone(elem, Quoted("server:default"));
    }
  }

  /** The whole answer: on any printed array of builds, the address and the number of the first build that is
      stable, or else of the first one, and nothing of its neighbours. */
  lemma AnswerIsTheBuild(json: string, pad: string, items: seq<Json>, arr: nat, k: nat, r: Option<Build>, b: Printed)
    requires WellFormed(Arr(pad, items)) && AllObjects(items) && k < |items|
    requires Find(json, "[", 0) == Some(arr) && Matches(json, Print(Arr(pad, items)), arr)
    requires (IsStable(Print(Core(items[k]))) && forall i | 0 <= i < k :: !IsStable(Print(Core(items[i]))))
             || (k == 0 && forall i | 0 <= i < |items| :: !IsStable(Print(Core(items[i]))))
    requires IsAnswer(Elements(json, arr, 0, false, None), r)
    requires Core(items[k]) == Obj(b.pad, b.members) && b.Ok() && b.FirstAreOwn()
    ensures r == if b.url == "" then None else Some(Build(Unslash(b.url), Wrap32(b.id)))
  {
    AnswerOfPrintedBuilds(json, pad, items, arr, k, r);
    PrintedBuildIsRead(b);
  }
}
