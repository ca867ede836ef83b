/** The directory listing that the file panel sends, as JSON text (RFC 8259). Names are bytes in UTF-8; the
    texts for sizes and times come from formatters that are not part of this model, and so does sorting. */
module Listing {
  import PanelPaths
  import PathParts
  import UrlForm

  import opened Text
  import opened JsonScan
  import opened JsonText
  import opened Decimal

  datatype Entry = Entry(name: string, dir: bool, size: nat, sizeText: string, modified: string, text: bool)

  // ----- What is printed

  function Bool(b: bool): Json { Atom(if b then "true" else "false") }

  function Field(key: string, value: Json): Member { Member("", key, "", value) }

  function EntryJson(e: Entry): Json {
    Obj("", [Field("name", Str(Escape(e.name))), Field("dir", Bool(e.dir)), Field("size", Atom(ToDecimal(e.size))),
             Field("sizeText", Str(e.sizeText)), Field("modified", Str(e.modified)), Field("text", Bool(e.text))])
  }

  function EntriesJson(entries: seq<Entry>): seq<Json> {
    if entries == [] then [] else [EntryJson(entries[0])] + EntriesJson(entries[1..])
  }

  function ListingJson(path: string, entries: seq<Entry>): Json {
    Obj("", [Field("path", Str(Escape(path))), Field("entries", Arr("", EntriesJson(entries)))])
  }

  // ----- The text that is written, piece after piece

  function Written(key: string, value: string): string {
    "\"" + key + "\":" + value
  }

  function InQuotes(s: string): string { "\"" + s + "\"" }

  function TrueFalse(b: bool): string { if b then "true" else "false" }

  function EntryText(e: Entry, name: string, size: string): string {
    "{" + (Written("name", InQuotes(name)) + "," + (Written("dir", TrueFalse(e.dir)) + "," + FromSize(e, size))) + "}"
  }

  function FromSize(e: Entry, size: string): string {
    Written("size", size) + "," + (Written("sizeText", InQuotes(e.sizeText)) + "," + FromModified(e))
  }

  function FromModified(e: Entry): string {
    Written("modified", InQuotes(e.modified)) + "," + Written("text", TrueFalse(e.text))
  }

  lemma FieldIsWritten(key: string, value: Json, rest: seq<Member>)
    ensures var m := Field(key, value);
            && PrintMembers([m]) == Written(key, Print(value))
            && (rest != [] ==> PrintMembers([m] + rest) == Written(key, Print(value)) + "," + PrintMembers(rest))
  {
    var m := Field(key, value);
    assert MemberHead(m) == "\"" + key + "\":";
    assert ([m] + rest)[1..] == rest;
    assert MemberHead(m) + Print(value) == Written(key, Print(value));
  }

  lemma LastFieldsAreWritten(e: Entry)
    ensures PrintMembers([Field("modified", Str(e.modified)), Field("text", Bool(e.text))]) == FromModified(e)
  {
    var last := [Field("text", Bool(e.text))];
    FieldIsWritten("text", Bool(e.text), []);
    FieldIsWritten("modified", Str(e.modified), last);
    assert [Field("modified", Str(e.modified))] + last
        == [Field("modified", Str(e.modified)), Field("text", Bool(e.text))];
  }

  lemma SizeFieldsAreWritten(e: Entry)
    ensures PrintMembers([Field("size", Atom(ToDecimal(e.size))), Field("sizeText", Str(e.sizeText)),
                          Field("modified", Str(e.modified)), Field("text", Bool(e.text))])
            == FromSize(e, ToDecimal(e.size))
  {
    var last := [Field("modified", Str(e.modified)), Field("text", Bool(e.text))];
    var three := [Field("sizeText", Str(e.sizeText))] + last;
    LastFieldsAreWritten(e);
    FieldIsWritten("sizeText", Str(e.sizeText), last);
    FieldIsWritten("size", Atom(ToDecimal(e.size)), three);
    assert [Field("size", Atom(ToDecimal(e.size)))] + three
        == [Field("size", Atom(ToDecimal(e.size))), Field("sizeText", Str(e.sizeText)),
            Field("modified", Str(e.modified)), Field("text", Bool(e.text))];
  }

  lemma EntryIsPrinted(e: Entry)
    ensures Print(EntryJson(e)) == EntryText(e, Escape(e.name), ToDecimal(e.size))
  {
    var four := [Field("size", Atom(ToDecimal(e.size))), Field("sizeText", Str(e.sizeText)),
                 Field("modified", Str(e.modified)), Field("text", Bool(e.text))];
    var five := [Field("dir", Bool(e.dir))] + four;
    SizeFieldsAreWritten(e);
    FieldIsWritten("dir", Bool(e.dir), four);
    FieldIsWritten("name", Str(Escape(e.name)), five);
    assert [Field("name", Str(Escape(e.name)))] + five == EntryJson(e).members;
    PrintedBare([], EntryJson(e).members);
  }

  lemma {:induction false} ItemsAppend(items: seq<Json>, v: Json)
    ensures PrintItems(items + [v]) == if items == [] then Print(v) else PrintItems(items) + "," + Print(v)
  {
    if items == [] {
      assert items + [v] == [v];
    } else {
      assert (items + [v])[1..] == items[1..] + [v];
      ItemsAppend(items[1..], v);
      if |items| > 1 {
        assert PrintItems(items + [v]) == Print(items[0]) + "," + (PrintItems(items[1..]) + "," + Print(v));
      }
    }
  }

  lemma {:induction false} EntriesAppend(a: seq<Entry>, e: Entry)
    ensures EntriesJson(a + [e]) == EntriesJson(a) + [EntryJson(e)]
  {
    if a == [] {
      assert a + [e] == [e];
    } else {
      assert (a + [e])[1..] == a[1..] + [e];
      EntriesAppend(a[1..], e);
    }
  }

  /** The listing around its entries. */
  function ListingText(path: string, items: string): string {
    "{" + (Written("path", InQuotes(path)) + "," + Written("entries", "[" + items + "]")) + "}"
  }

  lemma ListingIsPrinted(path: string, entries: seq<Entry>)
    ensures Print(ListingJson(path, entries)) == ListingText(Escape(path), PrintItems(EntriesJson(entries)))
  {
    var arr := Arr("", EntriesJson(entries));
    var last := [Field("entries", arr)];
    FieldIsWritten("entries", arr, []);
    FieldIsWritten("path", Str(Escape(path)), last);
    assert [Field("path", Str(Escape(path)))] + last == ListingJson(path, entries).members;
    PrintedBare(EntriesJson(entries), ListingJson(path, entries).members);
  }

  lemma PrintedBare(items: seq<Json>, members: seq<Member>)
    ensures Print(Arr("", items)) == "[" + PrintItems(items) + "]"
    ensures Print(Obj("", members)) == "{" + PrintMembers(members) + "}"
  {
    assert "" + PrintItems(items) == PrintItems(items) && "" + PrintMembers(members) == PrintMembers(members);
  }

  // ----- ListJson

  /** `std::sort` by name: some reordering of what it is given. */
  ghost predicate Reorders(sort: seq<Entry> -> seq<Entry>) {
    forall es {:trigger sort(es)} :: multiset(sort(es)) == multiset(es)
  }

  function Those(es: seq<Entry>, dir: bool): seq<Entry> {
    if es == [] then []
    else if es[0].dir == dir then [es[0]] + Those(es[1..], dir)
    else Those(es[1..], dir)
  }

  lemma {:induction false} ThoseAppend(es: seq<Entry>, e: Entry, dir: bool)
    ensures Those(es + [e], dir) == if e.dir == dir then Those(es, dir) + [e] else Those(es, dir)
  {
    if es == [] {
      assert es + [e] == [e];
    } else {
      assert (es + [e])[1..] == es[1..] + [e];
      ThoseAppend(es[1..], e, dir);
    }
  }

  /** What the directory search gives, without `.` and `..`. */
  function Shown(found: seq<Entry>): seq<Entry> {
    if found == [] then []
    else if found[0].name == "." || found[0].name == ".." then Shown(found[1..])
    else [found[0]] + Shown(found[1..])
  }

  lemma {:induction false} ShownAppend(es: seq<Entry>, e: Entry)
    ensures Shown(es + [e]) == if e.name == "." || e.name == ".." then Shown(es) else Shown(es) + [e]
  {
    if es == [] {
      assert es + [e] == [e];
    } else {
      assert (es + [e])[1..] == es[1..] + [e];
      ShownAppend(es[1..], e);
    }
  }

  /** The entries in the order of the listing. */
  function Ordered(found: seq<Entry>, sort: seq<Entry> -> seq<Entry>): seq<Entry> {
    sort(Those(Shown(found), true)) + sort(Those(Shown(found), false))
  }

  method Partition(found: seq<Entry>) returns (dirs: seq<Entry>, files: seq<Entry>)
    ensures dirs == Those(Shown(found), true) && files == Those(Shown(found), false)
  {
    dirs, files := [], [];
    for i := 0 to |found|
      invariant dirs == Those(Shown(found[..i]), true) && files == Those(Shown(found[..i]), false)
    {
      var e := found[i];
      assert found[..i + 1] == found[..i] + [e];
      ShownAppend(found[..i], e);
      if e.name == "." || e.name == ".." {
        continue;
      }
      ThoseAppend(Shown(found[..i]), e, true);
      ThoseAppend(Shown(found[..i]), e, false);
      if e.dir {
        dirs := dirs + [e];
      } else {
        files := files + [e];
      }
    }
    assert found[..|found|] == found;
  }

  /** The text of a list of entries, a comma before each but the first. */
  function Listed(entries: seq<Entry>): string {
    PrintItems(EntriesJson(entries))
  }

  lemma AnotherEntry(entries: seq<Entry>, e: Entry, text: string)
    requires text == Print(EntryJson(e))
    ensures Listed(entries + [e]) == (if entries == [] then text else Listed(entries) + "," + text)
  {
    EntriesAppend(entries, e);
    ItemsAppend(EntriesJson(entries), EntryJson(e));
  }

  method WriteEntry(e: Entry) returns (text: string)
    ensures text == Print(EntryJson(e))
  {
    var name := JsonEsc(e.name);
    EntryIsPrinted(e);
    text := EntryText(e, name, ToDecimal(e.size));
  }

  lemma NextListed(done: seq<Entry>, entries: seq<Entry>, i: nat, text: string)
    requires i < |entries| && text == Print(EntryJson(entries[i]))
    ensures Listed(done + entries[..i + 1])
         == if done == [] && i == 0 then text else Listed(done + entries[..i]) + "," + text
  {
    assert done + entries[..i + 1] == done + entries[..i] + [entries[i]];
    AnotherEntry(done + entries[..i], entries[i], text);
  }

  /** Writes more entries behind those that are done. */
  method Emit(js: string, done: seq<Entry>, entries: seq<Entry>) returns (out: string)
    requires js == Listed(done)
    ensures out == Listed(done + entries)
  {
    out := js;
    var firstOut := done == [];
    assert done + entries[..0] == done;
    for i := 0 to |entries|
      invariant firstOut <==> done == [] && i == 0
      invariant out == Listed(done + entries[..i])
    {
      var text := WriteEntry(entries[i]);
      NextListed(done, entries, i, text);
      out := if firstOut then text else out + "," + text;
      firstOut := false;
    }
    assert done + entries[..|entries|] == done + entries;
  }

  /** What is sent for a query: the empty listing when its path does not resolve under the root, else the
      entries that the directory search finds at the full path, under the normalised path. */
  function Answer(root: string, query: string, search: string -> seq<Entry>, sort: seq<Entry> -> seq<Entry>): Json {
    match PanelPaths.Resolve(root, UrlForm.FirstValue(Split(query, '&'), "path"))
    case None => ListingJson("", [])
    case Some(p) => ListingJson(p.norm, Ordered(search(p.full), sort))
  }

  const EMPTY_LISTING := "{\"path\":\"\",\"entries\":[]}"

  lemma EmptyListing()
    ensures Print(ListingJson("", [])) == EMPTY_LISTING
  {
    ListingIsPrinted("", []);
    EmptyText();
  }

  lemma EmptyText()
    ensures ListingText("", "") == EMPTY_LISTING
  {
    assert Written("path", InQuotes("")) == "\"path\":\"\"";
    assert Written("entries", "[" + "" + "]") == "\"entries\":[]";
  }

  method ListJson(root: string, query: string, search: string -> seq<Entry>, sort: seq<Entry> -> seq<Entry>)
    returns (js: string)
    ensures js == Print(Answer(root, query, search, sort))
  {
    var path := UrlForm.QueryValue(query, "path");
    var ok, full, rel := PanelPaths.ResolveUnderRoot(root, path);
    if !ok {
      EmptyListing();
      return EMPTY_LISTING;
    }
    js := PrintListing(rel, search(full), sort);
  }

  method PrintListing(rel: string, found: seq<Entry>, sort: seq<Entry> -> seq<Entry>) returns (js: string)
    ensures js == Print(ListingJson(rel, Ordered(found, sort)))
  {
    var dirs, files := Partition(found);
    dirs, files := sort(dirs), sort(files);
    var name := JsonEsc(rel);
    var items := Emit("", [], dirs);
    assert [] + dirs == dirs;
    items := Emit(items, dirs, files);
    ListingIsPrinted(rel, dirs + files);
    js := ListingText(name, items);
  }

  // ----- What the listing is

  predicate White(s: string) {
    forall i | 0 <= i < |s| :: s[i] == ' ' || s[i] == '\t' || s[i] == '\n' || s[i] == '\r'
  }

  /** A whole number as JSON writes it: digits without a leading zero. */
  predicate Number(s: string) {
    s != "" && (forall i | 0 <= i < |s| :: IsDigit(s[i])) && (s[0] == '0' ==> |s| == 1)
  }

  /** Values that are JSON texts in the strict sense: every string body has a meaning, every atom is a
      number, `true`, `false` or `null`, and only white space is padded. */
  ghost predicate Strict(v: Json)
    decreases v, 1
  {
    match v
    case Str(body) => Unescape(body).Some?
    case Atom(text) => text == "true" || text == "false" || text == "null" || Number(text)
    case Arr(pad, items) => White(pad) && forall i | 0 <= i < |items| :: Strict(items[i])
    case Obj(pad, members) => White(pad) && forall i | 0 <= i < |members| :: StrictMember(members[i])
    case Spaced(before, value, after) => White(before) && Strict(value) && White(after)
  }

  ghost predicate StrictMember(m: Member)
    decreases m, 0
  {
    White(m.before) && Unescape(m.key).Some? && White(m.middle) && Strict(m.value)
  }

  /** The formatters' texts need no escapes. */
  predicate PlainTexts(e: Entry) {
    Plain(e.sizeText) && Plain(e.modified)
  }

  predicate Plain(s: string) {
    forall i | 0 <= i < |s| :: s[i] >= ' ' && s[i] != '"' && s[i] != '\\'
  }

  lemma {:induction false} PlainMeansItself(s: string)
    requires Plain(s)
    ensures Unescape(s) == Some(s)
  {
    if s != "" {
      PlainMeansItself(s[1..]);
      assert [s[0]] + s[1..] == s;
    }
  }

  lemma {:induction false} DecimalIsNumber(n: nat)
    ensures Number(ToDecimal(n))
    ensures n > 0 ==> ToDecimal(n)[0] != '0'
  {
    if n >= 10 {
      DecimalIsNumber(n / 10);
    }
  }

  ghost predicate PlainField(m: Member) {
    m.before == "" && Plain(m.key) && m.middle == "" && Strict(m.value)
  }

  lemma StrictObject(members: seq<Member>)
    requires forall i | 0 <= i < |members| :: PlainField(members[i])
    ensures Strict(Obj("", members))
  {
    forall i | 0 <= i < |members| ensures StrictMember(members[i]) {
      assert PlainField(members[i]);
      PlainMeansItself(members[i].key);
    }
  }

  lemma TextField(key: string, s: string)
    requires Plain(key)
    ensures PlainField(Field(key, Str(Escape(s)))) && (Plain(s) ==> PlainField(Field(key, Str(s))))
  {
    UnescapeOfEscape(s);
    if Plain(s) {
      PlainMeansItself(s);
    }
  }

  lemma AtomField(key: string, b: bool, n: nat)
    requires Plain(key)
    ensures PlainField(Field(key, Bool(b))) && PlainField(Field(key, Atom(ToDecimal(n))))
  {
    DecimalIsNumber(n);
  }

  lemma SixFields(a: Member, b: Member, c: Member, d: Member, e: Member, f: Member)
    requires PlainField(a) && PlainField(b) && PlainField(c) && PlainField(d) && PlainField(e) && PlainField(f)
    ensures Strict(Obj("", [a, b, c, d, e, f]))
  {
    StrictObject([a, b, c, d, e, f]);
  }

  lemma KeysArePlain()
    ensures Plain("name") && Plain("dir") && Plain("size") && Plain("sizeText") && Plain("modified") && Plain("text")
  {
  }

  lemma EntryIsStrict(e: Entry)
    requires PlainTexts(e)
    ensures Strict(EntryJson(e))
  {
    KeysArePlain();
    TextField("name", e.name);
    AtomField("dir", e.dir, e.size);
    AtomField("size", e.dir, e.size);
    TextField("sizeText", e.sizeText);
    TextField("modified", e.modified);
    AtomField("text", e.text, e.size);
    SixFields(Field("name", Str(Escape(e.name))), Field("dir", Bool(e.dir)), Field("size", Atom(ToDecimal(e.size))),
              Field("sizeText", Str(e.sizeText)), Field("modified", Str(e.modified)), Field("text", Bool(e.text)));
  }

  lemma {:induction false} EntriesAt(entries: seq<Entry>)
    ensures |EntriesJson(entries)| == |entries|
    ensures forall i | 0 <= i < |entries| :: EntriesJson(entries)[i] == EntryJson(entries[i])
  {
    if entries != [] {
      EntriesAt(entries[1..]);
    }
  }

  /** Whatever the names and the path hold, what is sent is a JSON text. */
  lemma ListingIsStrict(path: string, entries: seq<Entry>)
    requires forall i | 0 <= i < |entries| :: PlainTexts(entries[i])
    ensures Strict(ListingJson(path, entries))
  {
    EntriesAreStrict(entries);
    ListingKeysArePlain();
    TextField("path", path);
    TwoFields(Field("path", Str(Escape(path))), Field("entries", Arr("", EntriesJson(entries))));
  }

  lemma ListingKeysArePlain()
    ensures Plain("path") && Plain("entries")
  {
  }

  lemma TwoFields(a: Member, b: Member)
    requires PlainField(a) && PlainField(b)
    ensures Strict(Obj("", [a, b]))
  {
    StrictObject([a, b]);
  }

  lemma {:induction false} EntriesAreStrict(entries: seq<Entry>)
    requires forall i | 0 <= i < |entries| :: PlainTexts(entries[i])
    ensures Strict(Arr("", EntriesJson(entries)))
  {
    EntriesAt(entries);
    forall i | 0 <= i < |entries| ensures Strict(EntriesJson(entries)[i]) {
      EntryIsStrict(entries[i]);
    }
  }

  /** Every entry but `.` and `..` is listed as often as it was found, once, and directories come first. */
  lemma ListsEveryEntryOnce(found: seq<Entry>, sort: seq<Entry> -> seq<Entry>)
    requires Reorders(sort)
    ensures multiset(Ordered(found, sort)) == multiset(Shown(found))
    ensures forall e :: multiset(Ordered(found, sort))[e]
                     == if e.name == "." || e.name == ".." then 0 else multiset(found)[e]
    ensures forall i, j | 0 <= i < j < |Ordered(found, sort)| && Ordered(found, sort)[j].dir ::
              Ordered(found, sort)[i].dir
  {
    var shown := Shown(found);
    var dirs, files := Those(shown, true), Those(shown, false);
    ShownCounts(found);
    ThoseAreAll(shown);
    assert multiset(sort(dirs)) == multiset(dirs) && multiset(sort(files)) == multiset(files);
    AllOfKind(shown, true, sort(dirs));
    AllOfKind(shown, false, sort(files));
  }

  lemma {:induction false} ShownCounts(found: seq<Entry>)
    ensures forall e :: multiset(Shown(found))[e] == if e.name == "." || e.name == ".." then 0 else multiset(found)[e]
  {
    if found != [] {
      ShownCounts(found[1..]);
      assert found == [found[0]] + found[1..];
    }
  }

  lemma {:induction false} ThoseAreAll(es: seq<Entry>)
    ensures multiset(Those(es, true)) + multiset(Those(es, false)) == multiset(es)
  {
    if es != [] {
      ThoseAreAll(es[1..]);
      assert es == [es[0]] + es[1..];
    }
  }

  lemma {:induction false} ThoseAreOfKind(es: seq<Entry>, dir: bool)
    ensures forall e | e in Those(es, dir) :: e.dir == dir
  {
    if es != [] {
      ThoseAreOfKind(es[1..], dir);
    }
  }

  lemma AllOfKind(es: seq<Entry>, dir: bool, sorted: seq<Entry>)
    requires multiset(sorted) == multiset(Those(es, dir))
    ensures forall i | 0 <= i < |sorted| :: sorted[i].dir == dir
  {
    ThoseAreOfKind(es, dir);
    forall i | 0 <= i < |sorted| ensures sorted[i].dir == dir {
      assert sorted[i] in multiset(sorted);
      assert sorted[i] in Those(es, dir);
    }
  }

  /** `std::sort` by name, up to case: a reordering in which no name comes before a smaller one. */
  ghost predicate Sorts(sort: seq<Entry> -> seq<Entry>, low: char -> char) {
    Reorders(sort) && forall es {:trigger sort(es)} :: ByName(sort(es), low)
  }

  predicate ByName(es: seq<Entry>, low: char -> char) {
    forall i, j | 0 <= i < j < |es| :: PathParts.Compare(low, es[i].name, es[j].name) <= 0
  }

  /** The directories are listed by name, and so are the files. */
  lemma ListedByName(found: seq<Entry>, sort: seq<Entry> -> seq<Entry>, low: char -> char)
    requires Sorts(sort, low)
    ensures var es := Ordered(found, sort);
            forall i, j | 0 <= i < j < |es| && es[i].dir == es[j].dir ::
              PathParts.Compare(low, es[i].name, es[j].name) <= 0
  {
    var shown := Shown(found);
    var dirs, files := sort(Those(shown, true)), sort(Those(shown, false));
    assert multiset(dirs) == multiset(Those(shown, true)) && multiset(files) == multiset(Those(shown, false));
    AllOfKind(shown, true, dirs);
    AllOfKind(shown, false, files);
    TwoParts(dirs, files, low);
  }

  // A sort by name, to show that there is one

  function Insert(e: Entry, es: seq<Entry>, low: char -> char): seq<Entry> {
    if es == [] then [e]
    else if PathParts.Compare(low, e.name, es[0].name) <= 0 then [e] + es
    else [es[0]] + Insert(e, es[1..], low)
  }

  function InsertionSort(es: seq<Entry>, low: char -> char): seq<Entry> {
    if es == [] then [] else Insert(es[0], InsertionSort(es[1..], low), low)
  }

  lemma {:induction false} InsertReorders(e: Entry, es: seq<Entry>, low: char -> char)
    ensures multiset(Insert(e, es, low)) == multiset(es) + multiset{e}
  {
    if es != [] {
      assert es == [es[0]] + es[1..];
      if PathParts.Compare(low, e.name, es[0].name) > 0 {
        InsertReorders(e, es[1..], low);
      }
    }
  }

  /** No name in `es` comes before `name`. */
  predicate AllBehind(name: string, es: seq<Entry>, low: char -> char) {
    forall i | 0 <= i < |es| :: PathParts.Compare(low, name, es[i].name) <= 0
  }

  lemma ByNameFromHead(e: Entry, es: seq<Entry>, low: char -> char)
    ensures ByName([e] + es, low) <==> AllBehind(e.name, es, low) && ByName(es, low)
  {
    var all := [e] + es;
    if ByName(all, low) {
      forall i | 0 <= i < |es| ensures PathParts.Compare(low, e.name, es[i].name) <= 0 {
        assert all[0] == e && all[i + 1] == es[i];
      }
      forall i, j | 0 <= i < j < |es| ensures PathParts.Compare(low, es[i].name, es[j].name) <= 0 {
        assert all[i + 1] == es[i] && all[j + 1] == es[j];
      }
    }
  }

  lemma BehindHead(e: Entry, es: seq<Entry>, low: char -> char)
    requires es != [] && ByName(es, low) && PathParts.Compare(low, e.name, es[0].name) <= 0
    ensures AllBehind(e.name, es, low)
  {
    forall i | 0 <= i < |es| ensures PathParts.Compare(low, e.name, es[i].name) <= 0 {
      PathParts.CompareIsTotalPreorder(low, e.name, es[0].name, es[i].name);
    }
  }

  lemma BehindInserted(name: string, e: Entry, es: seq<Entry>, low: char -> char)
    requires AllBehind(name, es, low) && PathParts.Compare(low, name, e.name) <= 0
    ensures AllBehind(name, Insert(e, es, low), low)
  {
    InsertReorders(e, es, low);
    var all := Insert(e, es, low);
    forall i | 0 <= i < |all| ensures PathParts.Compare(low, name, all[i].name) <= 0 {
      assert all[i] in multiset(all);
      if all[i] != e {
        assert all[i] in multiset(es);
      }
    }
  }

  lemma {:induction false} InsertKeepsOrder(e: Entry, es: seq<Entry>, low: char -> char)
    requires ByName(es, low)
    ensures ByName(Insert(e, es, low), low)
  {
    if es != [] {
      assert es == [es[0]] + es[1..];
      ByNameFromHead(es[0], es[1..], low);
      if PathParts.Compare(low, e.name, es[0].name) <= 0 {
        BehindHead(e, es, low);
        ByNameFromHead(e, es, low);
      } else {
        PathParts.CompareIsTotalPreorder(low, e.name, es[0].name, e.name);
        InsertKeepsOrder(e, es[1..], low);
        BehindInserted(es[0].name, e, es[1..], low);
        ByNameFromHead(es[0], Insert(e, es[1..], low), low);
      }
    }
  }

  lemma {:induction false} InsertionSortIsSorted(es: seq<Entry>, low: char -> char)
    ensures multiset(InsertionSort(es, low)) == multiset(es) && ByName(InsertionSort(es, low), low)
  {
    if es != [] {
      InsertionSortIsSorted(es[1..], low);
      InsertReorders(es[0], InsertionSort(es[1..], low), low);
      InsertKeepsOrder(es[0], InsertionSort(es[1..], low), low);
      assert es == [es[0]] + es[1..];
    }
  }

  /** For every folding of case there is a sort by name. */
  lemma SortExists(low: char -> char)
    ensures Sorts(es => InsertionSort(es, low), low)
  {
    forall es: seq<Entry>
      ensures multiset(InsertionSort(es, low)) == multiset(es) && ByName(InsertionSort(es, low), low)
    {
      InsertionSortIsSorted(es, low);
    }
  }

  lemma TwoParts(dirs: seq<Entry>, files: seq<Entry>, low: char -> char)
    requires ByName(dirs, low) && ByName(files, low)
    requires (forall i | 0 <= i < |dirs| :: dirs[i].dir) && (forall i | 0 <= i < |files| :: !files[i].dir)
    ensures var es := dirs + files;
            forall i, j | 0 <= i < j < |es| && es[i].dir == es[j].dir ::
              PathParts.Compare(low, es[i].name, es[j].name) <= 0
  {
    var es := dirs + files;
    forall i, j | 0 <= i < j < |es| && es[i].dir == es[j].dir
      ensures PathParts.Compare(low, es[i].name, es[j].name) <= 0
    {
      assert es[i] == if i < |dirs| then dirs[i] else files[i - |dirs|];
      assert es[j] == if j < |dirs| then dirs[j] else files[j - |dirs|];
    }
  }

  // ----- Reading it back

  function Meant(v: Json): Option<string> {
    if v.Str? then Unescape(v.body) else None
  }

  function Truth(v: Json): bool { v == Atom("true") }

  /** The entry that an object of the listing stands for. */
  function EntryOf(v: Json): Option<Entry> {
    if !(v.Obj? && |v.members| == 6 && v.members[2].value.Atom?) then None
    else
      var name, size := Meant(v.members[0].value), Meant(v.members[3].value);
      var modified := Meant(v.members[4].value);
      if name.None? || size.None? || modified.None? then None
      else Some(Entry(name.value, Truth(v.members[1].value), ReadDigits(0, v.members[2].value.text), size.value,
                      modified.value, Truth(v.members[5].value)))
  }

  /** The page's parser gets back exactly the entry, so two entries are never shown alike. */
  lemma EntryReadsBack(e: Entry)
    requires PlainTexts(e)
    ensures EntryOf(EntryJson(e)) == Some(e)
  {
    UnescapeOfEscape(e.name);
    PlainMeansItself(e.sizeText);
    PlainMeansItself(e.modified);
    ReadOfDecimal(e.size);
  }

  /** What the page makes of the answer: the path it shows, and the entries. */
  function PathOf(v: Json): Option<string> {
    if v.Obj? && |v.members| == 2 && v.members[0].key == "path" then Meant(v.members[0].value) else None
  }

  function EntriesOf(items: seq<Json>): seq<Option<Entry>> {
    if items == [] then [] else [EntryOf(items[0])] + EntriesOf(items[1..])
  }

  /** The answer shows this path and these entries. */
  predicate Shows(v: Json, path: string, entries: seq<Entry>) {
    && PathOf(v) == Some(path)
    && v.Obj? && |v.members| == 2 && v.members[1].key == "entries" && v.members[1].value.Arr?
    && var read := EntriesOf(v.members[1].value.items);
       |read| == |entries| && forall i | 0 <= i < |read| :: read[i] == Some(entries[i])
  }

  lemma {:induction false} EntriesReadBack(entries: seq<Entry>)
    requires forall i | 0 <= i < |entries| :: PlainTexts(entries[i])
    ensures var read := EntriesOf(EntriesJson(entries));
            |read| == |entries| && forall i | 0 <= i < |read| :: read[i] == Some(entries[i])
  {
    if entries != [] {
      EntryReadsBack(entries[0]);
      EntriesReadBack(entries[1..]);
      assert EntriesJson(entries)[1..] == EntriesJson(entries[1..]);
    }
  }

  lemma ListingShows(path: string, entries: seq<Entry>)
    requires forall i | 0 <= i < |entries| :: PlainTexts(entries[i])
    ensures Shows(ListingJson(path, entries), path, entries)
  {
    UnescapeOfEscape(path);
    EntriesReadBack(entries);
  }

  /** From the query to what the page shows: of a path of plain names, those names joined by slashes, and every
      entry that is found in that very directory below the root; of any other path, nothing. */
  lemma AnswerShows(root: string, query: string, search: string -> seq<Entry>, sort: seq<Entry> -> seq<Entry>)
    returns (entries: seq<Entry>)
    requires Reorders(sort) && forall place, e | e in search(place) :: PlainTexts(e)
    ensures var names := PanelPaths.PathNames(UrlForm.FirstValue(Split(query, '&'), "path"));
            var answer := Answer(root, query, search, sort);
            if forall i | 0 <= i < |names| :: PanelPaths.PlainName(names[i]) then
              Shows(answer, Join(names, '/'), entries)
              && forall e :: multiset(entries)[e] == if e.name == "." || e.name == ".." then 0
                                                     else multiset(search(Join([root] + names, '\\')))[e]
            else entries == [] && Shows(answer, "", [])
  {
    var rel := UrlForm.FirstValue(Split(query, '&'), "path");
    PanelPaths.ResolvesPlainNames(root, rel);
    if PanelPaths.Resolve(root, rel).Some? {
      var found := search(Join([root] + PanelPaths.PathNames(rel), '\\'));
      entries := Ordered(found, sort);
      ListsEveryEntryOnce(found, sort);
      forall i | 0 <= i < |entries| ensures PlainTexts(entries[i]) {
        assert multiset(entries)[entries[i]] > 0;
        assert entries[i] in multiset(found);
      }
      ListingShows(Join(PanelPaths.PathNames(rel), '/'), entries);
    } else {
      entries := [];
      ListingShows("", []);
    }
  }
}
