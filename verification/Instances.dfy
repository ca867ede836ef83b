/** The instance store: how a display name becomes a directory name that no other instance has,
    and what it is shown by. */
module Instances {
  import opened CaseFold
  import opened Decimal
  import opened Text

  // ----- SanitizeInstanceId

  predicate Alphanumeric(c: char) { '0' <= c <= '9' || 'A' <= c <= 'Z' || 'a' <= c <= 'z' }

  predicate Blank(c: char) { c == ' ' || c == '-' || c == '_' }

  /** Letters and digits stay, blanks become underscores, everything else is dropped. */
  function Mapped(name: string): string {
    if name == "" then ""
    else if Alphanumeric(name[0]) then [name[0]] + Mapped(name[1..])
    else if Blank(name[0]) then ['_'] + Mapped(name[1..])
    else Mapped(name[1..])
  }

  function TrimFront(s: string): string {
    if s != "" && s[0] == '_' then TrimFront(s[1..]) else s
  }

  function TrimBack(s: string): string {
    if s != "" && s[|s| - 1] == '_' then TrimBack(s[..|s| - 1]) else s
  }

  function Sanitize(name: string): string {
    var out := TrimBack(TrimFront(Mapped(name)));
    if out == "" then "server" else out
  }

  lemma {:induction false} MappedAppend(a: string, b: string)
    ensures Mapped(a + b) == Mapped(a) + Mapped(b)
  {
    if a == "" {
      assert a + b == b;
    } else {
      assert (a + b)[1..] == a[1..] + b;
      MappedAppend(a[1..], b);
    }
  }

  /** Of each character: letters and digits stay, each blank, hyphen and underscore is an underscore, and
      everything else goes. */
  lemma MappedByChar(a: string, c: char, b: string)
    ensures Mapped("") == ""
    ensures Mapped(a + [c] + b)
         == Mapped(a) + (if c in " -_" then "_"
                         else if '0' <= c <= '9' || 'A' <= c <= 'Z' || 'a' <= c <= 'z' then [c] else "") + Mapped(b)
  {
    MappedAppend(a + [c], b);
    MappedAppend(a, [c]);
    assert [c][1..] == "";
  }

  lemma {:induction false} TrimFrontDrops(s: string) returns (front: string)
    ensures front + TrimFront(s) == s && forall i | 0 <= i < |front| :: front[i] == '_'
  {
    if s != "" && s[0] == '_' {
      var rest := TrimFrontDrops(s[1..]);
      front := ['_'] + rest;
      assert front + TrimFront(s) == ['_'] + (rest + TrimFront(s));
    } else {
      front := "";
    }
  }

  lemma {:induction false} TrimBackDrops(s: string) returns (back: string)
    ensures TrimBack(s) + back == s && forall i | 0 <= i < |back| :: back[i] == '_'
  {
    if s != "" && s[|s| - 1] == '_' {
      var rest := TrimBackDrops(s[..|s| - 1]);
      back := rest + ['_'];
      assert TrimBack(s) + back == (TrimBack(s) + rest) + ['_'];
    } else {
      back := "";
    }
  }

  /** The sanitised form of any name: what its characters become, without the underscores at both ends; and
      `server`, when that leaves nothing. */
  lemma SanitizeMeaning(name: string) returns (front: string, back: string)
    ensures forall i | 0 <= i < |front| :: front[i] == '_'
    ensures forall i | 0 <= i < |back| :: back[i] == '_'
    ensures || Mapped(name) == front + Sanitize(name) + back
            || (Mapped(name) == front + back && Sanitize(name) == "server")
    ensures Sanitize(name)[0] != '_' && Sanitize(name)[|Sanitize(name)| - 1] != '_'
  {
    front := TrimFrontDrops(Mapped(name));
    back := TrimBackDrops(TrimFront(Mapped(name)));
    SanitizeIsBase(name);
    var kept := TrimBack(TrimFront(Mapped(name)));
    assert Mapped(name) == front + (kept + back) == front + kept + back;
    if kept == "" {
      assert front + kept + back == front + back;
    }
  }

  method SanitizeInstanceId(name: string) returns (out: string)
    ensures out == Sanitize(name)
  {
    out := "";
    for i := 0 to |name|
      invariant out == Mapped(name[..i])
    {
      var c := name[i];
      assert name[..i + 1] == name[..i] + [c];
      MappedAppend(name[..i], [c]);
      if Alphanumeric(c) {
        out := out + [c];
      } else if Blank(c) {
        out := out + ['_'];
      }
    }
    assert name[..|name|] == name;
    while out != "" && out[0] == '_'
      invariant TrimFront(out) == TrimFront(Mapped(name))
      decreases |out|
    {
      out := out[1..];
    }
    while out != "" && out[|out| - 1] == '_'
      invariant TrimBack(out) == TrimBack(TrimFront(Mapped(name)))
      decreases |out|
    {
      out := out[..|out| - 1];
    }
    if out == "" {
      out := "server";
    }
  }

  /** The names the store hands out. */
  predicate IsBase(s: string) {
    && s != "" && s[0] != '_' && s[|s| - 1] != '_'
    && forall i | 0 <= i < |s| :: Alphanumeric(s[i]) || s[i] == '_'
  }

  lemma {:induction false} MappedIsClean(name: string)
    ensures forall i | 0 <= i < |Mapped(name)| :: Alphanumeric(Mapped(name)[i]) || Mapped(name)[i] == '_'
  {
    if name != "" {
      MappedIsClean(name[1..]);
    }
  }

  lemma {:induction false} MappedFixesClean(s: string)
    requires forall i | 0 <= i < |s| :: Alphanumeric(s[i]) || s[i] == '_'
    ensures Mapped(s) == s
  {
    if s != "" {
      MappedFixesClean(s[1..]);
      assert [s[0]] + s[1..] == s;
    }
  }

  lemma {:induction false} TrimFrontIsSuffix(s: string)
    ensures var r := TrimFront(s);
            |r| <= |s| && r == s[|s| - |r|..] && (r != "" ==> r[0] != '_')
  {
    if s != "" && s[0] == '_' {
      TrimFrontIsSuffix(s[1..]);
    }
  }

  lemma {:induction false} TrimBackIsPrefix(s: string)
    ensures var r := TrimBack(s);
            |r| <= |s| && r == s[..|r|] && (r != "" ==> r[|r| - 1] != '_')
  {
    if s != "" && s[|s| - 1] == '_' {
      TrimBackIsPrefix(s[..|s| - 1]);
    }
  }

  /** Every display name, the empty one and one without a usable character too, becomes a usable name. */
  lemma SanitizeIsBase(name: string)
    ensures IsBase(Sanitize(name))
  {
    var mapped := Mapped(name);
    var front := TrimFront(mapped);
    var both := TrimBack(front);
    MappedIsClean(name);
    TrimFrontIsSuffix(mapped);
    TrimBackIsPrefix(front);
    assert forall i | 0 <= i < |both| :: both[i] == front[i] && front[i] == mapped[|mapped| - |front| + i];
  }

  lemma SanitizeFixesBase(s: string)
    requires IsBase(s)
    ensures Sanitize(s) == s
  {
    MappedFixesClean(s);
  }

  lemma SanitizeIdempotent(name: string)
    ensures Sanitize(Sanitize(name)) == Sanitize(name)
  {
    SanitizeIsBase(name);
    SanitizeFixesBase(Sanitize(name));
  }

  // ----- The search for a free directory name

  function Candidate(base: string, k: nat): string {
    if k == 0 then base else base + "-" + ToDecimal(k + 1)
  }

  /** The names that are tried are the base, then the base with `-2`, `-3` and so on behind it. */
  lemma CandidatesByNumber(base: string, n: nat)
    requires n >= 2
    ensures Candidate(base, 0) == base && Candidate(base, n - 1) == base + "-" + ToDecimal(n)
    ensures Candidate(base, 1) == base + "-2" && Candidate(base, 2) == base + "-3"
  {
    assert ToDecimal(2) == "2" && ToDecimal(3) == "3";
  }

  /** File names are compared up to a folding of letters that leaves digits and the hyphen alone. */
  ghost predicate LetterFolding(up: char -> char) {
    Isolates(up, '-') && forall c {:trigger up(c)} | IsDigit(c) :: up(c) == c
  }

  predicate Taken(up: char -> char, names: set<string>, id: string) {
    exists d | d in names :: Same(up, d, id)
  }

  /** No two candidates name the same directory. */
  lemma CandidatesDiffer(up: char -> char, base: string, j: nat, k: nat)
    requires LetterFolding(up) && j != k
    ensures !Same(up, Candidate(base, j), Candidate(base, k))
  {
    var a, b := Candidate(base, j), Candidate(base, k);
    if j > 0 && k > 0 && Same(up, a, b) {
      var m, n := ToDecimal(j + 1), ToDecimal(k + 1);
      var at := |base| + 1;
      forall i | 0 <= i < |m| ensures m[i] == n[i] {
        assert a[at + i] == m[i] && b[at + i] == n[i];
        assert up(a[at + i]) == up(b[at + i]);
      }
      assert m == n;
      DecimalInjective(j + 1, k + 1);
    }
  }

  /** A numbered name is never the plain name of another instance, now or later. */
  lemma NumberedIsNoBase(up: char -> char, base: string, k: nat, name: string)
    requires LetterFolding(up) && k > 0
    ensures !Same(up, Candidate(base, k), Sanitize(name))
  {
    SanitizeIsBase(name);
    var id := Candidate(base, k);
    assert id[|base|] == '-';
    assert forall i | 0 <= i < |Sanitize(name)| :: up(Sanitize(name)[i]) != '-';
  }

  /** The first candidate that names no existing directory. */
  ghost predicate IsFirstFree(up: char -> char, names: set<string>, base: string, k: nat) {
    !Taken(up, names, Candidate(base, k)) && forall j: nat | j < k :: Taken(up, names, Candidate(base, j))
  }

  /** It comes after no more taken candidates than there are names. */
  ghost predicate IsFreeId(up: char -> char, names: set<string>, base: string, id: string) {
    exists k: nat | k <= |names| :: id == Candidate(base, k) && IsFirstFree(up, names, base, k)
  }

  /** Names not yet used up by a candidate before `k`. */
  ghost predicate Unused(up: char -> char, names: set<string>, base: string, k: nat, rest: set<string>) {
    rest <= names && forall d | d in names && d !in rest :: UsedUp(up, base, k, d)
  }

  ghost predicate UsedUp(up: char -> char, base: string, k: nat, d: string) {
    exists j: nat | j < k :: Same(up, d, Candidate(base, j))
  }

  /** The pigeonhole: a taken candidate uses up a name that no earlier candidate did. */
  lemma UseUp(up: char -> char, names: set<string>, base: string, k: nat, rest: set<string>) returns (d: string)
    requires LetterFolding(up) && Unused(up, names, base, k, rest) && Taken(up, names, Candidate(base, k))
    ensures d in rest && Unused(up, names, base, k + 1, rest - {d})
  {
    var id := Candidate(base, k);
    d :| d in names && Same(up, d, id);
    if UsedUp(up, base, k, d) {
      var j: nat :| j < k && Same(up, d, Candidate(base, j));
      CandidatesDiffer(up, base, j, k);
      assert false;
    }
    forall x | x in names && x !in rest - {d} ensures UsedUp(up, base, k + 1, x) {
      if x != d {
        var j: nat :| j < k && Same(up, x, Candidate(base, j));
        assert j < k + 1;
      }
    }
  }

  /** Ends for every finite set of names, after at most as many steps as there are names. */
  method FindFreeId(up: char -> char, names: set<string>, base: string) returns (id: string)
    requires LetterFolding(up)
    ensures IsFreeId(up, names, base, id)
  {
    id := base;
    var n := 2;
    ghost var k := 0;
    ghost var rest := names;
    while Taken(up, names, id)
      invariant id == Candidate(base, k) && n == k + 2
      invariant forall j: nat | j < k :: Taken(up, names, Candidate(base, j))
      invariant Unused(up, names, base, k, rest) && k + |rest| <= |names|
      decreases rest
    {
      ghost var d := UseUp(up, names, base, k, rest);
      rest := rest - {d};
      id := base + "-" + ToDecimal(n);
      n := n + 1;
      k := k + 1;
    }
    assert IsFirstFree(up, names, base, k);
  }

  /** There is one such name, and it is free. */
  lemma FreeIdIsUnique(up: char -> char, names: set<string>, base: string, a: string, b: string)
    requires IsFreeId(up, names, base, a) && IsFreeId(up, names, base, b)
    ensures a == b && !Taken(up, names, a)
  {
  }

  // ----- What a directory holds, and the name it is shown by

  /** The files that creating an instance writes; those that it could not write are missing. */
  datatype Folder = Folder(jar: Option<string>, mainClass: Option<string>, name: Option<string>, eula: bool)

  predicate EndBlank(c: char) { c == '\r' || c == '\n' || c == ' ' || c == '\t' }

  predicate FrontBlank(c: char) { c == ' ' || c == '\t' }

  function DropEnd(s: string): (r: string)
    ensures r <= s && (r != "" ==> !EndBlank(r[|r| - 1]))
  {
    if s != "" && EndBlank(s[|s| - 1]) then DropEnd(s[..|s| - 1]) else s
  }

  function DropFront(s: string): (r: string)
    ensures |r| <= |s| && (r != "" ==> !FrontBlank(r[0]))
  {
    if s != "" && FrontBlank(s[0]) then DropFront(s[1..]) else s
  }

  /** `ReadFirstLineW`: the first line without the blanks at its ends. */
  function FirstLine(content: string): string {
    DropFront(DropEnd(Split(content, '\n')[0]))
  }

  /** The label of a directory that holds a server: its name file's first line, else the directory's name. */
  function LabelOf(id: string, folder: Folder): string {
    var line := if folder.name.Some? then FirstLine(folder.name.value) else "";
    if line == "" then id else line
  }

  /** A name that fits on one line and has no blanks at its ends. */
  predicate OneLine(s: string) {
    s != "" && '\n' !in s && !FrontBlank(s[0]) && !EndBlank(s[|s| - 1])
  }

  lemma {:induction false} NoBlankEnds(s: string)
    ensures DropFront(DropEnd(s)) == s <==> s == "" || (!FrontBlank(s[0]) && !EndBlank(s[|s| - 1]))
  {
    if s != "" && EndBlank(s[|s| - 1]) {
      assert DropEnd(s) <= s[..|s| - 1];
    }
  }

  /** What is shown is the name that was typed exactly when that is one line without blanks at its ends;
      with nothing typed the directory's name is shown. */
  lemma LabelIsTheTypedName(typed: string, id: string, folder: Folder)
    requires IsBaseOrNumbered(id) && folder.name == Some(if typed == "" then id else typed)
    ensures typed == "" ==> LabelOf(id, folder) == id
    ensures typed != "" ==> (LabelOf(id, folder) == typed <==> OneLine(typed))
  {
    var content := folder.name.value;
    FirstPiece(content);
    NoBlankEnds(content);
    assert '\n' in content ==> |FirstLine(content)| < |content|;
  }

  /** Without a name file, or with one whose first line is blank, the directory's name is shown. */
  lemma LabelWithoutName(id: string, folder: Folder, blanks: string, rest: string)
    requires forall i | 0 <= i < |blanks| :: blanks[i] in " \t\r"
    requires folder.name == None || folder.name == Some(blanks) || folder.name == Some(blanks + "\n" + rest)
    ensures LabelOf(id, folder) == id
  {
    if folder.name.Some? {
      assert '\n' !in blanks;
      FirstPiece(blanks);
      if folder.name.value != blanks {
        SplitAtSeparator(blanks, rest, '\n');
        SplitOnePiece(blanks, '\n');
      }
      AllBlankDrops(blanks);
    }
  }

  lemma {:induction false} AllBlankDrops(s: string)
    requires forall i | 0 <= i < |s| :: s[i] in " \t\r"
    ensures DropEnd(s) == ""
  {
    if s != "" {
      AllBlankDrops(s[..|s| - 1]);
    }
  }

  lemma {:induction false} FirstPiece(s: string)
    ensures '\n' !in s ==> Split(s, '\n')[0] == s
    ensures '\n' in s ==> |Split(s, '\n')[0]| < |s|
    ensures Split(s, '\n')[0] <= s
  {
    if s != "" && s[0] != '\n' {
      FirstPiece(s[1..]);
      assert s == [s[0]] + s[1..];
    }
  }

  /** Directory names that the store makes. */
  predicate IsBaseOrNumbered(id: string) {
    OneLine(id) && forall i | 0 <= i < |id| :: Alphanumeric(id[i]) || id[i] == '_' || id[i] == '-'
  }

  lemma CandidateIsName(typed: string, k: nat)
    ensures IsBaseOrNumbered(Candidate(Sanitize(typed), k))
  {
    SanitizeIsBase(typed);
    var id, base := Candidate(Sanitize(typed), k), Sanitize(typed);
    assert id[0] == base[0];
    if k > 0 {
      var digits := ToDecimal(k + 1);
      assert id[|id| - 1] == digits[|digits| - 1];
      forall i | 0 <= i < |id| ensures Alphanumeric(id[i]) || id[i] == '_' || id[i] == '-' {
        if i > |base| {
          assert id[i] == digits[i - |base| - 1];
        }
      }
    }
  }

  // ----- The store

  /** What the system answers while an instance is made: whether the directory is made, the server copied,
      and, if not, the directory removed again; whether the other files are written. */
  datatype Luck = Luck(makes: bool, copies: bool, cleans: bool, copiesMain: bool, names: bool, eulas: bool)

  class InstanceStore {
    const up: char -> char
    var folders: map<string, Folder>

    constructor (up: char -> char)
      requires LetterFolding(up)
      ensures Valid() && this.up == up && folders == map[]
    {
      this.up := up;
      folders := map[];
    }

    /** No two instances share a directory. */
    ghost predicate Valid()
      reads this
    {
      LetterFolding(up) && forall a, b | a in folders && b in folders && a != b :: !Same(up, a, b)
    }

    /** The new directory is free, holds the server and what came with it, and every other directory stays as
        it was; a failure leaves the store as it was, or one directory without a server. */
    method CreateInstance(displayName: string, jar: string, mainClass: Option<string>, luck: Luck)
      returns (ok: bool, id: string)
      requires Valid()
      modifies this
      ensures Valid() && (ok <==> luck.makes && luck.copies)
      ensures IsFreeId(up, old(folders.Keys), Sanitize(displayName), id) && IsBaseOrNumbered(id)
      ensures ok ==> folders == old(folders)[id := Folder(
                       Some(jar), if luck.copiesMain then mainClass else None,
                       if luck.names then Some(if displayName == "" then id else displayName) else None, luck.eulas)]
      ensures !ok ==> folders == if luck.makes && !luck.cleans then old(folders)[id := Folder(None, None, None, false)]
                                 else old(folders)
    {
      var base := SanitizeInstanceId(displayName);
      id := FindFreeId(up, folders.Keys, base);
      FreeIdIsName(up, folders.Keys, displayName, id);
      Distinct(up, folders.Keys, id);
      ok := luck.makes;
      if !ok {
        return;
      }
      if !luck.copies {
        if !luck.cleans {
          folders := folders[id := Folder(None, None, None, false)];
        }
        ok := false;
        return;
      }
      var main := if luck.copiesMain then mainClass else None;
      var shown := if displayName == "" then id else displayName;
      folders := folders[id := Folder(Some(jar), main, if luck.names then Some(shown) else None, luck.eulas)];
    }

    method DeleteInstance(id: string, cleans: bool) returns (ok: bool)
      requires Valid()
      modifies this
      ensures Valid()
      ensures ok <==> id != "" && Taken(up, old(folders.Keys), id) && cleans
      ensures forall d :: d in folders <==> d in old(folders) && !(ok && Same(up, d, id))
      ensures forall d | d in folders :: folders[d] == old(folders)[d]
    {
      ok := id != "" && Taken(up, folders.Keys, id) && cleans;
      if ok {
        folders := map d | d in folders && !Same(up, d, id) :: folders[d];
      }
    }
  }

  lemma FreeIdIsName(up: char -> char, names: set<string>, typed: string, id: string)
    requires IsFreeId(up, names, Sanitize(typed), id)
    ensures IsBaseOrNumbered(id) && !Taken(up, names, id)
  {
    var k: nat :| k <= |names| && id == Candidate(Sanitize(typed), k) && IsFirstFree(up, names, Sanitize(typed), k);
    CandidateIsName(typed, k);
  }

  lemma Distinct(up: char -> char, names: set<string>, id: string)
    requires !Taken(up, names, id)
    ensures id !in names
    ensures forall a | a in names :: !Same(up, a, id) && !Same(up, id, a)
  {
    assert Same(up, id, id);
    forall a | a in names ensures !Same(up, id, a) {
      if Same(up, id, a) {
        SameSymmetric(up, id, a);
      }
    }
  }
}
