/** The registry of open zip file systems, keyed by real path: it relies on the canonical form and on
    equality up to case. */
module ZipRegistry {
  import opened Text
  import opened CaseFold
  import opened Paths
  import opened PathAlgebra
  import opened Canonical

  // ----- Keys

  /** `xboxRealPath` of an absolute path, as a key of the registry; `answer` is what the operating system
      says to the real-path call at that moment, `None` when it denies the call. */
  function Key(fs: FileSystem, p: Path, answer: Option<string>): string
    requires Valid(p) && p.IsAbsolute() && fs.dir.root != ""
  {
    match RealPath(fs, p, answer)
    case Some(r) => FoldText(fs.fold.up, r.path)
    case None => FoldText(fs.fold.up, p.path)
  }

  /** While real paths are denied, two absolute spellings share a key exactly when their roots and their
      reduced names agree up to case. */
  lemma SpellingsShareKey(fs: FileSystem, p: Path, q: Path)
    requires FsOk(fs) && Valid(p) && Valid(q) && p.IsAbsolute() && q.IsAbsolute()
    ensures fs.dir.root != ""
    ensures Key(fs, p, None) == Key(fs, q, None) <==>
            Same(fs.fold.up, p.root, q.root) && SameNames(fs.fold.up, Reduced(p), Reduced(q))
  {
    var g := fs.fold.up;
    CanonicalIsValid(fs, p);
    CanonicalIsValid(fs, q);
    ToAbsoluteMeaning(fs, p);
    ToAbsoluteMeaning(fs, q);
    NormalizeIsValid(p);
    NormalizeIsValid(q);
    FoldTextIffSame(g, Normalize(p).path, Normalize(q).path);
    if Equal(g, Normalize(p), Normalize(q)) {
      EqualShape(g, Normalize(p), Normalize(q));
    }
    if Same(g, p.root, q.root) && SameNames(g, Reduced(p), Reduced(q)) {
      EqualFromShape(g, Normalize(p), Normalize(q));
    }
  }

  /** Where the call is answered, the answers decide: two paths share a key exactly when the paths that the
      system gave are equal, and an answered path shares one with a denied path exactly when its answer is equal
      to the other's normal form. */
  lemma AnswersShareKey(fs: FileSystem, p: Path, q: Path, a: Path, b: Path)
    requires FsOk(fs) && Valid(p) && Valid(q) && p.IsAbsolute() && q.IsAbsolute() && Valid(a) && Valid(b)
    ensures fs.dir.root != ""
    ensures Key(fs, p, Some(a.path)) == Key(fs, q, Some(b.path)) <==> Equal(fs.fold.up, a, b)
    ensures Key(fs, p, Some(a.path)) == Key(fs, q, None) <==> Equal(fs.fold.up, a, Normalize(q))
  {
    CanonicalIsValid(fs, q);
    ToAbsoluteMeaning(fs, q);
    AnsweredRealPath(fs, p, a);
    AnsweredRealPath(fs, q, b);
    FoldTextIffSame(fs.fold.up, a.path, b.path);
    FoldTextIffSame(fs.fold.up, a.path, Normalize(q).path);
  }

  // ----- The registry

  /** What `readAttributes` says of the file: it fails, it is a regular file, or something else. */
  datatype FileState = Missing | Regular | NotRegular

  datatype OpenResult = Opened(zip: nat) | AlreadyExists | Unsupported | Broken

  /** Registered instances, each known by a number of its own. */
  type Registry = map<string, nat>

  /** `newFileSystem(URI)`: `made` is the new instance, `None` when opening the zip fails. */
  function OpenByUri(reg: Registry, key: string, file: FileState, made: Option<nat>): (Registry, OpenResult) {
    if file.NotRegular? then (reg, Unsupported)
    else if file.Regular? && key in reg then (reg, AlreadyExists)
    else match made
      case None => (reg, Broken)
      case Some(zip) => (reg[key := zip], Opened(zip))
  }

  /** `Map.remove(key, value)`. */
  function Remove(reg: Registry, key: string, zip: nat): Registry {
    if key in reg && reg[key] == zip then reg - {key} else reg
  }

  // ----- Whole runs

  /** An instance: the key it was registered under, `None` when it was opened by path, and whether it is
      open. */
  datatype Zip = Zip(origin: Option<string>, isOpen: bool)

  /** Keys are those that the real-path calls give at the moment of the event: a close may meet another key
      than the open did. */
  datatype Event =
    | OpenUri(key: string, file: FileState, opens: bool)
    | OpenPath(file: FileState, opens: bool)
    | Close(zip: nat, key: string)

  /** `zips[i]` is the i-th instance ever made. */
  datatype World = World(reg: Registry, zips: seq<Zip>)

  const START := World(map[], [])

  function Happen(w: World, e: Event): World {
    match e
    case OpenUri(key, file, opens) =>
      var (reg, r) := OpenByUri(w.reg, key, file, if opens then Some(|w.zips|) else None);
      if r.Opened? then World(reg, w.zips + [Zip(Some(key), true)]) else w
    case OpenPath(file, opens) =>
      if file.NotRegular? || !opens then w else w.(zips := w.zips + [Zip(None, true)])
    case Close(zip, key) =>
      World(Remove(w.reg, key, zip),
            if zip < |w.zips| then w.zips[zip := w.zips[zip].(isOpen := false)] else w.zips)
  }

  function Run(w: World, events: seq<Event>): World
    decreases |events|
  {
    if events == [] then w else Run(Happen(w, events[0]), events[1..])
  }

  /** Every registered instance was opened through a URI under the key it stands at. */
  ghost predicate Sound(w: World) {
    forall key {:trigger w.reg[key]} | key in w.reg ::
      w.reg[key] < |w.zips| && w.zips[w.reg[key]].origin == Some(key)
  }

  /** Nothing closed is still registered. */
  ghost predicate NoLeak(w: World) {
    forall key {:trigger w.reg[key]} | key in w.reg :: w.reg[key] < |w.zips| && w.zips[w.reg[key]].isOpen
  }

  /** A close that meets the key its instance was registered under. */
  predicate Steady(w: World, e: Event) {
    e.Close? && e.zip < |w.zips| && w.zips[e.zip].origin.Some? ==> e.key == w.zips[e.zip].origin.value
  }

  predicate AllSteady(w: World, events: seq<Event>)
    decreases |events|
  {
    events == [] || (Steady(w, events[0]) && AllSteady(Happen(w, events[0]), events[1..]))
  }

  lemma HappenKeepsSound(w: World, e: Event)
    requires Sound(w)
    ensures Sound(Happen(w, e)) && (NoLeak(w) && Steady(w, e) ==> NoLeak(Happen(w, e)))
  {
  }

  /** In every run the registered instances were opened by URI under their key, and while the keys are
      steady each of them is open. */
  lemma {:induction false} RunKeepsSound(w: World, events: seq<Event>)
    requires Sound(w)
    ensures Sound(Run(w, events)) && (NoLeak(w) && AllSteady(w, events) ==> NoLeak(Run(w, events)))
    decreases |events|
  {
    if events != [] {
      HappenKeepsSound(w, events[0]);
      RunKeepsSound(Happen(w, events[0]), events[1..]);
    }
  }

  lemma {:induction false} RunSnoc(w: World, events: seq<Event>, e: Event)
    ensures Run(w, events + [e]) == Happen(Run(w, events), e)
    decreases |events|
  {
    if events == [] {
      assert [e][1..] == [];
    } else {
      assert (events + [e])[1..] == events[1..] + [e];
      RunSnoc(Happen(w, events[0]), events[1..], e);
    }
  }

  /** In every reachable state: opening a registered file that is there is refused and changes nothing;
      closing an instance leaves every other registration in place and adds none, and when it was opened by
      path it leaves the registry alone. */
  lemma RegistryIsSafe(events: seq<Event>, e: Event)
    ensures var w := Run(START, events);
            var after := Happen(w, e);
            Sound(w)
            && (e.OpenUri? && e.file.Regular? && e.key in w.reg ==> after == w)
            && (e.Close? ==>
                  (forall key | key in w.reg && w.reg[key] != e.zip :: key in after.reg && after.reg[key] == w.reg[key])
                  && (forall key | key in after.reg :: key in w.reg && after.reg[key] == w.reg[key])
                  && (e.zip < |w.zips| && w.zips[e.zip].origin.None? ==> after.reg == w.reg))
  {
    RunKeepsSound(START, events);
  }

  /** A close leaves its own registration behind exactly when the key it meets is not the one of the open. */
  lemma CloseLeaks(events: seq<Event>, key: string, met: string)
    requires key in Run(START, events).reg
    ensures var w := Run(START, events);
            var after := Happen(w, Close(w.reg[key], met));
            w.reg[key] < |after.zips| && after.zips[w.reg[key]] == Zip(Some(key), false)
            && (key in after.reg <==> met != key)
  {
    RunKeepsSound(START, events);
  }

  /** What ends the registration of instance `z` under `key`: its close, and an open of the same key while
      the file cannot be read, which replaces it without being refused. */
  predicate Ends(e: Event, key: string, z: nat) {
    || (e.Close? && e.zip == z && e.key == key)
    || (e.OpenUri? && e.key == key && e.file.Missing? && e.opens)
  }

  lemma RegistrationLasts(events: seq<Event>, e: Event, key: string)
    requires key in Run(START, events).reg
    ensures var w := Run(START, events);
            var after := Happen(w, e);
            (key in after.reg && after.reg[key] == w.reg[key]) <==> !Ends(e, key, w.reg[key])
  {
    RunKeepsSound(START, events);
  }

  // ----- What a lookup finds

  /** In `w`, the event opens the zip under `key`, is not refused, and makes instance `z`. */
  predicate Opens(w: World, e: Event, key: string, z: nat) {
    && e.OpenUri? && e.key == key && e.opens && z == |w.zips|
    && (e.file.Missing? || (e.file.Regular? && key !in w.reg))
  }

  predicate OpensAt(events: seq<Event>, j: nat, key: string, z: nat)
    requires j < |events|
  {
    Opens(Run(START, events[..j]), events[j], key, z)
  }

  /** Some event opened `z` under `key`, and none after it ended that. */
  ghost predicate StandsFor(events: seq<Event>, key: string, z: nat) {
    exists j | 0 <= j < |events| ::
      OpensAt(events, j, key, z) && forall k | j < k < |events| :: !Ends(events[k], key, z)
  }

  lemma StandsStep(events: seq<Event>, e: Event, key: string, z: nat)
    ensures var n := |events|;
            StandsFor(events + [e], key, z) <==>
              OpensAt(events + [e], n, key, z) || (StandsFor(events, key, z) && !Ends(e, key, z))
  {
    var n, all := |events|, events + [e];
    forall j | 0 <= j < n ensures all[..j] == events[..j] && all[j] == events[j] {
    }
    if StandsFor(all, key, z) && !OpensAt(all, n, key, z) {
      var j :| 0 <= j < |all| && OpensAt(all, j, key, z) && forall k | j < k < |all| :: !Ends(all[k], key, z);
      assert OpensAt(events, j, key, z);
      assert all[n] == e;
    }
    if StandsFor(events, key, z) && !Ends(e, key, z) {
      var j :| 0 <= j < n && OpensAt(events, j, key, z) && forall k | j < k < n :: !Ends(events[k], key, z);
      assert OpensAt(all, j, key, z);
    }
  }

  /** A lookup finds exactly the instance that the last undisturbed open of the key made. */
  lemma {:induction false} LookupFindsLastOpen(events: seq<Event>, key: string, z: nat)
    ensures At(Run(START, events), key, z) <==> StandsFor(events, key, z)
    decreases |events|
  {
    if events != [] {
      var front, e := events[..|events| - 1], events[|events| - 1];
      assert events == front + [e] && (front + [e])[..|front|] == front;
      LookupFindsLastOpen(front, key, z);
      RunSnoc(START, front, e);
      RunKeepsSound(START, front);
      RegistryStep(Run(START, front), e, key, z);
      StandsStep(front, e, key, z);
    }
  }

  predicate At(w: World, key: string, z: nat) { key in w.reg && w.reg[key] == z }

  lemma RegistryStep(w: World, e: Event, key: string, z: nat)
    requires Sound(w)
    ensures At(Happen(w, e), key, z) <==> Opens(w, e, key, z) || (At(w, key, z) && !Ends(e, key, z))
  {
  }

  /** After a successful open by the spelling `p`, looking up any spelling `q` of the same root and reduced
      names gives that instance as long as - and only as long as - no later event ended it. */
  lemma LookupBySpelling(fs: FileSystem, p: Path, q: Path, before: seq<Event>, file: FileState, after: seq<Event>)
    requires FsOk(fs) && Valid(p) && Valid(q) && p.IsAbsolute() && q.IsAbsolute() && fs.dir.root != ""
    requires Same(fs.fold.up, p.root, q.root) && SameNames(fs.fold.up, Reduced(p), Reduced(q))
    requires file.Missing? || (file.Regular? && Key(fs, p, None) !in Run(START, before).reg)
    ensures var key, z := Key(fs, p, None), |Run(START, before).zips|;
            At(Run(START, before + [OpenUri(key, file, true)] + after), Key(fs, q, None), z)
            <==> NoneEnds(after, key, z)
  {
    var open, z := OpenUri(Key(fs, p, None), file, true), |Run(START, before).zips|;
    SpellingsShareKey(fs, p, q);
    StandsSince(before, open, after, z);
    LookupFindsLastOpen(before + [open] + after, open.key, z);
  }

  ghost predicate NoneEnds(after: seq<Event>, key: string, z: nat) {
    forall k | 0 <= k < |after| :: !Ends(after[k], key, z)
  }

  /** An instance is made once, so its registration stands as long as nothing ends it. */
  lemma {:induction false} StandsSince(before: seq<Event>, open: Event, after: seq<Event>, z: nat)
    requires open.OpenUri? && Opens(Run(START, before), open, open.key, z)
    ensures StandsFor(before + [open] + after, open.key, z) <==> NoneEnds(after, open.key, z)
    ensures |Run(START, before + [open] + after).zips| > z
    decreases |after|
  {
    if after == [] {
      assert before + [open] + [] == before + [open] && (before + [open])[..|before|] == before;
      RunSnoc(START, before, open);
      StandsStep(before, open, open.key, z);
    } else {
      var front, e := after[..|after| - 1], after[|after| - 1];
      assert before + [open] + after == before + [open] + front + [e];
      StandsSince(before, open, front, z);
      StandsOn(before + [open] + front, e, open.key, z);
      assert NoneEnds(after, open.key, z) <==> NoneEnds(front, open.key, z) && !Ends(e, open.key, z);
    }
  }

  lemma StandsOn(events: seq<Event>, e: Event, key: string, z: nat)
    requires |Run(START, events).zips| > z
    ensures StandsFor(events + [e], key, z) <==> StandsFor(events, key, z) && !Ends(e, key, z)
    ensures |Run(START, events + [e]).zips| > z
  {
    StandsStep(events, e, key, z);
    RunSnoc(START, events, e);
    assert (events + [e])[..|events|] == events;
  }

  // ----- The provider

  class ZipFileSystemProvider {
    const fs: FileSystem
    var filesystems: Registry
    var made: nat
    ghost var events: seq<Event>

    /** The map is what the events so far have made of it; `made` counts the instances. */
    ghost predicate Valid()
      reads this
    {
      && FsOk(fs) && fs.dir.root != ""
      && filesystems == Run(START, events).reg && made == |Run(START, events).zips|
    }

    constructor (fs: FileSystem)
      requires FsOk(fs) && fs.dir.root != ""
      ensures Valid() && this.fs == fs && events == []
    {
      this.fs, filesystems, made, events := fs, map[], 0, [];
    }

    /** `newFileSystem(URI)`: refused exactly when the file is there and an instance stands for its key;
        opened, the new instance stands for the key, and every other key keeps what stood for it. */
    method NewFileSystem(path: Path, answer: Option<string>, file: FileState, opens: bool) returns (r: OpenResult)
      requires Valid() && Paths.Valid(path) && path.IsAbsolute()
      modifies this
      ensures Valid() && events == old(events) + [OpenUri(Key(fs, path, answer), file, opens)]
      ensures r.Unsupported? <==> file.NotRegular?
      ensures r.AlreadyExists? <==> file.Regular? && exists z :: StandsFor(old(events), Key(fs, path, answer), z)
      ensures r.Opened? <==> !r.Unsupported? && !r.AlreadyExists? && opens
      ensures r.Opened? ==> r.zip == old(made) && StandsFor(events, Key(fs, path, answer), r.zip)
      ensures forall key, z | key != Key(fs, path, answer) ::
                StandsFor(events, key, z) <==> StandsFor(old(events), key, z)
      ensures !r.Opened? ==> filesystems == old(filesystems)
    {
      ghost var was, e := events, OpenUri(Key(fs, path, answer), file, opens);
      RunSnoc(START, was, e);
      events := was + [e];
      OpenEffects(was, e);
      var realPath: Option<string> := None;
      if file.NotRegular? {
        return Unsupported;
      }
      if file.Regular? {
        realPath := Some(Key(fs, path, answer));
        if realPath.value in filesystems {
          return AlreadyExists;
        }
      }
      if !opens {
        return Broken;
      }
      if realPath.None? {
        realPath := Some(Key(fs, path, answer));
      }
      filesystems := filesystems[realPath.value := made];
      r := Opened(made);
      made := made + 1;
    }

    /** `newFileSystem(Path)`: an instance that nothing stands for. */
    method NewUnregistered(file: FileState, opens: bool) returns (r: OpenResult)
      requires Valid()
      modifies this
      ensures Valid() && events == old(events) + [OpenPath(file, opens)] && filesystems == old(filesystems)
      ensures r.Opened? <==> !file.NotRegular? && opens
      ensures r.Opened? ==> r.zip == old(made) && forall key :: !StandsFor(events, key, r.zip)
    {
      ghost var was := events;
      RunSnoc(START, was, OpenPath(file, opens));
      RunKeepsSound(START, was);
      events := was + [OpenPath(file, opens)];
      if file.NotRegular? {
        return Unsupported;
      }
      if !opens {
        return Broken;
      }
      r := Opened(made);
      made := made + 1;
      forall key ensures !StandsFor(events, key, r.zip) {
        LookupFindsLastOpen(events, key, r.zip);
      }
    }

    /** `getFileSystem`: the instance that stands for the key of the path, or the exception. */
    method GetFileSystem(path: Path, answer: Option<string>) returns (r: Option<nat>)
      requires Valid() && Paths.Valid(path) && path.IsAbsolute()
      ensures forall z: nat :: r == Some(z) <==> StandsFor(events, Key(fs, path, answer), z)
    {
      var key := Key(fs, path, answer);
      r := if key in filesystems then Some(filesystems[key]) else None;
      forall z: nat ensures r == Some(z) <==> StandsFor(events, key, z) {
        LookupFindsLastOpen(events, key, z);
      }
    }

    /** `removeFileSystem`, on close: only this instance under this key stops standing. */
    method RemoveFileSystem(path: Path, answer: Option<string>, zip: nat)
      requires Valid() && Paths.Valid(path) && path.IsAbsolute()
      modifies this
      ensures Valid() && events == old(events) + [Close(zip, Key(fs, path, answer))]
      ensures forall key, z :: StandsFor(events, key, z) <==>
                StandsFor(old(events), key, z) && !(key == Key(fs, path, answer) && z == zip)
    {
      ghost var was, e := events, Close(zip, Key(fs, path, answer));
      var key := Key(fs, path, answer);
      if key in filesystems && filesystems[key] == zip {
        filesystems := filesystems - {key};
      }
      RunSnoc(START, was, e);
      events := was + [e];
      forall k, z ensures StandsFor(events, k, z) <==> StandsFor(was, k, z) && !(k == key && z == zip) {
        StandsStep(was, e, k, z);
        assert events[|was|] == e;
      }
    }
  }

  lemma OpenEffects(was: seq<Event>, e: Event)
    requires e.OpenUri?
    ensures e.key in Run(START, was).reg <==> exists z :: StandsFor(was, e.key, z)
    ensures e.opens && (e.file.Missing? || (e.file.Regular? && e.key !in Run(START, was).reg)) ==>
              StandsFor(was + [e], e.key, |Run(START, was).zips|)
    ensures forall key, z | key != e.key :: StandsFor(was + [e], key, z) <==> StandsFor(was, key, z)
  {
    assert (was + [e])[..|was|] == was && (was + [e])[|was|] == e;
    if e.key in Run(START, was).reg {
      LookupFindsLastOpen(was, e.key, Run(START, was).reg[e.key]);
    }
    if z :| StandsFor(was, e.key, z) {
      LookupFindsLastOpen(was, e.key, z);
    }
    StandsStep(was, e, e.key, |Run(START, was).zips|);
    forall key, z | key != e.key ensures StandsFor(was + [e], key, z) <==> StandsFor(was, key, z) {
      StandsStep(was, e, key, z);
    }
  }
}
