/** Creating an instance: from the key that begins naming it to the pass of the main loop that copies a version
    into it, whatever happens between. */
module NamingRuns {
  import opened Text
  import opened Host
  import opened HostRuns

  // ----- Passes of the main loop

  /** A pass of the main loop after the events: the mark is looked at, the list read again if it is up, and
      the name polled. */
  function Pass(m: Machine, r: Reply): Outcome {
    if m.f.dirty then Run(m, [Go(r), Go(r), Go(r), Go(r)]) else Run(m, [Go(r), Go(r), Go(r)])
  }

  lemma PassIs(m: Machine, r: Reply)
    requires m.at.Events? && Covers(r.versions, m.disk)
    ensures Pass(m, r) == Went(m.(f := PassFields(m.f, r)))
  {
    var a := m.(at := Dirty);
    assert [Go(r), Go(r), Go(r), Go(r)][1..] == [Go(r), Go(r), Go(r)];
    assert [Go(r), Go(r), Go(r)][1..] == [Go(r), Go(r)] && [Go(r), Go(r)][1..] == [Go(r)] && [Go(r)][1..] == [];
    assert Next(m, Go(r)) == Went(a);
    if m.f.dirty {
      var b := a.(at := Rescanning(m.disk), f := m.f.(dirty := false));
      var c := b.(at := Naming, f := Rescan(b.f, r.versions));
      var d := c.(at := Events, f := PollNaming(c.f, r));
      assert Next(a, Go(r)) == Went(b) && Next(b, Go(r)) == Went(c) && Next(c, Go(r)) == Went(d);
      assert Run(d, []) == Went(d) && Run(c, [Go(r)]) == Went(d) && Run(b, [Go(r), Go(r)]) == Went(d);
      assert Run(a, [Go(r), Go(r), Go(r)]) == Went(d);
    } else {
      var c := a.(at := Naming);
      var d := c.(at := Events, f := PollNaming(c.f, r));
      assert Next(a, Go(r)) == Went(c) && Next(c, Go(r)) == Went(d);
      assert Run(d, []) == Went(d) && Run(c, [Go(r)]) == Went(d) && Run(a, [Go(r), Go(r)]) == Went(d);
    }
  }

  function Passes(m: Machine, rs: seq<Reply>): Outcome
    decreases |rs|
  {
    if rs == [] then Went(m)
    else match Pass(m, rs[0])
      case Went(n) => Passes(n, rs[1..])
      case Blocked => Blocked
      case Fault => Fault
  }

  /** Replies that do not submit the name and find every version on the disk. */
  predicate Typing(rs: seq<Reply>, disk: set<string>) {
    forall i | 0 <= i < |rs| :: !rs[i].submitted && Covers(rs[i].versions, disk)
  }

  predicate StaysActive(rs: seq<Reply>) {
    forall i | 0 <= i < |rs| :: rs[i].active
  }

  /** However many passes go by while the name is typed: the remembered index stays, the first pass alone may
      read the list again, and naming ends only when the entry is seen inactive. */
  lemma {:induction false} TypingPasses(m: Machine, rs: seq<Reply>)
    requires m.at.Events? && m.f.screen.NewServer? && Typing(rs, m.disk)
    ensures Passes(m, rs).Went?
    ensures var n := Passes(m, rs).m;
            && n.at.Events? && n.disk == m.disk && n.f.screen.NewServer? && n.f.createFrom == m.f.createFrom
            && n.f.versions == (if m.f.dirty && rs != [] then rs[0].versions else m.f.versions)
            && (n.f.dirty <==> m.f.dirty && rs == [])
            && (m.f.naming && StaysActive(rs) ==> n.f.naming)
    decreases |rs|
  {
    if rs != [] {
      PassIs(m, rs[0]);
      TypingPasses(Pass(m, rs[0]).m, rs[1..]);
    }
  }

  /** Naming begins for the selected version, any number of passes go by, and then the name is submitted. The
      version that is copied is the selected one when no mark was up; with a mark, it is whatever the list
      read by the first of these passes has at the same place. */
  lemma CopiedThroughPasses(m: Machine, r: Reply, rs: seq<Reply>, s: Reply)
    requires Reachable(m) && m.at.Events? && m.f.screen.NewServer? && m.f.versions != []
    requires !r.active && Covers(r.versions, m.disk)
    requires Typing(rs, m.disk) && s.submitted && Covers(s.versions, m.disk)
    ensures 0 <= m.f.versionSel < |m.f.versions|
    ensures var begun := OnKey(m, Accept, r);
            begun.Went? && Passes(begun.m, rs).Went?
            && var typed := Passes(begun.m, rs).m;
               var read := if rs == [] then s.versions else rs[0].versions;
               && Pass(typed, s).Went?
               && (StaysActive(rs) ==> typed.f.naming)
               && (typed.f.naming ==>
                     Copied(typed.f, s)
                     == if !m.f.dirty then Some(m.f.versions[m.f.versionSel])
                        else if m.f.versionSel < |read| then Some(read[m.f.versionSel]) else None)
  {
    ReachableIsSound(m);
    var begun := OnKey(m, Accept, r).m;
    TypingPasses(begun, rs);
    PassIs(Passes(begun, rs).m, s);
  }

  /** Between the passes nothing else moves: keys are ignored while the entry is active, and no worker has a
      write left. */
  lemma NothingElseMoves(m: Machine, e: Event)
    requires Reachable(m) && m.f.screen.NewServer? && Next(m, e).Went?
    requires e.Work? || (e.Press? && e.reply.active)
    ensures var n := Next(m, e).m; n.f == m.f && n.at == m.at && n.disk == m.disk && n.epoch == m.epoch
  {
    ReachableIsSound(m);
    if e.Work? && !Over(m.workers[e.i]) {
      WorkerIsLatest(m, e.i, m.workers[e.i]);
    }
  }

  // ----- Any steps between

  /** A key press that begins naming an instance. */
  predicate BeginsNaming(m: Machine, e: Event) {
    e.Press? && e.key.Accept? && !e.reply.active && m.f.screen.NewServer? && m.f.versions != []
  }

  /** What a step that reads the versions again finds: the rescan of the main loop, entering the new-server
      screen, and removing a version. */
  function ListRead(m: Machine, e: Event): Option<seq<Version>> {
    match e
    case Go(r) => if m.at.Rescanning? then Some(r.versions) else None
    case Press(key, r) =>
      if m.f.screen.Launcher? then
        if key.New? && !m.f.confirmDelete && !m.f.serverStarted then Some(r.versions) else None
      else if m.f.screen.NewServer? && key.Remove? && !r.active && TakesAway(m.f) then Some(r.versions)
      else None
    case Work(_, _, _) => None
  }

  predicate TakesAway(f: Fields) {
    0 <= f.versionSel < |f.versions| && !f.versions[f.versionSel].bundled
  }

  function OrElse(o: Option<seq<Version>>, list: seq<Version>): seq<Version> {
    match o
    case None => list
    case Some(read) => read
  }

  /** What the last step that read the versions found; `list` when none did. */
  function LastRead(m: Machine, events: seq<Event>, list: seq<Version>): seq<Version>
    decreases |events|
  {
    if events == [] || !Next(m, events[0]).Went? then list
    else LastRead(Next(m, events[0]).m, events[1..], OrElse(ListRead(m, events[0]), list))
  }

  predicate NoneBegins(m: Machine, events: seq<Event>)
    decreases |events|
  {
    events == [] || !Next(m, events[0]).Went?
    || (!BeginsNaming(m, events[0]) && NoneBegins(Next(m, events[0]).m, events[1..]))
  }

  /** What one step does to the remembered index, to the list, and to naming. */
  predicate Remembers(m: Machine, e: Event, n: Machine) {
    && n.f.createFrom == (if BeginsNaming(m, e) then m.f.versionSel else m.f.createFrom)
    && n.f.versions == OrElse(ListRead(m, e), m.f.versions)
    && (n.f.naming ==> m.f.naming || BeginsNaming(m, e))
  }

  lemma LauncherRemembers(f: Fields, key: Key, r: Reply)
    requires Own(f) && f.screen.Launcher? && LauncherKey(f, key, r).Some?
    ensures var g := LauncherKey(f, key, r).value;
            && g.createFrom == f.createFrom && g.naming == f.naming
            && g.versions == if key.New? && !f.confirmDelete && !f.serverStarted then r.versions else f.versions
  {
  }

  lemma NewServerRemembers(f: Fields, key: Key, r: Reply)
    requires Own(f) && f.screen.NewServer? && NewServerKey(f, key, r).Some?
    ensures var g, begins := NewServerKey(f, key, r).value, key.Accept? && !r.active && f.versions != [];
            && g.createFrom == (if begins then f.versionSel else f.createFrom) && (g.naming <==> f.naming || begins)
            && g.versions == if key.Remove? && !r.active && TakesAway(f) then r.versions else f.versions
  {
  }

  lemma KeyRemembers(m: Machine, key: Key, r: Reply)
    requires Sound(m) && OnKey(m, key, r).Went?
    ensures Remembers(m, Press(key, r), OnKey(m, key, r).m)
  {
    if m.f.screen.Launcher? {
      LauncherRemembers(m.f, key, r);
    } else if m.f.screen.NewServer? && !(key.New? && !r.active) {
      NewServerRemembers(m.f, key, r);
    }
  }

  lemma PollRemembers(f: Fields, r: Reply)
    ensures var g := PollNaming(f, r);
            g.createFrom == f.createFrom && g.versions == f.versions && (g.naming ==> f.naming)
  {
  }

  /** The fields that naming depends on are the same. */
  predicate SameNaming(f: Fields, g: Fields) {
    g.createFrom == f.createFrom && g.versions == f.versions && g.naming == f.naming
  }

  lemma SelectionRemembers(f: Fields, sel: int)
    ensures SameNaming(f, f.(dlSel := sel))
  {
  }

  lemma OtherCountRemembers(m: Machine, key: Key, n: nat)
    requires !key.Up? && !key.Down?
    ensures SameNaming(m.f, AfterCount(m, key, n).f)
  {
  }

  lemma CountRemembers(m: Machine, key: Key, n: nat)
    ensures SameNaming(m.f, AfterCount(m, key, n).f)
  {
    if key.Up? || key.Down? {
      SelectionRemembers(m.f, if key.Up? then Previous(m.f.dlSel, n) else Following(m.f.dlSel, n));
    } else {
      OtherCountRemembers(m, key, n);
    }
  }

  lemma EnteringRemembers(m: Machine, r: Reply)
    requires m.at.Entering? || m.at.Clearing? || m.at.Busying? || m.at.Spawning?
    requires OnGo(m, r).Went?
    ensures SameNaming(m.f, OnGo(m, r).m.f)
  {
  }

  lemma StartingRemembers(m: Machine, r: Reply)
    requires m.at.Starting? || m.at.Choosing? || m.at.Reserving? || m.at.Launching? || m.at.Events? || m.at.Dirty?
    requires OnGo(m, r).Went?
    ensures SameNaming(m.f, OnGo(m, r).m.f)
  {
  }

  lemma GoRemembers(m: Machine, r: Reply)
    requires OnGo(m, r).Went?
    ensures Remembers(m, Go(r), OnGo(m, r).m)
  {
    if m.at.Naming? {
      PollRemembers(m.f, r);
    } else if m.at.HaveCount? {
      CountRemembers(m, m.at.key, m.at.n);
    } else if m.at.Entering? || m.at.Clearing? || m.at.Busying? || m.at.Spawning? {
      EnteringRemembers(m, r);
    } else if !m.at.Rescanning? {
      StartingRemembers(m, r);
    }
  }

  lemma FetchRemembers(m: Machine, i: nat, w: Worker, list: seq<string>)
    requires i < |m.workers| && w.Fetch? && OnFetch(m, i, w, list).Went?
    ensures SameNaming(m.f, OnFetch(m, i, w, list).m.f)
  {
  }

  lemma DownloadRemembers(m: Machine, i: nat, w: Worker, ok: bool)
    requires i < |m.workers| && w.Download? && OnDownload(m, i, w, ok).Went?
    ensures SameNaming(m.f, OnDownload(m, i, w, ok).m.f)
  {
  }

  lemma WorkRemembers(m: Machine, i: nat, list: seq<string>, ok: bool)
    requires Next(m, Work(i, list, ok)).Went?
    ensures Remembers(m, Work(i, list, ok), Next(m, Work(i, list, ok)).m)
  {
    if m.workers[i].Fetch? {
      FetchRemembers(m, i, m.workers[i], list);
    } else {
      DownloadRemembers(m, i, m.workers[i], ok);
    }
  }

  lemma StepRemembers(m: Machine, e: Event)
    requires Sound(m) && Next(m, e).Went?
    ensures Remembers(m, e, Next(m, e).m)
  {
    match e
    case Press(key, r) => KeyRemembers(m, key, r);
    case Go(r) => GoRemembers(m, r);
    case Work(i, list, ok) => WorkRemembers(m, i, list, ok);
  }

  lemma {:induction false} RunRemembers(m: Machine, events: seq<Event>, n: Machine)
    requires Sound(m) && Run(m, events) == Went(n) && NoneBegins(m, events)
    ensures n.f.createFrom == m.f.createFrom && n.f.versions == LastRead(m, events, m.f.versions)
    ensures n.f.naming ==> m.f.naming
    decreases |events|
  {
    if events != [] {
      StepRemembers(m, events[0]);
      NextKeepsSound(m, events[0]);
      RunRemembers(Next(m, events[0]).m, events[1..], n);
    }
  }

  /** The step at which a pass creates an instance, and the version that is copied into it. */
  predicate Submits(m: Machine, e: Event) {
    e.Go? && m.at.Naming? && m.f.screen.NewServer? && m.f.naming && e.reply.submitted
  }

  /** Naming begins for the selected version; then any steps of any threads follow, none of which begins it
      anew, up to the one that submits the name. The version copied is the one that the list last read has at
      the remembered place - the selected one, when no mark was up and no key disturbed. */
  lemma CopiesTheSelected(m: Machine, r: Reply, events: seq<Event>, n: Machine, s: Event)
    requires Reachable(m) && BeginsNaming(m, Press(Accept, r)) && OnKey(m, Accept, r).Went?
    requires Run(OnKey(m, Accept, r).m, events) == Went(n) && NoneBegins(OnKey(m, Accept, r).m, events) && Submits(n, s)
    ensures 0 <= m.f.versionSel < |m.f.versions|
    ensures var read := LastRead(OnKey(m, Accept, r).m, events, m.f.versions);
            Source(n.f) == if m.f.versionSel < |read| then Some(read[m.f.versionSel]) else None
    ensures !m.f.dirty && NoneDisturbs(OnKey(m, Accept, r).m, events) ==>
              Source(n.f) == Some(m.f.versions[m.f.versionSel])
  {
    var begun := OnKey(m, Accept, r).m;
    ReachableIsSound(m);
    KeyRemembers(m, Accept, r);
    KeyKeepsSound(m, Accept, r);
    RunRemembers(begun, events, n);
    if !m.f.dirty && NoneDisturbs(begun, events) {
      QuietRun(begun, events, m.f.versions);
    }
  }

  // ----- What can disturb

  /** With the entry inactive, the keys that remove a version, begin naming anew or go to the downloads; on the
      launcher the key that comes back. */
  predicate Disturbs(f: Fields, e: Event) {
    e.Press? && match f.screen
      case NewServer => !e.reply.active && (e.key.Remove? || e.key.Accept? || e.key.New?)
      case Launcher => e.key.New? && !f.confirmDelete
      case _ => false
  }

  predicate NoneDisturbs(m: Machine, events: seq<Event>)
    decreases |events|
  {
    events == [] || !Next(m, events[0]).Went?
    || (!Disturbs(m.f, events[0]) && NoneDisturbs(Next(m, events[0]).m, events[1..]))
  }

  /** No mark is up, and nothing is under way that could put one up. */
  predicate Quiet(m: Machine) {
    Sound(m) && !m.f.dirty && !m.f.dlBusy && !m.f.screen.Downloads? && (m.at.Events? || m.at.Dirty? || m.at.Naming?)
  }

  lemma QuietKey(m: Machine, key: Key, r: Reply)
    requires Quiet(m) && !Disturbs(m.f, Press(key, r)) && OnKey(m, key, r).Went?
    ensures Quiet(OnKey(m, key, r).m) && ListRead(m, Press(key, r)).None?
  {
    KeyKeepsSound(m, key, r);
  }

  lemma QuietGo(m: Machine, r: Reply)
    requires Quiet(m) && OnGo(m, r).Went?
    ensures Quiet(OnGo(m, r).m) && ListRead(m, Go(r)).None?
  {
    GoKeepsSound(m, r);
  }

  lemma QuietWork(m: Machine, i: nat, list: seq<string>, ok: bool)
    requires Quiet(m) && Next(m, Work(i, list, ok)).Went?
    ensures Quiet(Next(m, Work(i, list, ok)).m)
  {
    NextKeepsSound(m, Work(i, list, ok));
    WorkerIsLatest(m, i, m.workers[i]);
  }

  lemma {:induction false} QuietRun(m: Machine, events: seq<Event>, list: seq<Version>)
    requires Quiet(m) && NoneDisturbs(m, events)
    ensures LastRead(m, events, list) == list
    decreases |events|
  {
    if events != [] && Next(m, events[0]).Went? {
      match events[0] {
        case Press(key, r) => QuietKey(m, key, r);
        case Go(r) => QuietGo(m, r);
        case Work(i, got, ok) => QuietWork(m, i, got, ok);
      }
      QuietRun(Next(m, events[0]).m, events[1..], list);
    }
  }

  // ----- Every name that is submitted was begun

  /** The `k`-th step is the last one that begins naming. */
  predicate BegunAt(m: Machine, events: seq<Event>, k: nat)
    requires k < |events|
  {
    var before := Run(m, events[..k]);
    && before.Went? && BeginsNaming(before.m, events[k]) && Next(before.m, events[k]).Went?
    && NoneBegins(Next(before.m, events[k]).m, events[k + 1..])
    && Run(Next(before.m, events[k]).m, events[k + 1..]) == Run(m, events)
  }

  lemma {:induction false} LastBegin(m: Machine, events: seq<Event>) returns (k: nat)
    requires Run(m, events).Went? && !NoneBegins(m, events)
    ensures k < |events| && BegunAt(m, events, k)
    decreases |events|
  {
    var next, rest := Next(m, events[0]).m, events[1..];
    if NoneBegins(next, rest) {
      k := 0;
      assert events[..0] == [];
    } else {
      var j := LastBegin(next, rest);
      k := j + 1;
      assert events[..k][1..] == rest[..j] && events[k + 1..] == rest[j + 1..];
    }
  }

  /** In every run, the version copied when a name is submitted goes back to the last step that began naming:
      it is the one that the list last read has at the place that was selected then. */
  lemma EveryCopyWasBegun(instances: seq<Instance>, versions: seq<Version>, disk: set<string>, events: seq<Event>,
                          n: Machine, s: Event) returns (k: nat)
    requires Covers(versions, disk) && Run(Initial(instances, versions, disk), events) == Went(n) && Submits(n, s)
    ensures k < |events| && BegunAt(Initial(instances, versions, disk), events, k)
    ensures var b := Run(Initial(instances, versions, disk), events[..k]).m;
            var read := LastRead(Next(b, events[k]).m, events[k + 1..], b.f.versions);
            Source(n.f) == if 0 <= b.f.versionSel < |read| then Some(read[b.f.versionSel]) else None
  {
    var start := Initial(instances, versions, disk);
    InitialIsSound(instances, versions, disk);
    if NoneBegins(start, events) {
      RunRemembers(start, events, n);
    }
    k := LastBegin(start, events);
    var b := Run(start, events[..k]).m;
    assert Reachable(b);
    CopiesTheSelected(b, events[k].reply, events[k + 1..], n, s);
  }

  // ----- Runs in which another version is copied

  const OLD := Version("1.21", false)
  const NEW := Version("1.20", false)

  /** The new-server screen with one version shown, another downloaded, and the mark still up. */
  predicate MarkUp(m: Machine) {
    m.at.Events? && m.f.screen.NewServer? && m.f.dirty && m.f.versions == [OLD] && m.f.versionSel == 0
    && m.disk == {OLD.id, NEW.id}
  }

  lemma MarkUpIsReachable() returns (m: Machine)
    ensures Reachable(m) && MarkUp(m)
  {
    var one := Reply(false, false, true, "", [], [OLD]);
    var a := Initial([], [OLD], {OLD.id});
    assert IsListed([OLD], OLD.id) by {
      assert [OLD][0].id == OLD.id;
    }
    assert Run(a, []) == Went(a) && Reachable(a);
    var b := a.(f := a.f.(screen := NewServer));
    var c := b.(at := Entering);
    ReachStep(a, Press(New, one), b);
    ReachStep(b, Press(New, one), c);
    var d := b.(epoch := 1, workers := [] + [Fetch(1, Fetching)],
                f := b.f.(screen := Downloads, dlBusy := true));
    EnterReaches(c, d);
    var e := d.(workers := [] + [Fetch(1, FetchDone)], f := d.f.(dlVersions := [NEW.id], dlBusy := false));
    FetchReaches(d, [], [NEW.id], e);
    var g := e.(workers := e.workers + [Download(NEW.id, Working)], f := e.f.(dlBusy := true));
    ChooseReaches(e, g);
    m := LeaveDownloads(g, e.workers);
  }

  lemma LeaveDownloads(g: Machine, front: seq<Worker>) returns (m: Machine)
    requires Reachable(g) && !g.locked && g.workers == front + [Download(NEW.id, Working)]
    requires g.at.Events? && g.f.screen.Downloads? && g.f.versions == [OLD] && g.f.versionSel == 0 && g.disk == {OLD.id}
    ensures Reachable(m) && MarkUp(m)
  {
    var h := g.(workers := front + [Download(NEW.id, DownloadDone)], disk := {OLD.id, NEW.id},
                f := g.f.(dirty := true, dlBusy := false));
    assert g.disk + {NEW.id} == h.disk;
    DownloadReaches(g, front, NEW.id, h);
    var k := h.(at := HaveCount(Back, |h.f.dlVersions|));
    m := h.(f := h.f.(screen := NewServer));
    ReachStep(h, Press(Back, ANY), k);
    ReachStep(k, Go(ANY), m);
  }

  /** So there is a run in which naming begins for one version and the other is copied. */
  lemma AnotherVersionIsCopied() returns (m: Machine, r: Reply, s: Reply)
    ensures Reachable(m) && m.at.Events? && m.f.screen.NewServer? && m.f.versions == [OLD] && m.f.versionSel == 0
    ensures !r.active && s.submitted && Covers(s.versions, m.disk)
    ensures OnKey(m, Accept, r).Went? && Copied(OnKey(m, Accept, r).m.f, s) == Some(NEW)
  {
    m := MarkUpIsReachable();
    var both := [NEW, OLD];
    assert both[0].id == NEW.id && both[1].id == OLD.id;
    assert IsListed(both, NEW.id) && IsListed(both, OLD.id);
    r := Reply(false, false, true, "", [], both);
    s := Reply(false, true, true, "", [], both);
    CopiedThroughPasses(m, r, [], s);
  }

  /** No mark has to be up: the name is submitted, the entry goes inactive, and before the pass that creates the
      instance a key removes the selected version. The one that moves up is copied. */
  lemma RemovedBeforeTheCopy() returns (m: Machine, r: Reply, x: Reply, s: Reply)
    ensures Reachable(m) && m.at.Events? && m.f.screen.NewServer? && !m.f.dirty
    ensures m.f.versions == [OLD, NEW] && m.f.versionSel == 0
    ensures OnKey(m, Accept, r).Went? && !x.active && s.submitted
    ensures var begun := OnKey(m, Accept, r).m;
            OnKey(begun, Remove, x).Went? && Copied(OnKey(begun, Remove, x).m.f, s) == Some(NEW)
  {
    var both, one := [OLD, NEW], [NEW];
    assert both[0].id == OLD.id && both[1].id == NEW.id && one[0].id == NEW.id;
    assert IsListed(both, OLD.id) && IsListed(both, NEW.id) && IsListed(one, NEW.id);
    r := Reply(false, false, true, "", [], both);
    x := Reply(false, true, true, "", [], one);
    s := Reply(false, true, true, "", [], one);
    var a := Initial([], both, {OLD.id, NEW.id});
    assert Run(a, []) == Went(a) && Reachable(a);
    m := a.(f := a.f.(screen := NewServer));
    ReachStep(a, Press(New, r), m);
    assert OLD.id != NEW.id;
  }
}
