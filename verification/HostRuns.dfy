/** Every interleaving of key presses, main-loop passes and worker threads, and what holds in all of them. */
module HostRuns {
  import opened Text
  import opened Host

  // ----- Threads

  datatype FetchStage = Fetching | Holding(list: seq<string>) | Listed | Told | Freed | FetchDone

  datatype DownloadStage = Working | Finished(ok: bool) | Telling(ok: bool) | Noted(ok: bool) | Marked | DownloadDone

  /** A worker that loads the list of versions, and one that downloads a version. */
  datatype Worker = Fetch(epoch: nat, fetch: FetchStage) | Download(version: string, load: DownloadStage)

  /** Where the main thread is: between events, at a key of the downloads screen, in `EnterDownloads`, in
      `StartDownloadSelected`, or in its pass after the events; while it rescans, `seen` is what the disk held
      when the mark was taken down. */
  datatype Place =
    | Events
    | HaveCount(key: Key, n: nat)
    | Entering | Clearing | Busying | Spawning
    | Starting | Choosing | Reserving(version: string) | Launching(version: string)
    | Dirty | Rescanning(seen: set<string>) | Naming

  /** `epoch` counts how often the list was cleared; `disk` is the set of versions whose download succeeded. */
  datatype Machine = Machine(f: Fields, at: Place, locked: bool, epoch: nat, workers: seq<Worker>, disk: set<string>)

  datatype Event =
    | Press(key: Key, reply: Reply)
    | Go(reply: Reply)
    | Work(i: nat, list: seq<string>, ok: bool)

  /** A step leads on, cannot happen now, or reads outside a list. */
  datatype Outcome = Went(m: Machine) | Blocked | Fault

  predicate Covers(versions: seq<Version>, disk: set<string>) {
    forall v | v in disk :: IsListed(versions, v)
  }

  predicate IsListed(versions: seq<Version>, id: string) {
    exists i | 0 <= i < |versions| :: versions[i].id == id
  }

  function Local(m: Machine, f: Option<Fields>): Outcome {
    match f
    case None => Fault
    case Some(g) => Went(m.(f := g))
  }

  /** A key press. Reading the version directories finds every version that is there; a version is taken from
      the disk before they are read again. No download is under way on the screens that read them at a key. */
  function OnKey(m: Machine, key: Key, r: Reply): Outcome {
    if !m.at.Events? then Blocked
    else match m.f.screen
      case Launcher => if Covers(r.versions, m.disk) then Local(m, LauncherKey(m.f, key, r)) else Blocked
      case NewServer =>
        if key.New? && !r.active then Went(m.(at := Entering))
        else
          var left := if key.Remove? && !r.active then Remaining(m, r.ok) else m.disk;
          if Covers(r.versions, left) then Local(m.(disk := left), NewServerKey(m.f, key, r)) else Blocked
      case Downloads =>
        if m.locked then Blocked else Went(m.(at := HaveCount(key, |m.f.dlVersions|)))
      case Console => Went(m)
  }

  /** The versions left after deleting the selected one, if that works. */
  function Remaining(m: Machine, ok: bool): set<string> {
    if ok && 0 <= m.f.versionSel < |m.f.versions| && !m.f.versions[m.f.versionSel].bundled
    then m.disk - {m.f.versions[m.f.versionSel].id} else m.disk
  }

  /** The rest of a key press of the downloads screen, once the length of the list is known. */
  function AfterCount(m: Machine, key: Key, n: nat): Machine {
    match key
    case Up => m.(at := Events, f := m.f.(dlSel := Previous(m.f.dlSel, n)))
    case Down => m.(at := Events, f := m.f.(dlSel := Following(m.f.dlSel, n)))
    case Accept => m.(at := if n == 0 && !m.f.dlBusy then Entering else Starting)
    case New => m.(at := if !m.f.dlBusy then Entering else Events)
    case Back => m.(at := Events, f := if !m.f.dlBusy then m.f.(screen := NewServer) else m.f)
    case Remove => m.(at := Events)
    case Other => m.(at := Events)
  }

  /** The next step of the main thread inside a handler or its pass. */
  function OnGo(m: Machine, r: Reply): Outcome {
    match m.at
    case Events => Went(m.(at := Dirty))
    case HaveCount(key, n) => Went(AfterCount(m, key, n))
    case Entering =>
      if m.f.serverStarted then Went(m.(at := Events))
      else Went(m.(at := Clearing, f := m.f.(screen := Downloads, dlSel := 0)))
    case Clearing =>
      if m.locked then Blocked
      else Went(m.(at := Busying, f := m.f.(dlVersions := []), epoch := m.epoch + 1))
    case Busying => Went(m.(at := Spawning, f := m.f.(dlBusy := true)))
    case Spawning => Went(m.(at := Events, workers := m.workers + [Fetch(m.epoch, Fetching)]))
    case Starting => Went(m.(at := if m.f.dlBusy then Events else Choosing))
    case Choosing =>
      if m.locked then Blocked
      else if !(0 <= m.f.dlSel < |m.f.dlVersions|) then Went(m.(at := Events))
      else Went(m.(at := Reserving(m.f.dlVersions[m.f.dlSel])))
    case Reserving(v) => Went(m.(at := Launching(v), f := m.f.(dlBusy := true)))
    case Launching(v) => Went(m.(at := Events, workers := m.workers + [Download(v, Working)]))
    case Dirty =>
      if m.f.dirty then Went(m.(at := Rescanning(m.disk), f := m.f.(dirty := false))) else Went(m.(at := Naming))
    case Rescanning(seen) =>
      if Covers(r.versions, seen) then Went(m.(at := Naming, f := Rescan(m.f, r.versions))) else Blocked
    case Naming => Went(m.(at := Events, f := PollNaming(m.f, r)))
  }

  function OnFetch(m: Machine, i: nat, w: Worker, list: seq<string>): Outcome
    requires i < |m.workers| && w.Fetch?
  {
    match w.fetch
    case Fetching =>
      if m.locked then Blocked else Went(m.(locked := true, workers := m.workers[i := w.(fetch := Holding(list))]))
    case Holding(got) =>
      Went(m.(f := m.f.(dlVersions := got), workers := m.workers[i := w.(fetch := Listed)]))
    case Listed => Went(m.(workers := m.workers[i := w.(fetch := Told)]))
    case Told => Went(m.(f := m.f.(dlBusy := false), workers := m.workers[i := w.(fetch := Freed)]))
    case Freed => Went(m.(locked := false, workers := m.workers[i := w.(fetch := FetchDone)]))
    case FetchDone => Blocked
  }

  function OnDownload(m: Machine, i: nat, w: Worker, ok: bool): Outcome
    requires i < |m.workers| && w.Download?
  {
    match w.load
    case Working =>
      Went(m.(disk := if ok then m.disk + {w.version} else m.disk, workers := m.workers[i := w.(load := Finished(ok))]))
    case Finished(good) =>
      if m.locked then Blocked else Went(m.(locked := true, workers := m.workers[i := w.(load := Telling(good))]))
    case Telling(good) => Went(m.(locked := false, workers := m.workers[i := w.(load := Noted(good))]))
    case Noted(good) =>
      Went(m.(f := if good then m.f.(dirty := true) else m.f, workers := m.workers[i := w.(load := Marked)]))
    case Marked => Went(m.(f := m.f.(dlBusy := false), workers := m.workers[i := w.(load := DownloadDone)]))
    case DownloadDone => Blocked
  }

  function Next(m: Machine, e: Event): Outcome {
    match e
    case Press(key, r) => OnKey(m, key, r)
    case Go(r) => OnGo(m, r)
    case Work(i, list, ok) =>
      if i >= |m.workers| then Blocked
      else if m.workers[i].Fetch? then OnFetch(m, i, m.workers[i], list)
      else OnDownload(m, i, m.workers[i], ok)
  }

  function Run(m: Machine, events: seq<Event>): Outcome
    decreases |events|
  {
    if events == [] then Went(m)
    else match Next(m, events[0])
      case Went(n) => Run(n, events[1..])
      case Blocked => Blocked
      case Fault => Fault
  }

  // ----- What every run keeps

  /** The worker has not yet given up the busy flag, so it may still write. */
  predicate Pending(w: Worker) {
    if w.Fetch? then w.fetch.Fetching? || w.fetch.Holding? || w.fetch.Listed? || w.fetch.Told?
    else !w.load.DownloadDone?
  }

  predicate HoldsLock(w: Worker) {
    if w.Fetch? then w.fetch.Holding? || w.fetch.Listed? || w.fetch.Told? || w.fetch.Freed?
    else w.load.Telling?
  }

  predicate Over(w: Worker) {
    if w.Fetch? then w.fetch.FetchDone? else w.load.DownloadDone?
  }

  /** It has put a version on the disk and will mark the list dirty. */
  predicate WillMark(w: Worker) {
    w.Download? && match w.load
      case Finished(ok) => ok
      case Telling(ok) => ok
      case Noted(ok) => ok
      case _ => false
  }

  function Latest(m: Machine): Worker {
    if m.workers == [] then Fetch(m.epoch, FetchDone) else m.workers[|m.workers| - 1]
  }

  /** Only the latest worker is not over, and it holds the flag and the lock exactly while it says so. */
  predicate Workers(m: Machine) {
    && (forall i | 0 <= i < |m.workers| - 1 :: Over(m.workers[i]))
    && (m.f.dlBusy <==> Pending(Latest(m)) || m.at.Spawning? || m.at.Launching?)
    && (m.locked <==> HoldsLock(Latest(m)))
  }

  predicate OnDownloads(p: Place) {
    p.HaveCount? || p.Clearing? || p.Busying? || p.Spawning? || p.Starting? || p.Choosing? || p.Reserving?
    || p.Launching?
  }

  predicate Places(m: Machine) {
    && (m.f.dlBusy || OnDownloads(m.at) ==> m.f.screen.Downloads?)
    && (m.at.Entering? ==> !m.f.dlBusy && (m.f.screen.Downloads? || m.f.screen.NewServer?))
    && (m.at.Clearing? ==> m.f.dlSel == 0)
    && (m.at.Clearing? || m.at.Choosing? || m.at.Entering? ==> !Pending(Latest(m)))
    && (m.at.Busying? || m.at.Spawning? || m.at.Reserving? || m.at.Launching? ==> Over(Latest(m)))
    && (m.at.HaveCount? ==> m.at.n == 0 || m.at.n == |m.f.dlVersions|)
  }

  predicate Epochs(m: Machine) {
    && (Latest(m).Fetch? && Pending(Latest(m)) ==> Latest(m).epoch == m.epoch)
    && (Latest(m).Fetch? && (Latest(m).fetch.Fetching? || Latest(m).fetch.Holding?) ==> m.f.dlVersions == [])
    && (m.at.Busying? || m.at.Spawning? ==> m.f.dlVersions == [])
  }

  /** Every downloaded version is listed, or the list is being read with nothing downloaded meanwhile, or
      something will still have it read again. */
  predicate Fresh(m: Machine) {
    m.f.dirty || WillMark(Latest(m)) || if m.at.Rescanning? then m.at.seen == m.disk else Covers(m.f.versions, m.disk)
  }

  predicate Sound(m: Machine) {
    && Selections(m.f) && Server(m.f) && Confirming(m.f)
    && Workers(m) && Places(m) && Epochs(m) && Fresh(m)
  }

  function Initial(instances: seq<Instance>, versions: seq<Version>, disk: set<string>): Machine {
    Machine(Start(instances, versions), Events, false, 0, [], disk)
  }

  lemma InitialIsSound(instances: seq<Instance>, versions: seq<Version>, disk: set<string>)
    requires Covers(versions, disk)
    ensures Sound(Initial(instances, versions, disk))
  {
  }

  /** The fields that no launcher or new-server key touches. */
  predicate SameDownloads(f: Fields, g: Fields) {
    f.dlVersions == g.dlVersions && f.dlSel == g.dlSel && f.dlBusy == g.dlBusy && f.dirty == g.dirty
  }

  /** What a key press on the launcher may do to the fields. */
  predicate Kept(f: Fields, g: Fields, r: Reply) {
    Own(g) && SameDownloads(f, g) && (g.versions == f.versions || g.versions == r.versions)
  }

  lemma ConfirmKeeps(f: Fields, key: Key, r: Reply)
    requires Own(f) && f.screen.Launcher? && f.confirmDelete
    ensures LauncherKey(f, key, r).Some? && Kept(f, LauncherKey(f, key, r).value, r)
  {
  }

  lemma MoveKeeps(f: Fields, key: Key, r: Reply)
    requires Own(f) && f.screen.Launcher? && !f.confirmDelete && (key.Up? || key.Down?)
    ensures LauncherKey(f, key, r).Some? && Kept(f, LauncherKey(f, key, r).value, r)
  {
    WrapStays(f.instanceSel, |f.instances|);
  }

  lemma StartKeeps(f: Fields, r: Reply)
    requires Own(f) && f.screen.Launcher? && !f.confirmDelete
    ensures StartSelected(f, r.ok).Some? && Kept(f, StartSelected(f, r.ok).value, r)
  {
  }

  lemma EnterKeeps(f: Fields, r: Reply)
    requires Own(f) && f.screen.Launcher? && !f.confirmDelete
    ensures Kept(f, EnterNewServer(f, r.versions), r)
  {
  }

  lemma AskKeeps(f: Fields, r: Reply)
    requires Own(f) && f.screen.Launcher?
    ensures BeginDelete(f).Some? && Kept(f, BeginDelete(f).value, r)
  {
  }

  lemma LauncherKeeps(f: Fields, key: Key, r: Reply)
    requires Own(f) && f.screen.Launcher?
    ensures LauncherKey(f, key, r).Some? && Kept(f, LauncherKey(f, key, r).value, r)
  {
    if f.confirmDelete {
      ConfirmKeeps(f, key, r);
    } else {
      match key
      case Up => MoveKeeps(f, key, r);
      case Down => MoveKeeps(f, key, r);
      case Accept => StartKeeps(f, r);
      case New => EnterKeeps(f, r);
      case Remove => AskKeeps(f, r);
      case Back =>
      case Other =>
    }
  }

  /** What a key press on the new-server screen may do: the list changes only by a deletion. */
  predicate KeptPool(f: Fields, g: Fields, deletes: bool, r: Reply)
    requires Selected(f.versions, f.versionSel)
  {
    Own(g) && SameDownloads(f, g)
    && (g.versions == r.versions
        || (g.versions == f.versions && !(deletes && f.versions != [] && !f.versions[f.versionSel].bundled)))
  }

  lemma MoveVersionKeeps(f: Fields, sel: int, r: Reply)
    requires Own(f) && f.screen.NewServer? && Selected(f.versions, sel)
    ensures KeptPool(f, f.(versionSel := sel), false, r)
  {
  }

  lemma DeleteVersionKeeps(f: Fields, r: Reply)
    requires Own(f) && f.screen.NewServer?
    ensures DeleteVersion(f, r.versions).Some? && KeptPool(f, DeleteVersion(f, r.versions).value, true, r)
  {
  }

  lemma BeginCreateKeeps(f: Fields, r: Reply)
    requires Own(f) && f.screen.NewServer?
    ensures KeptPool(f, BeginCreate(f), false, r) && KeptPool(f, f.(screen := Launcher, message := Quiet), false, r)
  {
  }

  lemma NewServerKeeps(f: Fields, key: Key, r: Reply)
    requires Own(f) && f.screen.NewServer?
    ensures NewServerKey(f, key, r).Some?
    ensures KeptPool(f, NewServerKey(f, key, r).value, key.Remove? && !r.active, r)
  {
    if !r.active {
      WrapStays(f.versionSel, |f.versions|);
      match key
      case Up => MoveVersionKeeps(f, Previous(f.versionSel, |f.versions|), r);
      case Down => MoveVersionKeeps(f, Following(f.versionSel, |f.versions|), r);
      case Accept => BeginCreateKeeps(f, r);
      case New =>
      case Remove => DeleteVersionKeeps(f, r);
      case Back => BeginCreateKeeps(f, r);
      case Other =>
    }
  }

  lemma LauncherKeyKeeps(m: Machine, key: Key, r: Reply)
    requires Sound(m) && m.f.screen.Launcher?
    ensures !OnKey(m, key, r).Fault?
    ensures OnKey(m, key, r).Went? ==> Sound(OnKey(m, key, r).m)
  {
    if m.at.Events? {
      LauncherKeeps(m.f, key, r);
    }
  }

  lemma NewServerKeyKeeps(m: Machine, key: Key, r: Reply)
    requires Sound(m) && m.f.screen.NewServer?
    ensures !OnKey(m, key, r).Fault?
    ensures OnKey(m, key, r).Went? ==> Sound(OnKey(m, key, r).m)
  {
    if m.at.Events? {
      NewServerKeeps(m.f, key, r);
    }
  }

  /** No key press reads outside a list, and each keeps every property of the run. */
  lemma KeyKeepsSound(m: Machine, key: Key, r: Reply)
    requires Sound(m)
    ensures !OnKey(m, key, r).Fault?
    ensures OnKey(m, key, r).Went? ==> Sound(OnKey(m, key, r).m)
  {
    if m.f.screen.Launcher? {
      LauncherKeyKeeps(m, key, r);
    } else if m.f.screen.NewServer? {
      NewServerKeyKeeps(m, key, r);
    }
  }

  lemma NamingKeeps(f: Fields, r: Reply)
    requires Own(f)
    ensures Own(PollNaming(f, r)) && SameDownloads(f, PollNaming(f, r)) && PollNaming(f, r).versions == f.versions
    ensures !f.screen.NewServer? ==> PollNaming(f, r) == f
  {
  }

  lemma SelectionKeepsSound(m: Machine, sel: int)
    requires Sound(m) && m.at.HaveCount? && (sel == 0 || 0 <= sel < |m.f.dlVersions|)
    ensures Sound(m.(at := Events, f := m.f.(dlSel := sel)))
  {
  }

  lemma OtherCountKeepsSound(m: Machine)
    requires Sound(m) && m.at.HaveCount? && !m.at.key.Up? && !m.at.key.Down?
    ensures Sound(AfterCount(m, m.at.key, m.at.n))
  {
  }

  lemma CountKeepsSound(m: Machine)
    requires Sound(m) && m.at.HaveCount?
    ensures Sound(AfterCount(m, m.at.key, m.at.n))
  {
    var sel, n := m.f.dlSel, m.at.n;
    if m.at.key.Up? || m.at.key.Down? {
      if n > 0 {
        WrapStays(sel, n);
      }
      SelectionKeepsSound(m, if m.at.key.Up? then Previous(sel, n) else Following(sel, n));
    } else {
      OtherCountKeepsSound(m);
    }
  }

  lemma EnteringKeepsSound(m: Machine, r: Reply)
    requires Sound(m) && (m.at.Entering? || m.at.Clearing? || m.at.Busying? || m.at.Spawning?)
    ensures !OnGo(m, r).Fault? && (OnGo(m, r).Went? ==> Sound(OnGo(m, r).m))
  {
  }

  lemma StartingKeepsSound(m: Machine, r: Reply)
    requires Sound(m) && (m.at.Starting? || m.at.Choosing? || m.at.Reserving? || m.at.Launching?)
    ensures !OnGo(m, r).Fault? && (OnGo(m, r).Went? ==> Sound(OnGo(m, r).m))
  {
  }

  lemma PassKeepsSound(m: Machine, r: Reply)
    requires Sound(m) && (m.at.Events? || m.at.Dirty? || m.at.Rescanning? || m.at.Naming?)
    ensures !OnGo(m, r).Fault? && (OnGo(m, r).Went? ==> Sound(OnGo(m, r).m))
  {
    NamingKeeps(m.f, r);
  }

  lemma GoKeepsSound(m: Machine, r: Reply)
    requires Sound(m)
    ensures !OnGo(m, r).Fault?
    ensures OnGo(m, r).Went? ==> Sound(OnGo(m, r).m)
  {
    if m.at.HaveCount? {
      CountKeepsSound(m);
    } else if m.at.Entering? || m.at.Clearing? || m.at.Busying? || m.at.Spawning? {
      EnteringKeepsSound(m, r);
    } else if m.at.Starting? || m.at.Choosing? || m.at.Reserving? || m.at.Launching? {
      StartingKeepsSound(m, r);
    } else {
      PassKeepsSound(m, r);
    }
  }

  /** The step of a worker that is not over is a step of the latest worker. */
  lemma WorkerIsLatest(m: Machine, i: nat, w: Worker)
    requires Workers(m) && i < |m.workers| && !Over(m.workers[i])
    ensures Latest(m) == m.workers[i]
    ensures var now := m.workers[i := w];
            now[|now| - 1] == w && |now| == |m.workers|
            && forall j | 0 <= j < |now| - 1 :: Over(now[j])
  {
  }

  lemma ListingKeeps(m: Machine, i: nat, list: seq<string>)
    requires Sound(m) && i < |m.workers| && m.workers[i].Fetch? && m.workers[i].fetch.Holding?
    ensures OnFetch(m, i, m.workers[i], list).Went? && Sound(OnFetch(m, i, m.workers[i], list).m)
  {
    var n := OnFetch(m, i, m.workers[i], list).m;
    WorkerIsLatest(m, i, n.workers[i]);
    assert Latest(n) == n.workers[i];
  }

  lemma FetchKeepsSound(m: Machine, i: nat, list: seq<string>)
    requires Sound(m) && i < |m.workers| && m.workers[i].Fetch?
    ensures !OnFetch(m, i, m.workers[i], list).Fault?
    ensures OnFetch(m, i, m.workers[i], list).Went? ==> Sound(OnFetch(m, i, m.workers[i], list).m)
  {
    if m.workers[i].fetch.Holding? {
      ListingKeeps(m, i, list);
    } else if OnFetch(m, i, m.workers[i], list).Went? {
      var n := OnFetch(m, i, m.workers[i], list).m;
      WorkerIsLatest(m, i, n.workers[i]);
      assert Latest(n) == n.workers[i];
    }
  }

  /** The stages of a download, one by one. */
  lemma WorkingKeeps(m: Machine, i: nat, ok: bool)
    requires Sound(m) && i < |m.workers| && m.workers[i].Download? && m.workers[i].load.Working?
    requires OnDownload(m, i, m.workers[i], ok).Went?
    ensures Sound(OnDownload(m, i, m.workers[i], ok).m)
  {
    var n := OnDownload(m, i, m.workers[i], ok).m;
    WorkerIsLatest(m, i, n.workers[i]);
    assert Latest(n) == n.workers[i];
  }

  lemma FinishedKeeps(m: Machine, i: nat, ok: bool)
    requires Sound(m) && i < |m.workers| && m.workers[i].Download? && m.workers[i].load.Finished?
    requires OnDownload(m, i, m.workers[i], ok).Went?
    ensures Sound(OnDownload(m, i, m.workers[i], ok).m)
  {
    var n := OnDownload(m, i, m.workers[i], ok).m;
    WorkerIsLatest(m, i, n.workers[i]);
    assert Latest(n) == n.workers[i];
  }

  lemma TellingKeeps(m: Machine, i: nat, ok: bool)
    requires Sound(m) && i < |m.workers| && m.workers[i].Download? && m.workers[i].load.Telling?
    requires OnDownload(m, i, m.workers[i], ok).Went?
    ensures Sound(OnDownload(m, i, m.workers[i], ok).m)
  {
    var n := OnDownload(m, i, m.workers[i], ok).m;
    WorkerIsLatest(m, i, n.workers[i]);
    assert Latest(n) == n.workers[i];
  }

  lemma NotedKeeps(m: Machine, i: nat, ok: bool)
    requires Sound(m) && i < |m.workers| && m.workers[i].Download? && m.workers[i].load.Noted?
    requires OnDownload(m, i, m.workers[i], ok).Went?
    ensures Sound(OnDownload(m, i, m.workers[i], ok).m)
  {
    var n := OnDownload(m, i, m.workers[i], ok).m;
    WorkerIsLatest(m, i, n.workers[i]);
    assert Latest(n) == n.workers[i];
  }

  lemma MarkedKeeps(m: Machine, i: nat, ok: bool)
    requires Sound(m) && i < |m.workers| && m.workers[i].Download? && m.workers[i].load.Marked?
    requires OnDownload(m, i, m.workers[i], ok).Went?
    ensures Sound(OnDownload(m, i, m.workers[i], ok).m)
  {
    var n := OnDownload(m, i, m.workers[i], ok).m;
    WorkerIsLatest(m, i, n.workers[i]);
    assert Latest(n) == n.workers[i];
  }

  lemma DownloadKeepsSound(m: Machine, i: nat, ok: bool)
    requires Sound(m) && i < |m.workers| && m.workers[i].Download?
    ensures !OnDownload(m, i, m.workers[i], ok).Fault?
    ensures OnDownload(m, i, m.workers[i], ok).Went? ==> Sound(OnDownload(m, i, m.workers[i], ok).m)
  {
    if OnDownload(m, i, m.workers[i], ok).Went? {
      match m.workers[i].load
      case Working => WorkingKeeps(m, i, ok);
      case Finished(_) => FinishedKeeps(m, i, ok);
      case Telling(_) => TellingKeeps(m, i, ok);
      case Noted(_) => NotedKeeps(m, i, ok);
      case Marked => MarkedKeeps(m, i, ok);
    }
  }

  lemma NextKeepsSound(m: Machine, e: Event)
    requires Sound(m)
    ensures !Next(m, e).Fault?
    ensures Next(m, e).Went? ==> Sound(Next(m, e).m)
  {
    match e
    case Press(key, r) => KeyKeepsSound(m, key, r);
    case Go(r) => GoKeepsSound(m, r);
    case Work(i, list, ok) =>
      if i < |m.workers| {
        if m.workers[i].Fetch? {
          FetchKeepsSound(m, i, list);
        } else {
          DownloadKeepsSound(m, i, ok);
        }
      }
  }

  /** Every interleaving, from the start: no access outside a list, and every property holds at its end. */
  lemma {:induction false} RunKeepsSound(m: Machine, events: seq<Event>)
    requires Sound(m)
    ensures !Run(m, events).Fault?
    ensures Run(m, events).Went? ==> Sound(Run(m, events).m)
    decreases |events|
  {
    if events != [] {
      NextKeepsSound(m, events[0]);
      if Next(m, events[0]).Went? {
        RunKeepsSound(Next(m, events[0]).m, events[1..]);
      }
    }
  }

  // ----- What that means

  /** The host reaches `m` by some run. */
  ghost predicate Reachable(m: Machine) {
    exists instances, versions, disk, events ::
      Covers(versions, disk) && Run(Initial(instances, versions, disk), events) == Went(m)
  }

  lemma ReachableIsSound(m: Machine)
    requires Reachable(m)
    ensures Sound(m)
  {
    var instances, versions, disk, events :|
      Covers(versions, disk) && Run(Initial(instances, versions, disk), events) == Went(m);
    InitialIsSound(instances, versions, disk);
    RunKeepsSound(Initial(instances, versions, disk), events);
  }

  /** While the busy flag is up the downloads screen stays, and never more than one worker may write. */
  lemma OneWorker(m: Machine)
    requires Reachable(m)
    ensures m.f.dlBusy ==> m.f.screen.Downloads?
    ensures forall i, j | 0 <= i < j < |m.workers| :: !(Pending(m.workers[i]) && Pending(m.workers[j]))
    ensures forall i | 0 <= i < |m.workers| :: Pending(m.workers[i]) ==> m.f.dlBusy
  {
    ReachableIsSound(m);
  }

  predicate AboutToList(w: Worker) { w.Fetch? && w.fetch.Holding? }

  lemma OnlyHoldingWrites(m: Machine, i: nat, list: seq<string>, ok: bool)
    requires Next(m, Work(i, list, ok)).Went?
    ensures i < |m.workers|
    ensures Next(m, Work(i, list, ok)).m.f.dlVersions != m.f.dlVersions ==> AboutToList(m.workers[i])
  {
  }

  lemma ListerIsCurrent(m: Machine, i: nat)
    requires Sound(m) && i < |m.workers| && AboutToList(m.workers[i])
    ensures m.workers[i].epoch == m.epoch && m.f.dlVersions == [] && m.f.dlSel == 0
  {
    WorkerIsLatest(m, i, m.workers[i]);
  }

  /** A worker that writes a list writes it for the latest clearing, and onto an empty list. */
  lemma NoStaleList(m: Machine, i: nat, list: seq<string>, ok: bool)
    requires Reachable(m) && Next(m, Work(i, list, ok)).Went?
    ensures i < |m.workers|
    ensures Next(m, Work(i, list, ok)).m.f.dlVersions != m.f.dlVersions ==>
              m.workers[i].Fetch? && m.workers[i].epoch == m.epoch && m.f.dlVersions == [] && m.f.dlSel == 0
  {
    OnlyHoldingWrites(m, i, list, ok);
    if Next(m, Work(i, list, ok)).m.f.dlVersions != m.f.dlVersions {
      ReachableIsSound(m);
      ListerIsCurrent(m, i);
    }
  }

  /** When no worker is busy and no mark is left, the version list holds every version ever downloaded and
      not deleted. */
  lemma DownloadsAreSeen(m: Machine)
    requires Reachable(m) && !m.f.dlBusy && !m.f.dirty && !m.at.Rescanning?
    ensures Covers(m.f.versions, m.disk)
  {
    ReachableIsSound(m);
  }

  /** And with a mark left, the next pass of the main loop reads the list again. */
  lemma NextPassLists(m: Machine, r: Reply, r': Reply)
    requires Reachable(m) && !m.f.dlBusy && m.at.Dirty? && Covers(r'.versions, m.disk)
    ensures var passed := if m.f.dirty then Run(m, [Go(r), Go(r')]) else Run(m, [Go(r)]);
            passed.Went? && passed.m.at.Naming? && Covers(passed.m.f.versions, m.disk)
  {
    ReachableIsSound(m);
    var n := OnGo(m, r).m;
    if m.f.dirty {
      var k := OnGo(n, r').m;
      assert Run(k, []) == Went(k);
      assert [Go(r), Go(r')][1..] == [Go(r')] && [Go(r')][1..] == [];
      assert Run(n, [Go(r')]) == Went(k);
    } else {
      assert [Go(r)][1..] == [];
      assert Run(n, []) == Went(n);
    }
  }

  /** The server is started at most once, and its screen stays. */
  lemma ServerOnce(m: Machine)
    requires Reachable(m)
    ensures m.f.serverThreads <= 1
    ensures m.f.serverStarted <==> m.f.screen.Console?
    ensures m.f.serverStarted <==> m.f.serverThreads == 1
  {
    ReachableIsSound(m);
  }

  /** What a confirmation removes is the selected instance, and the message line shows its name. */
  lemma ConfirmRemovesTheNamed(m: Machine)
    requires Reachable(m) && m.f.confirmDelete
    ensures m.f.screen.Launcher? && Target(m.f).Some? && m.f.message == Prompt(Target(m.f).value.title)
  {
    ReachableIsSound(m);
  }

  /** Instances may be shown by one name; but as long as the question stands, no step of any thread changes
      the list, the selection or the line, so the answer is about the instance selected when it was asked. */
  lemma AskedInstanceStays(m: Machine, e: Event)
    requires Reachable(m) && m.f.confirmDelete && Next(m, e).Went? && Next(m, e).m.f.confirmDelete
    ensures Asks(m.f, Next(m, e).m.f)
  {
    ReachableIsSound(m);
    match e
    case Press(key, r) => AskedThroughKey(m, key, r);
    case Go(r) => AskedThroughGo(m, r);
    case Work(i, list, ok) => AskedThroughWork(m, i, list, ok);
  }

  /** The question of `f` still stands in `g`, about the same instance. */
  predicate Asks(f: Fields, g: Fields) {
    Target(g) == Target(f) && g.instances == f.instances && g.message == f.message
  }

  lemma AskedThroughKey(m: Machine, key: Key, r: Reply)
    requires Confirming(m.f) && m.f.confirmDelete && OnKey(m, key, r).Went? && OnKey(m, key, r).m.f.confirmDelete
    ensures Asks(m.f, OnKey(m, key, r).m.f)
  {
  }

  lemma AskedThroughGo(m: Machine, r: Reply)
    requires Confirming(m.f) && Places(m) && m.f.confirmDelete && OnGo(m, r).Went?
    ensures Asks(m.f, OnGo(m, r).m.f)
  {
  }

  lemma AskedThroughWork(m: Machine, i: nat, list: seq<string>, ok: bool)
    requires Next(m, Work(i, list, ok)).Went?
    ensures Asks(m.f, Next(m, Work(i, list, ok)).m.f)
  {
    if m.workers[i].Fetch? {
      AskedThroughFetch(m, i, m.workers[i], list);
    } else {
      AskedThroughDownload(m, i, m.workers[i], ok);
    }
  }

  lemma AskedThroughFetch(m: Machine, i: nat, w: Worker, list: seq<string>)
    requires i < |m.workers| && w.Fetch? && OnFetch(m, i, w, list).Went?
    ensures Asks(m.f, OnFetch(m, i, w, list).m.f)
  {
  }

  lemma AskedThroughDownload(m: Machine, i: nat, w: Worker, ok: bool)
    requires i < |m.workers| && w.Download? && OnDownload(m, i, w, ok).Went?
    ensures Asks(m.f, OnDownload(m, i, w, ok).m.f)
  {
  }

  /** Nobody waits for ever for the list: whenever it is locked, the worker that holds it can step. */
  lemma LockedCanStep(m: Machine, list: seq<string>, ok: bool)
    requires Reachable(m) && m.locked
    ensures m.workers != [] && HoldsLock(Latest(m)) && Next(m, Work(|m.workers| - 1, list, ok)).Went?
  {
    ReachableIsSound(m);
  }

  // ----- Reaching a state step by step

  lemma {:induction false} RunSnoc(m: Machine, events: seq<Event>, e: Event)
    requires Run(m, events).Went?
    ensures Run(m, events + [e]) == Next(Run(m, events).m, e)
    decreases |events|
  {
    if events == [] {
      assert [e][1..] == [];
    } else {
      assert (events + [e])[1..] == events[1..] + [e];
      RunSnoc(Next(m, events[0]).m, events[1..], e);
    }
  }

  lemma ReachStep(m: Machine, e: Event, n: Machine)
    requires Reachable(m) && Next(m, e) == Went(n)
    ensures Reachable(n)
  {
    var instances, versions, disk, events :|
      Covers(versions, disk) && Run(Initial(instances, versions, disk), events) == Went(m);
    RunSnoc(Initial(instances, versions, disk), events, e);
    assert Run(Initial(instances, versions, disk), events + [e]) == Next(m, e);
  }

  const ANY := Reply(false, false, true, "", [], [])

  /** `EnterDownloads` to its end. */
  lemma EnterReaches(m: Machine, n: Machine)
    requires Reachable(m) && m.at.Entering? && !m.f.serverStarted && !m.locked
    requires n == m.(at := Events, epoch := m.epoch + 1, workers := m.workers + [Fetch(m.epoch + 1, Fetching)],
                     f := m.f.(screen := Downloads, dlSel := 0, dlVersions := [], dlBusy := true))
    ensures Reachable(n)
  {
    var a := m.(at := Clearing, f := m.f.(screen := Downloads, dlSel := 0));
    var b := a.(at := Busying, f := a.f.(dlVersions := []), epoch := m.epoch + 1);
    ReachStep(m, Go(ANY), a);
    ReachStep(a, Go(ANY), b);
    SpawnReaches(b, n);
  }

  lemma SpawnReaches(b: Machine, n: Machine)
    requires Reachable(b) && b.at.Busying?
    requires n == b.(at := Events, workers := b.workers + [Fetch(b.epoch, Fetching)], f := b.f.(dlBusy := true))
    ensures Reachable(n)
  {
    var c := b.(at := Spawning, f := b.f.(dlBusy := true));
    ReachStep(b, Go(ANY), c);
    ReachStep(c, Go(ANY), n);
  }

  lemma LastUpdated(front: seq<Worker>, v: Worker, w: Worker)
    ensures (front + [v])[|front|] == v && (front + [v])[|front| := w] == front + [w]
  {
  }

  /** A step of the latest worker. */
  lemma FetchStep(m: Machine, front: seq<Worker>, w: Worker, list: seq<string>, n: Machine)
    requires Reachable(m) && m.workers == front + [w] && w.Fetch? && OnFetch(m, |front|, w, list) == Went(n)
    ensures Reachable(n)
  {
    ReachStep(m, Work(|front|, list, true), n);
  }

  lemma DownloadStep(m: Machine, front: seq<Worker>, w: Worker, n: Machine)
    requires Reachable(m) && m.workers == front + [w] && w.Download? && OnDownload(m, |front|, w, true) == Went(n)
    ensures Reachable(n)
  {
    ReachStep(m, Work(|front|, [], true), n);
  }

  /** The latest worker loads its list. */
  lemma FetchReaches(m: Machine, front: seq<Worker>, list: seq<string>, n: Machine)
    requires Reachable(m) && !m.locked && m.workers == front + [Fetch(m.epoch, Fetching)]
    requires n == m.(workers := front + [Fetch(m.epoch, FetchDone)], f := m.f.(dlVersions := list, dlBusy := false))
    ensures Reachable(n)
  {
    var e := m.epoch;
    var a := m.(locked := true, workers := front + [Fetch(e, Holding(list))]);
    var b := a.(f := a.f.(dlVersions := list), workers := front + [Fetch(e, Listed)]);
    LastUpdated(front, Fetch(e, Fetching), Fetch(e, Holding(list)));
    LastUpdated(front, Fetch(e, Holding(list)), Fetch(e, Listed));
    FetchStep(m, front, Fetch(e, Fetching), list, a);
    FetchStep(a, front, Fetch(e, Holding(list)), list, b);
    FetchEnds(b, front, e, n);
  }

  lemma FetchEnds(b: Machine, front: seq<Worker>, e: nat, n: Machine)
    requires Reachable(b) && b.locked && b.workers == front + [Fetch(e, Listed)]
    requires n == b.(locked := false, workers := front + [Fetch(e, FetchDone)], f := b.f.(dlBusy := false))
    ensures Reachable(n)
  {
    var c := b.(workers := front + [Fetch(e, Told)]);
    var d := c.(f := c.f.(dlBusy := false), workers := front + [Fetch(e, Freed)]);
    LastUpdated(front, Fetch(e, Listed), Fetch(e, Told));
    LastUpdated(front, Fetch(e, Told), Fetch(e, Freed));
    LastUpdated(front, Fetch(e, Freed), Fetch(e, FetchDone));
    FetchStep(b, front, Fetch(e, Listed), [], c);
    FetchStep(c, front, Fetch(e, Told), [], d);
    FetchStep(d, front, Fetch(e, Freed), [], n);
  }

  /** The selected version is asked for. */
  lemma ChooseReaches(m: Machine, n: Machine)
    requires Reachable(m) && m.at.Events? && m.f.screen.Downloads? && !m.f.dlBusy && !m.locked
    requires 0 <= m.f.dlSel < |m.f.dlVersions|
    requires n == m.(workers := m.workers + [Download(m.f.dlVersions[m.f.dlSel], Working)], f := m.f.(dlBusy := true))
    ensures Reachable(n)
  {
    var a := m.(at := HaveCount(Accept, |m.f.dlVersions|));
    ReachStep(m, Press(Accept, ANY), a);
    ReachStep(a, Go(ANY), m.(at := Starting));
    ReachStep(m.(at := Starting), Go(ANY), m.(at := Choosing));
    LaunchReaches(m.(at := Choosing), n);
  }

  lemma LaunchReaches(m: Machine, n: Machine)
    requires Reachable(m) && m.at.Choosing? && !m.locked && 0 <= m.f.dlSel < |m.f.dlVersions|
    requires n == m.(at := Events, workers := m.workers + [Download(m.f.dlVersions[m.f.dlSel], Working)],
                     f := m.f.(dlBusy := true))
    ensures Reachable(n)
  {
    var a := m.(at := Reserving(m.f.dlVersions[m.f.dlSel]));
    ReachStep(m, Go(ANY), a);
    ReserveReaches(a, m.f.dlVersions[m.f.dlSel], n);
  }

  lemma ReserveReaches(a: Machine, v: string, n: Machine)
    requires Reachable(a) && a.at == Reserving(v)
    requires n == a.(at := Events, workers := a.workers + [Download(v, Working)], f := a.f.(dlBusy := true))
    ensures Reachable(n)
  {
    var b := a.(at := Launching(v), f := a.f.(dlBusy := true));
    ReachStep(a, Go(ANY), b);
    ReachStep(b, Go(ANY), n);
  }

  /** The latest worker downloads its version. */
  lemma DownloadReaches(m: Machine, front: seq<Worker>, v: string, n: Machine)
    requires Reachable(m) && !m.locked && m.workers == front + [Download(v, Working)]
    requires n == m.(workers := front + [Download(v, DownloadDone)], disk := m.disk + {v},
                     f := m.f.(dirty := true, dlBusy := false))
    ensures Reachable(n)
  {
    var a := m.(disk := m.disk + {v}, workers := front + [Download(v, Finished(true))]);
    var b := a.(locked := true, workers := front + [Download(v, Telling(true))]);
    LastUpdated(front, Download(v, Working), Download(v, Finished(true)));
    LastUpdated(front, Download(v, Finished(true)), Download(v, Telling(true)));
    DownloadStep(m, front, Download(v, Working), a);
    DownloadStep(a, front, Download(v, Finished(true)), b);
    DownloadEnds(b, front, v, n);
  }

  lemma DownloadEnds(b: Machine, front: seq<Worker>, v: string, n: Machine)
    requires Reachable(b) && b.workers == front + [Download(v, Telling(true))]
    requires n == b.(locked := false, workers := front + [Download(v, DownloadDone)],
                     f := b.f.(dirty := true, dlBusy := false))
    ensures Reachable(n)
  {
    var c := b.(locked := false, workers := front + [Download(v, Noted(true))]);
    var d := c.(f := c.f.(dirty := true), workers := front + [Download(v, Marked)]);
    LastUpdated(front, Download(v, Telling(true)), Download(v, Noted(true)));
    LastUpdated(front, Download(v, Noted(true)), Download(v, Marked));
    LastUpdated(front, Download(v, Marked), Download(v, DownloadDone));
    DownloadStep(b, front, Download(v, Telling(true)), c);
    DownloadStep(c, front, Download(v, Noted(true)), d);
    DownloadStep(d, front, Download(v, Marked), n);
  }

  // ----- What the question tells

  ghost predicate Asking(m: Machine, instances: seq<Instance>) {
    Reachable(m) && m.f.confirmDelete && m.f.instances == instances
  }

  /** The same line always means the same instance. */
  ghost predicate LineTells(instances: seq<Instance>) {
    forall m, n | Asking(m, instances) && Asking(n, instances) && m.f.message == n.f.message ::
      Target(m.f) == Target(n.f)
  }

  predicate TitlesTell(instances: seq<Instance>) {
    forall i, j | 0 <= i < j < |instances| && instances[i].title == instances[j].title :: instances[i] == instances[j]
  }

  /** The launcher with the `i`-th instance selected. */
  function Selecting(instances: seq<Instance>, i: nat): Machine {
    var a := Initial(instances, [], {});
    a.(f := a.f.(instanceSel := i))
  }

  lemma {:induction false} SelectingIsReachable(instances: seq<Instance>, i: nat)
    requires i < |instances|
    ensures Reachable(Selecting(instances, i))
  {
    if i == 0 {
      assert Run(Selecting(instances, 0), []) == Went(Initial(instances, [], {}));
    } else {
      SelectingIsReachable(instances, i - 1);
      MovesByOne(i - 1, |instances|);
      ReachStep(Selecting(instances, i - 1), Press(Down, ANY), Selecting(instances, i));
    }
  }

  lemma AskingIsReachable(instances: seq<Instance>, i: nat) returns (m: Machine)
    requires i < |instances|
    ensures Asking(m, instances) && Target(m.f) == Some(instances[i]) && m.f.message == Prompt(instances[i].title)
  {
    SelectingIsReachable(instances, i);
    var a := Selecting(instances, i);
    m := a.(f := a.f.(confirmDelete := true, message := Prompt(instances[i].title)));
    ReachStep(a, Press(Remove, ANY), m);
  }

  /** The line tells which instance is meant exactly for lists in which no two instances are shown alike. */
  lemma LineTellsIffTitlesDo(instances: seq<Instance>)
    ensures LineTells(instances) <==> TitlesTell(instances)
  {
    if TitlesTell(instances) {
      forall m, n | Asking(m, instances) && Asking(n, instances) && m.f.message == n.f.message
        ensures Target(m.f) == Target(n.f)
      {
        ConfirmRemovesTheNamed(m);
        ConfirmRemovesTheNamed(n);
      }
    }
    if LineTells(instances) {
      forall i, j | 0 <= i < j < |instances| && instances[i].title == instances[j].title
        ensures instances[i] == instances[j]
      {
        var m := AskingIsReachable(instances, i);
        var n := AskingIsReachable(instances, j);
        assert Target(m.f) == Target(n.f);
      }
    }
  }
}
