/** The host's screens: the member variables of the application object, what its key handlers and its main
    loop do with them, and the object itself. */
module Host {
  import opened Text

  datatype Screen = Launcher | NewServer | Downloads | Console

  /** The keys as the screens read them: `New` is Y, N or D, `Remove` is X. */
  datatype Key = Up | Down | Accept | New | Remove | Back | Other

  datatype Version = Version(id: string, bundled: bool)

  /** The directory of an instance, and the name it is shown by; two instances may be shown alike. */
  datatype Instance = Instance(id: string, title: string)

  /** What the launcher's message line says, as far as it matters: the question that names an instance. */
  datatype Message = Quiet | Prompt(title: string) | Notice

  /** The member variables of the application object. */
  datatype Fields = Fields(
    screen: Screen,
    instances: seq<Instance>, instanceSel: int, confirmDelete: bool, message: Message,
    versions: seq<Version>, versionSel: int,
    naming: bool, keyboardSeen: bool, createFrom: int,
    serverStarted: bool, serverThreads: nat,
    dlVersions: seq<string>, dlSel: int, dlBusy: bool, dirty: bool)

  /** What the system answers to a step: whether the text entry is active or was submitted, whether a thread
      was made or an operation went well, and what the directories hold. */
  datatype Reply = Reply(active: bool, submitted: bool, ok: bool, newId: string,
                         instances: seq<Instance>, versions: seq<Version>)

  /** A selection in a list; an empty list has selection 0. */
  predicate Selected<T>(list: seq<T>, sel: int) {
    0 <= sel < |list| || (list == [] && sel == 0)
  }

  function Clamp(sel: int, n: nat): int {
    if sel < n then sel else if n == 0 then 0 else n - 1
  }

  function Previous(sel: int, n: nat): int {
    if n > 0 then (sel + n - 1) % n else sel
  }

  function Following(sel: int, n: nat): int {
    if n > 0 then (sel + 1) % n else sel
  }

  // ----- The handlers that touch nothing shared; None is an access outside a list

  function StartSelected(f: Fields, made: bool): Option<Fields> {
    if f.serverStarted || f.instances == [] then Some(f)
    else if !(0 <= f.instanceSel < |f.instances|) then None
    else if !made then Some(f.(message := Notice))
    else Some(f.(serverThreads := f.serverThreads + 1, serverStarted := true, screen := Console))
  }

  function EnterNewServer(f: Fields, found: seq<Version>): Fields {
    if f.serverStarted then f
    else f.(screen := NewServer, versions := found, versionSel := 0, message := Quiet)
  }

  function BeginCreate(f: Fields): Fields {
    if f.versions == [] then f
    else f.(createFrom := f.versionSel, naming := true, keyboardSeen := false)
  }

  /** The place of the new instance in the list, if it is there. */
  function IndexOf(list: seq<Instance>, id: string): (i: Option<nat>)
    ensures i.None? ==> forall k | 0 <= k < |list| :: list[k].id != id
    ensures i.Some? ==> i.value < |list| && list[i.value].id == id && forall k | 0 <= k < i.value :: list[k].id != id
  {
    if list == [] then None
    else if list[0].id == id then Some(0)
    else match IndexOf(list[1..], id)
      case None => None
      case Some(i) => Some(i + 1)
  }

  /** The selection after creating: the new instance when it is listed, else the old selection, in range. */
  function Landing(sel: int, ok: bool, id: string, found: seq<Instance>): int {
    var at := IndexOf(found, id);
    var wanted := Clamp(if ok && at.Some? then at.value else sel, |found|);
    if wanted < 0 then 0 else wanted
  }

  function FinishCreate(f: Fields, ok: bool, id: string, found: seq<Instance>): Fields {
    if !(0 <= f.createFrom < |f.versions|) then f
    else f.(instances := found, instanceSel := Landing(f.instanceSel, ok, id, found), screen := Launcher,
            message := Notice)
  }

  function BeginDelete(f: Fields): Option<Fields> {
    if f.instances == [] then Some(f)
    else if !(0 <= f.instanceSel < |f.instances|) then None
    else Some(f.(confirmDelete := true, message := Prompt(f.instances[f.instanceSel].title)))
  }

  /** Which instance a confirmation removes. */
  function Target(f: Fields): Option<Instance> {
    if 0 <= f.instanceSel < |f.instances| then Some(f.instances[f.instanceSel]) else None
  }

  function DeleteSelected(f: Fields, found: seq<Instance>): Option<Fields> {
    if f.instances == [] then Some(f.(confirmDelete := false))
    else if Target(f).None? then None
    else
      var sel := if f.instanceSel >= |found| then |found| - 1 else f.instanceSel;
      Some(f.(confirmDelete := false, instances := found, instanceSel := if sel < 0 then 0 else sel,
              message := Notice))
  }

  function DeleteVersion(f: Fields, found: seq<Version>): Option<Fields> {
    if f.versions == [] then Some(f)
    else if !(0 <= f.versionSel < |f.versions|) then None
    else if f.versions[f.versionSel].bundled then Some(f.(message := Notice))
    else
      var sel := if f.versionSel >= |found| then |found| - 1 else f.versionSel;
      Some(f.(versions := found, versionSel := if sel < 0 then 0 else sel, message := Notice))
  }

  function LauncherKey(f: Fields, key: Key, r: Reply): Option<Fields> {
    if f.confirmDelete then
      if key.Remove? then DeleteSelected(f, r.instances)
      else if key.Back? then Some(f.(confirmDelete := false, message := Quiet))
      else Some(f)
    else match key
      case Up => Some(f.(instanceSel := Previous(f.instanceSel, |f.instances|)))
      case Down => Some(f.(instanceSel := Following(f.instanceSel, |f.instances|)))
      case Accept => StartSelected(f, r.ok)
      case New => Some(EnterNewServer(f, r.versions))
      case Remove => if f.instances != [] then BeginDelete(f) else Some(f)
      case Back => Some(f)
      case Other => Some(f)
  }

  /** Keys of the new-server screen, but for the one that enters the downloads. */
  function NewServerKey(f: Fields, key: Key, r: Reply): Option<Fields> {
    if r.active then Some(f)
    else match key
      case Up => Some(f.(versionSel := Previous(f.versionSel, |f.versions|)))
      case Down => Some(f.(versionSel := Following(f.versionSel, |f.versions|)))
      case Accept => Some(BeginCreate(f))
      case New => Some(f)
      case Remove => DeleteVersion(f, r.versions)
      case Back => Some(f.(screen := Launcher, message := Quiet))
      case Other => Some(f)
  }

  /** The version that finishing the creation would copy. */
  function Source(f: Fields): Option<Version> {
    if 0 <= f.createFrom < |f.versions| then Some(f.versions[f.createFrom]) else None
  }

  function Rescan(f: Fields, found: seq<Version>): Fields {
    f.(versions := found, versionSel := Clamp(f.versionSel, |found|))
  }

  /** What a pass of the main loop does for a name that is being typed. */
  function PollNaming(f: Fields, r: Reply): Fields {
    if !(f.screen.NewServer? && f.naming) then f
    else if r.submitted then FinishCreate(f.(naming := false, keyboardSeen := false), r.ok, r.newId, r.instances)
    else if r.active then f.(keyboardSeen := true)
    else if f.keyboardSeen then f.(naming := false, keyboardSeen := false)
    else f
  }

  // ----- What the handlers are for

  lemma PastTheEnd(a: nat, n: nat)
    requires n <= a < 2 * n
    ensures a % n == a - n
  {
    var r := a - n;
    assert a == 1 * n + r;
  }

  /** One step up or down, as far as the list goes, then around. */
  lemma MovesByOne(sel: int, n: nat)
    requires 0 <= sel < n
    ensures Previous(sel, n) == if sel == 0 then n - 1 else sel - 1
    ensures Following(sel, n) == if sel == n - 1 then 0 else sel + 1
  {
    StepsBack(sel, n);
    StepsOn(sel, n);
  }

  lemma StepsBack(sel: int, n: nat)
    requires 0 <= sel < n
    ensures (sel + n - 1) % n == if sel == 0 then n - 1 else sel - 1
  {
    if sel > 0 {
      PastTheEnd(sel + n - 1, n);
    }
  }

  lemma StepsOn(sel: int, n: nat)
    requires 0 <= sel < n
    ensures (sel + 1) % n == if sel == n - 1 then 0 else sel + 1
  {
    if sel == n - 1 {
      PastTheEnd(sel + 1, n);
    }
  }

  /** Up and down undo each other on every list, ends included. */
  lemma MovesUndoEachOther(sel: int, n: nat)
    requires 0 <= sel < n
    ensures 0 <= Previous(sel, n) < n && 0 <= Following(sel, n) < n
    ensures Following(Previous(sel, n), n) == sel && Previous(Following(sel, n), n) == sel
  {
    MovesByOne(sel, n);
    MovesByOne(if sel == 0 then n - 1 else sel - 1, n);
    MovesByOne(if sel == n - 1 then 0 else sel + 1, n);
  }

  /** A created instance that is found on the disk is selected, whatever was selected before and wherever
      the list has it; without it the selection stays where it was, as far as the list reaches. */
  lemma CreatedIsSelected(f: Fields, ok: bool, id: string, found: seq<Instance>)
    requires 0 <= f.createFrom < |f.versions| && 0 <= f.instanceSel
    ensures var g := FinishCreate(f, ok, id, found);
            var there := exists i | 0 <= i < |found| :: found[i].id == id;
            && g.screen.Launcher? && g.instances == found && Selected(found, g.instanceSel)
            && (ok && there ==> Target(g).Some? && Target(g).value.id == id)
            && (!(ok && there) && f.instanceSel < |found| ==> g.instanceSel == f.instanceSel)
  {
  }

  // ----- What always holds of the fields

  predicate Selections(f: Fields) {
    && Selected(f.instances, f.instanceSel)
    && Selected(f.versions, f.versionSel)
    && (f.dlSel == 0 || 0 <= f.dlSel < |f.dlVersions|)
  }

  predicate Server(f: Fields) {
    (f.serverStarted <==> f.screen.Console?) && f.serverThreads == (if f.serverStarted then 1 else 0)
  }

  predicate Confirming(f: Fields) {
    f.confirmDelete ==> f.screen.Launcher? && f.instances != [] && Selected(f.instances, f.instanceSel)
                        && f.message == Prompt(f.instances[f.instanceSel].title)
  }

  predicate Own(f: Fields) {
    Selections(f) && Server(f) && Confirming(f)
  }

  lemma WrapStays(sel: int, n: nat)
    requires 0 <= sel < n || (n == 0 && sel == 0)
    ensures n > 0 ==> 0 <= Previous(sel, n) < n && 0 <= Following(sel, n) < n
    ensures n == 0 ==> Previous(sel, n) == sel && Following(sel, n) == sel
  {
  }

  // ----- What the keys do

  /** The place before `sel`, or the last one before the first. */
  predicate IsBefore(sel: int, n: nat, to: int) {
    if n == 0 then to == sel else to == if sel == 0 then n - 1 else sel - 1
  }

  /** The place behind `sel`, or the first one behind the last. */
  predicate IsBehind(sel: int, n: nat, to: int) {
    if n == 0 then to == sel else to == if sel == n - 1 then 0 else sel + 1
  }

  /** The same place in the list read again, or its last one. */
  predicate IsKept(sel: int, n: nat, to: int) {
    if sel < n then to == sel else to == if n == 0 then 0 else n - 1
  }

  predicate SameInstances(f: Fields, g: Fields) {
    g.instances == f.instances && g.instanceSel == f.instanceSel
  }

  predicate SameVersions(f: Fields, g: Fields) {
    g.versions == f.versions && g.versionSel == f.versionSel
  }

  predicate SameServer(f: Fields, g: Fields) {
    g.screen == f.screen && g.serverStarted == f.serverStarted && g.serverThreads == f.serverThreads
  }

  /** With no question up: up and down move the selection, the start key starts the server, the new key leads
      to the new-server screen, and the remove key asks. */
  predicate LauncherDoes(f: Fields, key: Key, r: Reply, g: Fields) {
    match key
    case Up =>
      IsBefore(f.instanceSel, |f.instances|, g.instanceSel) && g.instances == f.instances && SameServer(f, g)
      && !g.confirmDelete && SameVersions(f, g)
    case Down =>
      IsBehind(f.instanceSel, |f.instances|, g.instanceSel) && g.instances == f.instances && SameServer(f, g)
      && !g.confirmDelete && SameVersions(f, g)
    case Accept =>
      SameInstances(f, g) && SameVersions(f, g) && !g.confirmDelete
      && if f.instances != [] && r.ok then
           g.screen.Console? && g.serverStarted && g.serverThreads == f.serverThreads + 1
         else SameServer(f, g)
    case New =>
      g.screen.NewServer? && g.versions == r.versions && g.versionSel == 0 && g.message.Quiet?
      && SameInstances(f, g) && g.serverThreads == f.serverThreads
    case Remove =>
      SameInstances(f, g) && SameVersions(f, g) && SameServer(f, g)
      && (g.confirmDelete <==> f.instances != [])
      && (Selected(f.instances, f.instanceSel) && f.instances != [] ==>
            g.message == Prompt(f.instances[f.instanceSel].title))
    case _ => g == f
  }

  /** With the question up: the remove key takes the selected instance away, back ends the question, and no
      other key does anything. */
  predicate QuestionDoes(f: Fields, key: Key, r: Reply, g: Fields) {
    match key
    case Remove =>
      !g.confirmDelete && SameServer(f, g) && SameVersions(f, g)
      && g.instances == r.instances && IsKept(f.instanceSel, |r.instances|, g.instanceSel)
    case Back => !g.confirmDelete && g.message.Quiet? && SameInstances(f, g) && SameServer(f, g) && SameVersions(f, g)
    case _ => g == f
  }

  /** With no name being typed: up and down move the selection, the start key begins naming, the remove key
      takes the selected version away unless it is bundled, and back leads to the launcher. */
  predicate NewServerDoes(f: Fields, key: Key, r: Reply, g: Fields) {
    match key
    case Up =>
      IsBefore(f.versionSel, |f.versions|, g.versionSel) && g.versions == f.versions && SameServer(f, g)
      && g.naming == f.naming
    case Down =>
      IsBehind(f.versionSel, |f.versions|, g.versionSel) && g.versions == f.versions && SameServer(f, g)
      && g.naming == f.naming
    case Accept =>
      SameVersions(f, g) && SameServer(f, g)
      && if f.versions != [] then g.naming && !g.keyboardSeen && g.createFrom == f.versionSel else g == f
    case Remove =>
      SameServer(f, g) && g.naming == f.naming && g.createFrom == f.createFrom
      && if 0 <= f.versionSel < |f.versions| && !f.versions[f.versionSel].bundled then
           g.versions == r.versions && IsKept(f.versionSel, |r.versions|, g.versionSel)
         else SameVersions(f, g)
    case Back =>
      g.screen.Launcher? && g.message.Quiet? && SameVersions(f, g) && SameInstances(f, g) && g.naming == f.naming
    case _ => g == f
  }

  lemma MovesAreSteps(sel: int, n: nat)
    requires 0 <= sel < n || (n == 0 && sel == 0)
    ensures IsBefore(sel, n, Previous(sel, n)) && IsBehind(sel, n, Following(sel, n))
  {
    if n > 0 {
      MovesByOne(sel, n);
    }
  }

  lemma LauncherKeyDoes(f: Fields, key: Key, r: Reply)
    requires Own(f) && f.screen.Launcher? && !f.confirmDelete
    ensures LauncherKey(f, key, r).Some? && LauncherDoes(f, key, r, LauncherKey(f, key, r).value)
  {
    if key.Up? || key.Down? {
      MovesAreSteps(f.instanceSel, |f.instances|);
      SelectionOnly(f, key, r);
    } else {
      OtherLauncherKey(f, key, r);
    }
  }

  lemma SelectionOnly(f: Fields, key: Key, r: Reply)
    requires !f.confirmDelete && (key.Up? || key.Down?)
    ensures var sel, n := f.instanceSel, |f.instances|;
            LauncherKey(f, key, r) == Some(f.(instanceSel := if key.Up? then Previous(sel, n) else Following(sel, n)))
  {
  }

  lemma OtherLauncherKey(f: Fields, key: Key, r: Reply)
    requires Own(f) && f.screen.Launcher? && !f.confirmDelete && !key.Up? && !key.Down?
    ensures LauncherKey(f, key, r).Some? && LauncherDoes(f, key, r, LauncherKey(f, key, r).value)
  {
  }

  lemma QuestionKeyDoes(f: Fields, key: Key, r: Reply)
    requires Own(f) && f.screen.Launcher? && f.confirmDelete
    ensures LauncherKey(f, key, r).Some? && QuestionDoes(f, key, r, LauncherKey(f, key, r).value)
  {
  }

  lemma NewServerKeyDoes(f: Fields, key: Key, r: Reply)
    requires Own(f) && f.screen.NewServer?
    ensures NewServerKey(f, key, r).Some?
    ensures if r.active then NewServerKey(f, key, r).value == f
            else NewServerDoes(f, key, r, NewServerKey(f, key, r).value)
  {
    if !r.active && (key.Up? || key.Down?) {
      MovesAreSteps(f.versionSel, |f.versions|);
      VersionSelectionOnly(f, key, r);
    } else {
      OtherNewServerKey(f, key, r);
    }
  }

  lemma VersionSelectionOnly(f: Fields, key: Key, r: Reply)
    requires !r.active && (key.Up? || key.Down?)
    ensures var sel, n := f.versionSel, |f.versions|;
            NewServerKey(f, key, r) == Some(f.(versionSel := if key.Up? then Previous(sel, n) else Following(sel, n)))
  {
  }

  lemma OtherNewServerKey(f: Fields, key: Key, r: Reply)
    requires Own(f) && f.screen.NewServer? && (r.active || (!key.Up? && !key.Down?))
    ensures NewServerKey(f, key, r).Some?
    ensures if r.active then NewServerKey(f, key, r).value == f
            else NewServerDoes(f, key, r, NewServerKey(f, key, r).value)
  {
  }

  // ----- The application object

  class App {
    var screen: Screen
    var instances: seq<Instance>
    var instanceSel: int
    var confirmDelete: bool
    var message: Message
    var versions: seq<Version>
    var versionSel: int
    var naming: bool
    var keyboardSeen: bool
    var createFrom: int
    var serverStarted: bool
    var serverThreads: nat
    var dlVersions: seq<string>
    var dlSel: int
    var dlBusy: bool
    var dirty: bool

    constructor (instances: seq<Instance>, versions: seq<Version>)
      ensures Valid() && Values() == Start(instances, versions)
    {
      screen, message := Launcher, Quiet;
      this.instances, instanceSel, confirmDelete := instances, 0, false;
      this.versions, versionSel := versions, 0;
      naming, keyboardSeen, createFrom := false, false, 0;
      serverStarted, serverThreads := false, 0;
      dlVersions, dlSel, dlBusy, dirty := [], 0, false, false;
    }

    ghost function Values(): Fields
      reads this
    {
      Fields(screen, instances, instanceSel, confirmDelete, message, versions, versionSel, naming, keyboardSeen,
             createFrom, serverStarted, serverThreads, dlVersions, dlSel, dlBusy, dirty)
    }

    /** Selections in range, one server thread exactly on the console, and a question that names the
        selected instance. */
    ghost predicate Valid()
      reads this
    {
      Own(Values())
    }

    /** One thread more exactly when there was none, something is selected and the system made it. */
    method StartSelectedInstance(made: bool)
      requires Valid() && screen.Launcher? && !confirmDelete
      modifies this
      ensures Valid() && Some(Values()) == StartSelected(old(Values()), made)
      ensures screen.Console? <==> old(instances) != [] && made
      ensures serverThreads == old(serverThreads) + (if old(instances) != [] && made then 1 else 0)
      ensures instances == old(instances) && instanceSel == old(instanceSel)
    {
      if serverStarted || instances == [] {
        return;
      }
      var _ := instances[instanceSel];
      if !made {
        message := Notice;
        return;
      }
      serverThreads := serverThreads + 1;
      serverStarted := true;
      screen := Console;
    }

    method EnterNewServerScreen(found: seq<Version>)
      requires Valid() && screen.Launcher? && !confirmDelete
      modifies this
      ensures Valid() && Values() == EnterNewServer(old(Values()), found)
      ensures screen.NewServer? && versions == found && versionSel == 0
    {
      if serverStarted {
        return;
      }
      screen := NewServer;
      versions := found;
      versionSel := 0;
      message := Quiet;
    }

    /** Naming begins for the selected version, if there is one. */
    method BeginCreateInstance()
      requires Valid()
      modifies this
      ensures Valid() && Values() == BeginCreate(old(Values()))
      ensures old(versions) != [] ==> naming && Source(Values()) == Some(old(versions[versionSel]))
    {
      if versions == [] {
        return;
      }
      createFrom := versionSel;
      naming := true;
      keyboardSeen := false;
    }

    /** Gives the version that is copied. */
    method FinishCreateInstance(ok: bool, id: string, found: seq<Instance>) returns (copied: Option<Version>)
      requires Valid() && screen.NewServer?
      modifies this
      ensures Valid() && Values() == FinishCreate(old(Values()), ok, id, found)
      ensures copied == Source(old(Values())) && (copied.Some? <==> screen.Launcher?)
      ensures copied.Some? ==> instances == found
      ensures copied.Some? && ok && (exists i | 0 <= i < |found| :: found[i].id == id) ==>
                Target(Values()).Some? && Target(Values()).value.id == id
    {
      if createFrom < 0 || createFrom >= |versions| {
        return None;
      }
      copied := Some(versions[createFrom]);
      instances := found;
      instanceSel := SelectCreated(instanceSel, ok, id, found);
      screen := Launcher;
      message := Notice;
      CreatedIsSelected(old(Values()), ok, id, found);
    }

    /** The question names the selected instance. */
    method BeginDeleteSelected()
      requires Valid() && screen.Launcher?
      modifies this
      ensures Valid() && Some(Values()) == BeginDelete(old(Values()))
      ensures old(instances) != [] ==> confirmDelete && Target(Values()) == Target(old(Values()))
                                       && message == Prompt(Target(old(Values())).value.title)
    {
      if instances == [] {
        return;
      }
      confirmDelete := true;
      message := Prompt(instances[instanceSel].title);
    }

    /** Gives the instance that is removed: the selected one. */
    method DeleteSelectedInstance(found: seq<Instance>) returns (removed: Option<Instance>)
      requires Valid() && screen.Launcher?
      modifies this
      ensures Valid() && Some(Values()) == DeleteSelected(old(Values()), found)
      ensures !confirmDelete && removed == Target(old(Values()))
      ensures removed.Some? ==> instances == found && IsKept(old(instanceSel), |found|, instanceSel)
      ensures old(confirmDelete) ==> removed.Some? && old(message) == Prompt(removed.value.title)
    {
      confirmDelete := false;
      if instances == [] {
        return None;
      }
      removed := Some(instances[instanceSel]);
      instances := found;
      if instanceSel >= |instances| {
        instanceSel := |instances| - 1;
      }
      if instanceSel < 0 {
        instanceSel := 0;
      }
      message := Notice;
    }

    /** Gives the version that is removed: the selected one, and never the bundled one. */
    method DeleteSelectedPoolVersion(found: seq<Version>) returns (removed: Option<Version>)
      requires Valid() && screen.NewServer?
      modifies this
      ensures Valid() && Some(Values()) == DeleteVersion(old(Values()), found)
      ensures removed.Some? <==> old(versions) != [] && !old(versions[versionSel]).bundled
      ensures removed.Some? ==> removed.value == old(versions[versionSel]) && versions == found
      ensures removed.Some? ==> IsKept(old(versionSel), |found|, versionSel)
      ensures removed.None? ==> versions == old(versions) && versionSel == old(versionSel)
    {
      if versions == [] {
        return None;
      }
      var v := versions[versionSel];
      if v.bundled {
        message := Notice;
        return None;
      }
      removed := Some(v);
      versions := found;
      if versionSel >= |versions| {
        versionSel := |versions| - 1;
      }
      if versionSel < 0 {
        versionSel := 0;
      }
      message := Notice;
    }

    /** Only the confirming key removes, and what it removes is what the line asked about; while that is
        asked no key but the confirming one moves a selection, changes the list or leaves the screen. */
    method OnLauncherKey(key: Key, r: Reply) returns (removed: Option<Instance>)
      requires Valid() && screen.Launcher?
      modifies this
      ensures Valid() && Some(Values()) == LauncherKey(old(Values()), key, r)
      ensures if old(confirmDelete) then QuestionDoes(old(Values()), key, r, Values())
              else LauncherDoes(old(Values()), key, r, Values())
      ensures removed.Some? <==> old(confirmDelete) && key.Remove?
      ensures removed.Some? ==> removed == Target(old(Values())) && old(message) == Prompt(removed.value.title)
      ensures old(confirmDelete) && !key.Remove? ==>
                screen.Launcher? && instances == old(instances) && instanceSel == old(instanceSel)
      ensures serverThreads > old(serverThreads) ==> key.Accept? && !old(confirmDelete) && r.ok
    {
      removed := None;
      ghost var was := Values();
      if confirmDelete {
        QuestionKeyDoes(was, key, r);
      } else {
        LauncherKeyDoes(was, key, r);
      }
      var n := |instances|;
      if confirmDelete {
        if key == Remove {
          removed := DeleteSelectedInstance(r.instances);
        } else if key == Back {
          confirmDelete := false;
          message := Quiet;
        }
        return;
      }
      if key == Up {
        MoveInstance(true);
      } else if key == Down {
        MoveInstance(false);
      } else if key == Accept {
        StartSelectedInstance(r.ok);
      } else if key == New {
        EnterNewServerScreen(r.versions);
      } else if key == Remove {
        if n > 0 {
          BeginDeleteSelected();
        }
      }
    }

    method MoveInstance(up: bool)
      requires Valid() && !confirmDelete
      modifies this`instanceSel
      ensures Valid()
      ensures instanceSel == old(if up then Previous(instanceSel, |instances|) else Following(instanceSel, |instances|))
      ensures if up then IsBefore(old(instanceSel), |instances|, instanceSel)
              else IsBehind(old(instanceSel), |instances|, instanceSel)
    {
      MovesAreSteps(instanceSel, |instances|);
      var n := |instances|;
      WrapStays(instanceSel, n);
      if n > 0 {
        instanceSel := if up then (instanceSel + n - 1) % n else (instanceSel + 1) % n;
      }
    }

    method MoveVersion(up: bool)
      requires Valid()
      modifies this`versionSel
      ensures Valid()
      ensures versionSel == old(if up then Previous(versionSel, |versions|) else Following(versionSel, |versions|))
      ensures if up then IsBefore(old(versionSel), |versions|, versionSel)
              else IsBehind(old(versionSel), |versions|, versionSel)
    {
      MovesAreSteps(versionSel, |versions|);
      var n := |versions|;
      WrapStays(versionSel, n);
      if n > 0 {
        versionSel := if up then (versionSel + n - 1) % n else (versionSel + 1) % n;
      }
    }

    /** While a name is typed no key does anything; else only the remove key takes a version away, the
        selected one. `New` goes on with the downloads, step by step. */
    method OnNewServerKey(key: Key, r: Reply) returns (removed: Option<Version>)
      requires Valid() && screen.NewServer?
      modifies this
      ensures Valid() && Some(Values()) == NewServerKey(old(Values()), key, r)
      ensures !r.active ==> NewServerDoes(old(Values()), key, r, Values())
      ensures r.active ==> Values() == old(Values())
      ensures removed.Some? <==> !r.active && key.Remove? && old(versions) != [] && !old(versions[versionSel]).bundled
      ensures removed.Some? ==> removed.value == old(versions[versionSel])
      ensures removed.None? ==> versions == old(versions)
    {
      removed := None;
      NewServerKeyDoes(Values(), key, r);
      if r.active {
        return;
      }
      if key == Up {
        MoveVersion(true);
      } else if key == Down {
        MoveVersion(false);
      } else if key == Accept {
        BeginCreateInstance();
      } else if key == Remove {
        removed := DeleteSelectedPoolVersion(r.versions);
      } else if key == Back {
        screen := Launcher;
        message := Quiet;
      }
    }

    method RescanVersions(found: seq<Version>)
      requires Valid()
      modifies this
      ensures Valid() && Values() == Rescan(old(Values()), found)
      ensures versions == found && IsKept(old(versionSel), |found|, versionSel)
    {
      versions := found;
      if versionSel >= |versions| {
        versionSel := if versions == [] then 0 else |versions| - 1;
      }
    }

    /** Gives the version that is copied, when a submitted name creates an instance: the one at the index
        remembered when naming began. Naming ends when the name is submitted or the entry is gone. */
    method PollName(r: Reply) returns (copied: Option<Version>)
      requires Valid()
      modifies this
      ensures Valid() && Values() == PollNaming(old(Values()), r)
      ensures copied == if old(screen.NewServer? && naming) && r.submitted then Source(old(Values())) else None
      ensures old(screen.NewServer? && naming) ==> (naming <==> !r.submitted && (r.active || !old(keyboardSeen)))
      ensures copied.None? ==> screen == old(screen) && instances == old(instances)
      ensures versions == old(versions) && versionSel == old(versionSel) && dirty == old(dirty)
      ensures copied.Some? ==> screen.Launcher? && instances == r.instances
      ensures copied.Some? && r.ok && (exists i | 0 <= i < |instances| :: instances[i].id == r.newId) ==>
                Target(Values()).Some? && Target(Values()).value.id == r.newId
      ensures old(screen.NewServer? && naming) ==> (keyboardSeen <==> !r.submitted && r.active)
    {
      copied := None;
      if screen != NewServer || !naming {
        return;
      }
      if r.submitted {
        naming := false;
        keyboardSeen := false;
        copied := FinishCreateInstance(r.ok, r.newId, r.instances);
      } else if r.active {
        keyboardSeen := true;
      } else if keyboardSeen {
        naming := false;
        keyboardSeen := false;
      }
    }

    method RereadByPass(r: Reply)
      requires Valid()
      modifies this
      ensures Valid() && !dirty && Values() == Reread(old(Values()), r)
      ensures if old(dirty) then versions == r.versions && IsKept(old(versionSel), |versions|, versionSel)
              else versions == old(versions) && versionSel == old(versionSel)
    {
      if dirty {
        dirty := false;
        RescanVersions(r.versions);
      }
    }

    /** A pass of the main loop after the events, as far as these fields go. */
    method Pass(r: Reply) returns (copied: Option<Version>)
      requires Valid()
      modifies this
      ensures Valid() && !dirty && Values() == PassFields(old(Values()), r)
      ensures copied == Copied(old(Values()), r)
      ensures if old(dirty) then versions == r.versions && IsKept(old(versionSel), |versions|, versionSel)
              else versions == old(versions) && versionSel == old(versionSel)
    {
      ghost var was := Values();
      RereadByPass(r);
      assert Values() == Reread(was, r);
      copied := PollName(r);
    }
  }

  /** A pass of the main loop: the list read again if the mark is up, then the naming poll. */
  function PassFields(f: Fields, r: Reply): Fields {
    PollNaming(Reread(f, r), r)
  }

  function Reread(f: Fields, r: Reply): Fields {
    if f.dirty then Rescan(f.(dirty := false), r.versions) else f
  }

  /** The version that a pass copies, if it creates an instance. */
  function Copied(f: Fields, r: Reply): Option<Version> {
    if f.screen.NewServer? && f.naming && r.submitted then Source(Reread(f, r)) else None
  }

  method SelectCreated(sel: int, ok: bool, id: string, found: seq<Instance>) returns (r: int)
    ensures r == Landing(sel, ok, id, found)
  {
    r := sel;
    if ok {
      for i := 0 to |found|
        invariant forall k | 0 <= k < i :: found[k].id != id
        invariant r == sel
      {
        if found[i].id == id {
          r := i;
          break;
        }
      }
    }
    if r >= |found| {
      r := if found == [] then 0 else |found| - 1;
    }
    if r < 0 {
      r := 0;
    }
  }

  function Start(instances: seq<Instance>, versions: seq<Version>): Fields {
    Fields(Launcher, instances, 0, false, Quiet, versions, 0, false, false, 0, false, 0, [], 0, false, false)
  }
}
