/** The downloads screen, from the keys to the list and the disk: each key and each worker run to its end. */
module DownloadRuns {
  import opened Host
  import opened HostRuns
  import opened Text

  function Gos(r: Reply, k: nat): seq<Event> {
    if k == 0 then [] else [Go(r)] + Gos(r, k - 1)
  }

  lemma RunCons(m: Machine, e: Event, n: Machine, rest: seq<Event>)
    requires Next(m, e) == Went(n)
    ensures Run(m, [e] + rest) == Run(n, rest)
  {
    assert ([e] + rest)[1..] == rest;
  }

  lemma GoOn(m: Machine, r: Reply, n: Machine, k: nat)
    requires k > 0 && OnGo(m, r) == Went(n)
    ensures Run(m, Gos(r, k)) == Run(n, Gos(r, k - 1))
  {
    RunCons(m, Go(r), n, Gos(r, k - 1));
  }

  // ----- Keys

  /** The screen with an empty list, and a worker sent for the versions. */
  function Reloading(m: Machine): Machine {
    m.(at := Events, epoch := m.epoch + 1, workers := m.workers + [Fetch(m.epoch + 1, Fetching)],
       f := m.f.(screen := Downloads, dlSel := 0, dlVersions := [], dlBusy := true))
  }

  lemma EnterRuns(m: Machine, r: Reply)
    requires m.at.Entering? && !m.f.serverStarted && !m.locked
    ensures Run(m, Gos(r, 4)) == Went(Reloading(m))
  {
    var a := m.(at := Clearing, f := m.f.(screen := Downloads, dlSel := 0));
    var b := a.(at := Busying, f := a.f.(dlVersions := []), epoch := m.epoch + 1);
    var c := b.(at := Spawning, f := b.f.(dlBusy := true));
    GoOn(m, r, a, 4);
    GoOn(a, r, b, 3);
    GoOn(b, r, c, 2);
    GoOn(c, r, Reloading(m), 1);
  }

  /** The key that leads from the new-server screen to the downloads has the versions loaded. */
  lemma NewServerLeadsToDownloads(m: Machine, r: Reply)
    requires Reachable(m) && m.at.Events? && m.f.screen.NewServer? && !r.active && !m.locked
    ensures Run(m, [Press(New, r)] + Gos(r, 4)) == Went(Reloading(m))
  {
    ReachableIsSound(m);
    RunCons(m, Press(New, r), m.(at := Entering), Gos(r, 4));
    EnterRuns(m.(at := Entering), r);
  }

  /** The downloads screen waits for a key, and nobody holds the list. */
  ghost predicate Waits(m: Machine) {
    Reachable(m) && m.at.Events? && m.f.screen.Downloads? && !m.locked
  }

  lemma KeyCounts(m: Machine, key: Key, r: Reply, k: nat)
    requires Waits(m)
    ensures Run(m, [Press(key, r)] + Gos(r, k + 1)) == Run(AfterCount(m, key, |m.f.dlVersions|), Gos(r, k))
  {
    var a := m.(at := HaveCount(key, |m.f.dlVersions|));
    assert OnGo(a, r) == Went(AfterCount(a, key, |m.f.dlVersions|));
    CountForgets(m, key);
    RunCons(m, Press(key, r), a, Gos(r, k + 1));
    GoOn(a, r, AfterCount(m, key, |m.f.dlVersions|), k + 1);
  }

  lemma CountForgets(m: Machine, key: Key)
    ensures AfterCount(m.(at := HaveCount(key, |m.f.dlVersions|)), key, |m.f.dlVersions|)
         == AfterCount(m, key, |m.f.dlVersions|)
  {
  }

  /** Up and down move the selection one place, around at the ends, and do nothing else. */
  lemma MovesSelect(m: Machine, key: Key, r: Reply)
    requires Waits(m) && (key.Up? || key.Down?)
    ensures var o := Run(m, [Press(key, r)] + Gos(r, 1));
            && o.Went? && o.m == m.(f := m.f.(dlSel := o.m.f.dlSel))
            && (m.f.dlVersions != [] ==>
                  if key.Up? then IsBefore(m.f.dlSel, |m.f.dlVersions|, o.m.f.dlSel)
                  else IsBehind(m.f.dlSel, |m.f.dlVersions|, o.m.f.dlSel))
            && (m.f.dlVersions == [] ==> o.m == m)
  {
    ReachableIsSound(m);
    KeyCounts(m, key, r, 0);
    if m.f.dlVersions != [] {
      MovesAreSteps(m.f.dlSel, |m.f.dlVersions|);
    }
  }

  /** Back leads to the new-server screen, unless a worker is busy. */
  lemma BackLeaves(m: Machine, r: Reply)
    requires Waits(m)
    ensures Run(m, [Press(Back, r)] + Gos(r, 1))
         == Went(if m.f.dlBusy then m else m.(f := m.f.(screen := NewServer)))
  {
    KeyCounts(m, Back, r, 0);
  }

  /** The new key has the versions loaded again, unless a worker is busy. */
  lemma NewReloads(m: Machine, r: Reply)
    requires Waits(m)
    ensures if m.f.dlBusy then Run(m, [Press(New, r)] + Gos(r, 1)) == Went(m)
            else Run(m, [Press(New, r)] + Gos(r, 5)) == Went(Reloading(m))
  {
    ReachableIsSound(m);
    if m.f.dlBusy {
      KeyCounts(m, New, r, 0);
    } else {
      KeyCounts(m, New, r, 4);
      EnterRuns(m.(at := Entering), r);
    }
  }

  /** The start key has the selected version downloaded; with an empty list it has the versions loaded; while a
      worker is busy it does nothing. */
  lemma AcceptDownloads(m: Machine, r: Reply)
    requires Waits(m)
    ensures m.f.dlBusy ==> Run(m, [Press(Accept, r)] + Gos(r, 2)) == Went(m)
    ensures !m.f.dlBusy && m.f.dlVersions == [] ==> Run(m, [Press(Accept, r)] + Gos(r, 5)) == Went(Reloading(m))
    ensures !m.f.dlBusy && m.f.dlVersions != [] ==>
              0 <= m.f.dlSel < |m.f.dlVersions|
              && Run(m, [Press(Accept, r)] + Gos(r, 5))
                 == Went(m.(workers := m.workers + [Download(m.f.dlVersions[m.f.dlSel], Working)],
                            f := m.f.(dlBusy := true)))
  {
    ReachableIsSound(m);
    if m.f.dlBusy {
      KeyCounts(m, Accept, r, 1);
      GoOn(m.(at := Starting), r, m, 1);
    } else if m.f.dlVersions == [] {
      KeyCounts(m, Accept, r, 4);
      EnterRuns(m.(at := Entering), r);
    } else {
      KeyCounts(m, Accept, r, 4);
      ChosenRuns(m, r);
    }
  }

  lemma ChosenRuns(m: Machine, r: Reply)
    requires Waits(m) && !m.f.dlBusy && 0 <= m.f.dlSel < |m.f.dlVersions|
    ensures Run(m.(at := Starting), Gos(r, 4))
         == Went(m.(workers := m.workers + [Download(m.f.dlVersions[m.f.dlSel], Working)], f := m.f.(dlBusy := true)))
  {
    var v := m.f.dlVersions[m.f.dlSel];
    var b, c := m.(at := Choosing), m.(at := Reserving(v));
    var d := c.(at := Launching(v), f := c.f.(dlBusy := true));
    GoOn(m.(at := Starting), r, b, 4);
    GoOn(b, r, c, 3);
    GoOn(c, r, d, 2);
    GoOn(d, r, m.(workers := m.workers + [Download(v, Working)], f := m.f.(dlBusy := true)), 1);
  }

  /** Other keys do nothing. */
  lemma OthersDoNothing(m: Machine, key: Key, r: Reply)
    requires Waits(m) && (key.Remove? || key.Other?)
    ensures Run(m, [Press(key, r)] + Gos(r, 1)) == Went(m)
  {
    KeyCounts(m, key, r, 0);
  }

  // ----- Workers

  function Works(i: nat, list: seq<string>, ok: bool, k: nat): seq<Event> {
    if k == 0 then [] else [Work(i, list, ok)] + Works(i, list, ok, k - 1)
  }

  lemma WorkOn(m: Machine, i: nat, list: seq<string>, ok: bool, n: Machine, k: nat)
    requires k > 0 && Next(m, Work(i, list, ok)) == Went(n)
    ensures Run(m, Works(i, list, ok, k)) == Run(n, Works(i, list, ok, k - 1))
  {
    RunCons(m, Work(i, list, ok), n, Works(i, list, ok, k - 1));
  }

  /** A worker sent for the versions leaves exactly what it was given in the list, and gives up the screen. */
  lemma FetchRuns(m: Machine, i: nat, list: seq<string>, ok: bool)
    requires i < |m.workers| && m.workers[i].Fetch? && m.workers[i].fetch.Fetching? && !m.locked
    ensures Run(m, Works(i, list, ok, 5))
         == Went(m.(workers := m.workers[i := m.workers[i].(fetch := FetchDone)],
                    f := m.f.(dlVersions := list, dlBusy := false)))
  {
    var w, ws := m.workers[i], m.workers;
    var a := m.(locked := true, workers := ws[i := w.(fetch := Holding(list))]);
    var b := a.(f := a.f.(dlVersions := list), workers := ws[i := w.(fetch := Listed)]);
    WorkOn(m, i, list, ok, a, 5);
    WrittenAgain(ws, i, w.(fetch := Holding(list)), w.(fetch := Listed));
    WorkOn(a, i, list, ok, b, 4);
    ListedRuns(b, i, ws, w, list, ok);
  }

  lemma WrittenAgain(ws: seq<Worker>, i: nat, v: Worker, w: Worker)
    requires i < |ws|
    ensures ws[i := v][i := w] == ws[i := w]
  {
  }

  lemma ListedRuns(b: Machine, i: nat, ws: seq<Worker>, w: Worker, list: seq<string>, ok: bool)
    requires i < |ws| && w.Fetch? && b.workers == ws[i := w.(fetch := Listed)]
    ensures Run(b, Works(i, list, ok, 3))
         == Went(b.(locked := false, workers := ws[i := w.(fetch := FetchDone)], f := b.f.(dlBusy := false)))
  {
    var c := b.(workers := ws[i := w.(fetch := Told)]);
    var d := c.(f := c.f.(dlBusy := false), workers := ws[i := w.(fetch := Freed)]);
    WrittenAgain(ws, i, w.(fetch := Listed), w.(fetch := Told));
    WorkOn(b, i, list, ok, c, 3);
    WrittenAgain(ws, i, w.(fetch := Told), w.(fetch := Freed));
    WorkOn(c, i, list, ok, d, 2);
    WrittenAgain(ws, i, w.(fetch := Freed), w.(fetch := FetchDone));
    WorkOn(d, i, list, ok, d.(locked := false, workers := ws[i := w.(fetch := FetchDone)]), 1);
  }

  /** A worker sent for a version leaves it on the disk and the mark up if the download went well; else disk and
      mark stay. */
  lemma LoadRuns(m: Machine, i: nat, list: seq<string>, ok: bool)
    requires i < |m.workers| && m.workers[i].Download? && m.workers[i].load.Working? && !m.locked
    ensures Run(m, Works(i, list, ok, 5))
         == Went(m.(workers := m.workers[i := m.workers[i].(load := DownloadDone)],
                    disk := if ok then m.disk + {m.workers[i].version} else m.disk,
                    f := m.f.(dirty := m.f.dirty || ok, dlBusy := false)))
  {
    var w, ws := m.workers[i], m.workers;
    var a := m.(disk := if ok then m.disk + {w.version} else m.disk, workers := ws[i := w.(load := Finished(ok))]);
    var b := a.(locked := true, workers := ws[i := w.(load := Telling(ok))]);
    WorkOn(m, i, list, ok, a, 5);
    WrittenAgain(ws, i, w.(load := Finished(ok)), w.(load := Telling(ok)));
    WorkOn(a, i, list, ok, b, 4);
    ToldRuns(b, i, ws, w, list, ok);
  }

  lemma ToldRuns(b: Machine, i: nat, ws: seq<Worker>, w: Worker, list: seq<string>, ok: bool)
    requires i < |ws| && w.Download? && b.workers == ws[i := w.(load := Telling(ok))]
    ensures Run(b, Works(i, list, ok, 3))
         == Went(b.(locked := false, workers := ws[i := w.(load := DownloadDone)],
                    f := b.f.(dirty := b.f.dirty || ok, dlBusy := false)))
  {
    var c := b.(locked := false, workers := ws[i := w.(load := Noted(ok))]);
    var d := c.(f := c.f.(dirty := c.f.dirty || ok), workers := ws[i := w.(load := Marked)]);
    WrittenAgain(ws, i, w.(load := Telling(ok)), w.(load := Noted(ok)));
    WorkOn(b, i, list, ok, c, 3);
    WrittenAgain(ws, i, w.(load := Noted(ok)), w.(load := Marked));
    WorkOn(c, i, list, ok, d, 2);
    MarkedRuns(d, i, ws, w, list, ok);
  }

  lemma MarkedRuns(d: Machine, i: nat, ws: seq<Worker>, w: Worker, list: seq<string>, ok: bool)
    requires i < |ws| && w.Download? && d.workers == ws[i := w.(load := Marked)]
    ensures Run(d, Works(i, list, ok, 1))
         == Went(d.(workers := ws[i := w.(load := DownloadDone)], f := d.f.(dlBusy := false)))
  {
    WrittenAgain(ws, i, w.(load := Marked), w.(load := DownloadDone));
    WorkOn(d, i, list, ok, d.(f := d.f.(dlBusy := false), workers := ws[i := w.(load := DownloadDone)]), 1);
  }

  // ----- Removing a version

  /** The remove key on the new-server screen takes exactly the selected version off the disk, if that works and
      it is not bundled. */
  lemma RemoveTakesOff(m: Machine, r: Reply)
    requires Reachable(m) && m.f.screen.NewServer? && !r.active && OnKey(m, Remove, r).Went?
    ensures OnKey(m, Remove, r).m.disk
         == if r.ok && m.f.versions != [] && !m.f.versions[m.f.versionSel].bundled
            then m.disk - {m.f.versions[m.f.versionSel].id} else m.disk
  {
    ReachableIsSound(m);
  }
}
