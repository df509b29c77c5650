/**
 The registry of debug sessions: which host is reserved or bound, which sessions are registered, which ids were
 detached lately, and which breakpoints a host's last session left behind. Attaching is split at its await.
 */
module DebugRegistry {
  import opened Seqs
  import opened Wrappers
  import Session

  type Host = string
  type Id = string
  type Locations = seq<(string, int)>

  const PENDING: Id := "<pending>"
  const DETACHED_MAX := 256

  /** The four maps; the detached ids are in order of insertion. */
  datatype Registry =
    Registry(sessions: set<Id>, hosts: map<Host, Id>, remembered: map<Host, Locations>, detached: seq<Id>)

  const EMPTY := Registry({}, map[], map[], [])

  // ---------------------------------------------------------------- operations

  function Drop(r: Registry, id: Id): Registry {
    if id !in r.sessions then r
    else
      var detached := if id in r.detached then r.detached else r.detached + [id];
      r.(sessions := r.sessions - {id}, detached := if |detached| > DETACHED_MAX then detached[1..] else detached)
  }

  /** A host that has this session; the one found first, if there were several. */
  ghost predicate IsHostOf(r: Registry, id: Id, host: Host) { host in r.hosts && r.hosts[host] == id }

  ghost predicate HasHost(r: Registry, id: Id) { exists h :: IsHostOf(r, id, h) }

  function Remember(r: Registry, host: Host, bps: Locations): Registry {
    if bps == [] then r else r.(remembered := r.remembered[host := bps])
  }

  function RememberedOf(r: Registry, host: Host): Locations {
    if host in r.remembered then r.remembered[host] else []
  }

  /** `debug_attach` up to its await: None if the host is busy. */
  function Reserve(r: Registry, host: Host): Option<Registry> {
    if host in r.hosts then None else Some(r.(hosts := r.hosts[host := PENDING]))
  }

  /** `debug_attach` after a successful attach. */
  function Bind(r: Registry, host: Host, id: Id): Registry {
    r.(sessions := r.sessions + {id}, hosts := r.hosts[host := id], remembered := r.remembered - {host})
  }

  function Release(r: Registry, host: Host): Registry { r.(hosts := r.hosts - {host}) }

  /** `debug_detach` once the host of the session is known; `bps` are the breakpoints the session has cached. */
  function DetachFrom(r: Registry, id: Id, host: Host, bps: Locations): Registry {
    Release(Drop(if id in r.sessions then Remember(r, host, bps) else r, id), host)
  }

  // ---------------------------------------------------------------- runs

  datatype LogEntry =
    | Attached(host: Host, id: Id, reported: Locations)
    | Detached(host: Host, id: Id, snapshot: Locations)

  /**
   The registry with its history: attaches in flight, ids ever issued, ids ever dropped (in order), and the log of
   successful attaches and detaches.
   */
  datatype World =
    World(reg: Registry, attaching: multiset<Host>, issued: set<Id>, dropped: seq<Id>, log: seq<LogEntry>)

  const BLANK := World(EMPTY, multiset{}, {}, [], [])

  datatype Action =
    | BeginAttach(host: Host)
    | FinishAttach(host: Host, id: Id)
    | FailAttach(host: Host)
    | Detach(id: Id, bps: Locations)

  /** An attach can finish or fail only if it is in flight; a registered session gets an id never issued before. */
  ghost predicate Enabled(w: World, a: Action) {
    match a
    case BeginAttach(_) => true
    case FinishAttach(host, id) => host in w.attaching && id !in w.issued && id != PENDING
    case FailAttach(host) => host in w.attaching
    case Detach(_, _) => true
  }

  function DoBegin(w: World, host: Host): World {
    match Reserve(w.reg, host)
    case None => w
    case Some(reg) => w.(reg := reg, attaching := w.attaching + multiset{host})
  }

  function DoFinish(w: World, host: Host, id: Id): World {
    w.(reg := Bind(w.reg, host, id), attaching := w.attaching - multiset{host}, issued := w.issued + {id},
       log := w.log + [Attached(host, id, RememberedOf(w.reg, host))])
  }

  function DoFail(w: World, host: Host): World {
    w.(reg := Release(w.reg, host), attaching := w.attaching - multiset{host})
  }

  function DoDetach(w: World, id: Id, host: Host, bps: Locations): World {
    if id in w.reg.sessions then
      w.(reg := DetachFrom(w.reg, id, host, bps), dropped := w.dropped + [id], log := w.log + [Detached(host, id, bps)])
    else w.(reg := DetachFrom(w.reg, id, host, bps))
  }

  ghost predicate Step(w: World, a: Action, w': World) {
    Enabled(w, a) &&
    match a
    case BeginAttach(host) => w' == DoBegin(w, host)
    case FinishAttach(host, id) => w' == DoFinish(w, host, id)
    case FailAttach(host) => w' == DoFail(w, host)
    case Detach(id, bps) =>
      if HasHost(w.reg, id) then exists h :: IsHostOf(w.reg, id, h) && w' == DoDetach(w, id, h, bps) else w' == w
  }

  /** A run: `worlds` starts blank and each action leads from one world to the next. */
  ghost predicate IsRun(worlds: seq<World>, actions: seq<Action>) {
    && |worlds| == |actions| + 1
    && worlds[0] == BLANK
    && forall i :: 0 <= i < |actions| ==> Step(worlds[i], actions[i], worlds[i + 1])
  }

  ghost predicate NoSentinel(actions: seq<Action>) {
    forall a :: a in actions && a.Detach? ==> a.id != PENDING
  }

  // ---------------------------------------------------------------- host exclusion

  /**
   No two hosts have the same session; the registered sessions are exactly those that a host is bound to; and a
   host is pending exactly while one attach to it, and no more than one, is in flight.
   */
  ghost predicate HostsSound(w: World) {
    && (forall g, h :: g in w.reg.hosts && h in w.reg.hosts && w.reg.hosts[g] == w.reg.hosts[h] != PENDING ==> g == h)
    && (forall h :: h in w.reg.hosts && w.reg.hosts[h] != PENDING ==> w.reg.hosts[h] in w.reg.sessions)
    && (forall id :: id in w.reg.sessions ==> HasHost(w.reg, id))
    && (forall h :: w.attaching[h] == if h in w.reg.hosts && w.reg.hosts[h] == PENDING then 1 else 0)
    && PENDING !in w.issued && w.reg.sessions <= w.issued
  }

  lemma BeginKeepsHosts(w: World, host: Host)
    requires HostsSound(w)
    ensures HostsSound(DoBegin(w, host))
  {
    var t := DoBegin(w, host);
    forall id | id in t.reg.sessions ensures HasHost(t.reg, id) {
      var h :| IsHostOf(w.reg, id, h);
      assert IsHostOf(t.reg, id, h);
    }
  }

  lemma FinishKeepsHosts(w: World, host: Host, id: Id)
    requires HostsSound(w) && Enabled(w, FinishAttach(host, id))
    ensures HostsSound(DoFinish(w, host, id))
  {
    var t := DoFinish(w, host, id);
    assert w.attaching[host] == 1;
    forall k | k in t.reg.sessions ensures HasHost(t.reg, k) {
      if k == id {
        assert IsHostOf(t.reg, id, host);
      } else {
        var h :| IsHostOf(w.reg, k, h);
        assert IsHostOf(t.reg, k, h);
      }
    }
  }

  lemma FailKeepsHosts(w: World, host: Host)
    requires HostsSound(w) && Enabled(w, FailAttach(host))
    ensures HostsSound(DoFail(w, host))
  {
    var t := DoFail(w, host);
    assert w.attaching[host] == 1;
    forall id | id in t.reg.sessions ensures HasHost(t.reg, id) {
      var h :| IsHostOf(w.reg, id, h);
      assert IsHostOf(t.reg, id, h);
    }
  }

  lemma DetachKeepsHosts(w: World, id: Id, host: Host, bps: Locations)
    requires HostsSound(w) && IsHostOf(w.reg, id, host) && id != PENDING
    ensures HostsSound(DoDetach(w, id, host, bps))
  {
    var t := DoDetach(w, id, host, bps);
    assert t.reg.hosts == w.reg.hosts - {host} && t.reg.sessions == w.reg.sessions - {id};
    forall k | k in t.reg.sessions ensures HasHost(t.reg, k) {
      var h :| IsHostOf(w.reg, k, h);
      assert IsHostOf(t.reg, k, h);
    }
  }

  /**
   Detaching keeps the host table sound exactly unless the id given is the reservation mark of a pending host: that
   call releases the reservation under an attach that is still in flight.
   */
  lemma DetachSoundIff(w: World, id: Id, host: Host, bps: Locations)
    requires HostsSound(w) && IsHostOf(w.reg, id, host)
    ensures HostsSound(DoDetach(w, id, host, bps)) <==> id != PENDING
  {
    if id == PENDING {
      assert w.attaching[host] == 1;
      assert host !in DoDetach(w, id, host, bps).reg.hosts;
    } else {
      DetachKeepsHosts(w, id, host, bps);
    }
  }

  lemma StepKeepsHosts(w: World, a: Action, w': World)
    requires HostsSound(w) && Step(w, a, w') && (a.Detach? ==> a.id != PENDING)
    ensures HostsSound(w')
  {
    match a
    case BeginAttach(host) => BeginKeepsHosts(w, host);
    case FinishAttach(host, id) => FinishKeepsHosts(w, host, id);
    case FailAttach(host) => FailKeepsHosts(w, host);
    case Detach(id, bps) =>
      if HasHost(w.reg, id) {
        var h :| IsHostOf(w.reg, id, h) && w' == DoDetach(w, id, h, bps);
        DetachKeepsHosts(w, id, h, bps);
      }
  }

  /**
   From every sound world with a pending host: once a detach with the mark has released the reservation, another attach
   to the host can begin, both can succeed, and then two sessions attached to that host are registered, one without a
   host.
   */
  lemma SentinelAlwaysBreaksExclusion(w: World, h: Host, bps: Locations, a: Id, b: Id) returns (worlds: seq<World>)
    requires HostsSound(w) && IsHostOf(w.reg, PENDING, h)
    requires a != b && a !in w.issued && b !in w.issued && a != PENDING && b != PENDING
    ensures |worlds| == 5 && worlds[0] == w
    ensures Step(worlds[0], Detach(PENDING, bps), worlds[1]) && Step(worlds[1], BeginAttach(h), worlds[2])
    ensures Step(worlds[2], FinishAttach(h, a), worlds[3]) && Step(worlds[3], FinishAttach(h, b), worlds[4])
    ensures exists r, r' :: worlds[4].log == w.log + [Attached(h, a, r), Attached(h, b, r')]
    ensures {a, b} <= worlds[4].reg.sessions && worlds[4].reg.hosts[h] == b && !HasHost(worlds[4].reg, a)
  {
    assert w.attaching[h] == 1;
    var w1 := DoDetach(w, PENDING, h, bps);
    var w2 := DoBegin(w1, h);
    var w3 := DoFinish(w2, h, a);
    var w4 := DoFinish(w3, h, b);
    worlds := [w, w1, w2, w3, w4];
    assert HasHost(w.reg, PENDING);
    var r, r' := RememberedOf(w2.reg, h), RememberedOf(w3.reg, h);
    assert w4.log == w.log + [Attached(h, a, r), Attached(h, b, r')];
  }

  /** What the sentinel does: two attaches to one host in flight, and then both have a session, one of them no host. */
  lemma SentinelBreaksExclusion() returns (worlds: seq<World>, actions: seq<Action>)
    ensures IsRun(worlds, actions)
    ensures var w, h, a, b := worlds[|actions|], "tv", "bdp-1", "bdp-2";
            && a != b && w.log == [Attached(h, a, []), Attached(h, b, [])]
            && w.reg.sessions == {a, b} && w.reg.hosts == map[h := b]
  {
    var h, a, b := "tv", "bdp-1", "bdp-2";
    actions := [BeginAttach(h), Detach(PENDING, []), BeginAttach(h), FinishAttach(h, a), FinishAttach(h, b)];
    var w1 := DoBegin(BLANK, h);
    assert IsHostOf(w1.reg, PENDING, h);
    var w2 := DoDetach(w1, PENDING, h, []);
    var w3 := DoBegin(w2, h);
    var w4 := DoFinish(w3, h, a);
    var w5 := DoFinish(w4, h, b);
    worlds := [BLANK, w1, w2, w3, w4, w5];
    assert w5.reg.sessions == {a, b} && w5.reg.hosts == map[h := b];
  }

  /** A host can be reserved exactly if it is not in the table, be it pending or bound. */
  lemma ReserveIff(r: Registry, host: Host)
    ensures Reserve(r, host).Some? <==> host !in r.hosts
    ensures Reserve(r, host).Some? ==> Reserve(r, host).value == r.(hosts := r.hosts[host := "<pending>"])
  {
  }

  /**
   From every sound world a host that is free can be attached: the session is registered and bound to it, every other
   host keeps its session, and the report is what was remembered for the host, which is forgotten.
   */
  lemma FreeHostCanBeAttached(w: World, h: Host, id: Id) returns (u: World, t: World)
    requires HostsSound(w) && h !in w.reg.hosts && id !in w.issued && id != PENDING
    ensures Step(w, BeginAttach(h), u) && Step(u, FinishAttach(h, id), t) && HostsSound(t)
    ensures t.reg.sessions == w.reg.sessions + {id} && t.reg.hosts == w.reg.hosts[h := id]
    ensures t.log == w.log + [Attached(h, id, if h in w.reg.remembered then w.reg.remembered[h] else [])]
    ensures t.reg.remembered == w.reg.remembered - {h} && t.reg.detached == w.reg.detached
    ensures t.attaching == w.attaching
  {
    hide HostsSound;
    u := DoBegin(w, h);
    t := DoFinish(u, h, id);
    BeginKeepsHosts(w, h);
    BegunCanFinish(w, h, id);
    FinishKeepsHosts(u, h, id);
    BegunAndFinished(w, h, id);
  }

  lemma BegunCanFinish(w: World, h: Host, id: Id)
    requires HostsSound(w) && h !in w.reg.hosts && id !in w.issued && id != PENDING
    ensures Enabled(w, BeginAttach(h)) && Enabled(DoBegin(w, h), FinishAttach(h, id))
  {
  }

  lemma BegunAndFinished(w: World, h: Host, id: Id)
    requires h !in w.reg.hosts
    ensures var t := DoFinish(DoBegin(w, h), h, id);
            && t.reg.sessions == w.reg.sessions + {id} && t.reg.hosts == w.reg.hosts[h := id]
            && t.log == w.log + [Attached(h, id, if h in w.reg.remembered then w.reg.remembered[h] else [])]
            && t.reg.remembered == w.reg.remembered - {h} && t.reg.detached == w.reg.detached
            && t.attaching == w.attaching
  {
    assert w.reg.hosts[h := PENDING][h := id] == w.reg.hosts[h := id];
    assert w.attaching + multiset{h} - multiset{h} == w.attaching;
  }

  /** An attach that fails leaves the world as it was before it began. */
  lemma FailureUndoesAttach(w: World, h: Host) returns (u: World)
    requires HostsSound(w) && h !in w.reg.hosts
    ensures Step(w, BeginAttach(h), u) && Step(u, FailAttach(h), w)
  {
    u := DoBegin(w, h);
    assert w.reg.hosts[h := PENDING] - {h} == w.reg.hosts;
    assert w.attaching + multiset{h} - multiset{h} == w.attaching;
    assert DoFail(u, h) == w;
  }

  /**
   Detaching a registered session unregisters it, frees its host, records its id as detached and remembers its
   breakpoints for the host, if it has any.
   */
  lemma DetachDoes(w: World, id: Id, h: Host, bps: Locations)
    requires HostsSound(w) && DetachedSound(w) && IsHostOf(w.reg, id, h) && id != PENDING
    ensures var t := DoDetach(w, id, h, bps);
            && Step(w, Detach(id, bps), t)
            && t.reg.sessions == w.reg.sessions - {id} && t.reg.hosts == w.reg.hosts - {h}
            && t.reg.remembered == (if bps == [] then w.reg.remembered else w.reg.remembered[h := bps])
            && t.dropped == w.dropped + [id] && t.log == w.log + [Detached(h, id, bps)]
            && id in t.reg.detached
  {
    assert HasHost(w.reg, id) && id in w.reg.sessions;
    DetachKeepsDetached(w, id, h, bps);
    var t := DoDetach(w, id, h, bps);
    assert t.reg.detached[|t.reg.detached| - 1] == id;
  }

  // ---------------------------------------------------------------- detached ids

  /** The detached ids are the most recently dropped ones, in order, none of them registered. */
  ghost predicate DetachedSound(w: World) {
    && w.reg.detached == LastOf(w.dropped, DETACHED_MAX)
    && Distinct(w.dropped)
    && (forall id :: id in w.dropped ==> id in w.issued && id !in w.reg.sessions)
  }

  lemma DetachKeepsDetached(w: World, id: Id, host: Host, bps: Locations)
    requires HostsSound(w) && DetachedSound(w)
    ensures DetachedSound(DoDetach(w, id, host, bps))
  {
    var t := DoDetach(w, id, host, bps);
    if id in w.reg.sessions {
      assert id !in w.dropped;
      assert id !in w.reg.detached;
      assert forall x :: x in t.dropped <==> x in w.dropped || x == id;
      if |w.dropped| < DETACHED_MAX {
      } else {
        assert (w.reg.detached + [id])[1..] == LastOf(t.dropped, DETACHED_MAX);
      }
    }
  }

  lemma StepKeepsDetached(w: World, a: Action, w': World)
    requires HostsSound(w) && DetachedSound(w) && Step(w, a, w')
    ensures DetachedSound(w')
  {
    match a
    case Detach(id, bps) =>
      if HasHost(w.reg, id) {
        var h :| IsHostOf(w.reg, id, h) && w' == DoDetach(w, id, h, bps);
        DetachKeepsDetached(w, id, h, bps);
      }
    case _ =>
  }

  // ---------------------------------------------------------------- breakpoints carried over

  /** The latest log entry about a host. */
  function LastOn(log: seq<LogEntry>, host: Host): Option<LogEntry> {
    if log == [] then None
    else if log[|log| - 1].host == host then Some(log[|log| - 1])
    else LastOn(log[..|log| - 1], host)
  }

  /** What the last session on the host left behind, if it has been detached and nobody attached since. */
  function LeftBehind(log: seq<LogEntry>, host: Host): Locations {
    match LastOn(log, host)
    case Some(Detached(_, _, snapshot)) => snapshot
    case _ => []
  }

  predicate IsBound(log: seq<LogEntry>, host: Host) { LastOn(log, host).Some? && LastOn(log, host).value.Attached? }

  /** One log entry follows from the entries before it. */
  ghost predicate EntrySound(before: seq<LogEntry>, e: LogEntry) {
    match e
    case Attached(host, _, reported) => !IsBound(before, host) && reported == LeftBehind(before, host)
    case Detached(host, id, _) => IsBound(before, host) && LastOn(before, host).value.id == id
  }

  ghost predicate LogSound(log: seq<LogEntry>) {
    forall k :: 0 <= k < |log| ==> EntrySound(log[..k], log[k])
  }

  /** The host table and the remembered breakpoints are what the log says. */
  ghost predicate LogAgrees(w: World) {
    forall h ::
      && (IsBound(w.log, h) <==> h in w.reg.hosts && w.reg.hosts[h] != PENDING)
      && (IsBound(w.log, h) ==> w.reg.hosts[h] == LastOn(w.log, h).value.id)
      && RememberedOf(w.reg, h) == LeftBehind(w.log, h)
  }

  lemma LastOnAppend(log: seq<LogEntry>, e: LogEntry, host: Host)
    ensures LastOn(log + [e], host) == if e.host == host then Some(e) else LastOn(log, host)
  {
    assert (log + [e])[..|log|] == log;
  }

  lemma LogSoundAppend(log: seq<LogEntry>, e: LogEntry)
    requires LogSound(log) && EntrySound(log, e)
    ensures LogSound(log + [e])
  {
    var all := log + [e];
    forall k | 0 <= k < |all| ensures EntrySound(all[..k], all[k]) {
      assert k < |log| ==> all[..k] == log[..k] && all[k] == log[k];
      assert k == |log| ==> all[..k] == log;
    }
  }

  lemma FinishKeepsLog(w: World, host: Host, id: Id)
    requires HostsSound(w) && LogAgrees(w) && LogSound(w.log) && Enabled(w, FinishAttach(host, id))
    ensures LogAgrees(DoFinish(w, host, id)) && LogSound(DoFinish(w, host, id).log)
  {
    assert w.attaching[host] == 1;
    var e := Attached(host, id, RememberedOf(w.reg, host));
    LogSoundAppend(w.log, e);
    forall h ensures LastOn(w.log + [e], h) == if host == h then Some(e) else LastOn(w.log, h) {
      LastOnAppend(w.log, e, h);
    }
  }

  lemma DetachKeepsLog(w: World, id: Id, host: Host, bps: Locations)
    requires HostsSound(w) && LogAgrees(w) && LogSound(w.log) && IsHostOf(w.reg, id, host) && id != PENDING
    ensures LogAgrees(DoDetach(w, id, host, bps)) && LogSound(DoDetach(w, id, host, bps).log)
  {
    var e := Detached(host, id, bps);
    assert IsBound(w.log, host) && RememberedOf(w.reg, host) == [];
    LogSoundAppend(w.log, e);
    forall h ensures LastOn(w.log + [e], h) == if host == h then Some(e) else LastOn(w.log, h) {
      LastOnAppend(w.log, e, h);
    }
  }

  lemma BeginAndFailKeepLog(w: World, host: Host)
    requires HostsSound(w) && LogAgrees(w)
    ensures LogAgrees(DoBegin(w, host))
    ensures host in w.attaching ==> LogAgrees(DoFail(w, host))
  {
    hide IsBound, LeftBehind;
    if host in w.attaching { assert w.attaching[host] == 1; }
  }

  lemma StepKeepsLog(w: World, a: Action, w': World)
    requires HostsSound(w) && LogAgrees(w) && LogSound(w.log) && Step(w, a, w') && (a.Detach? ==> a.id != PENDING)
    ensures LogAgrees(w') && LogSound(w'.log)
  {
    hide LogSound, IsBound, LeftBehind, LogAgrees;
    match a
    case BeginAttach(host) => BeginAndFailKeepLog(w, host);
    case FinishAttach(host, id) => FinishKeepsLog(w, host, id);
    case FailAttach(host) => BeginAndFailKeepLog(w, host);
    case Detach(id, bps) =>
      if HasHost(w.reg, id) {
        var h :| IsHostOf(w.reg, id, h) && w' == DoDetach(w, id, h, bps);
        DetachKeepsLog(w, id, h, bps);
      }
  }

  // ---------------------------------------------------------------- every run

  ghost predicate Inv(w: World) { HostsSound(w) && DetachedSound(w) && LogAgrees(w) && LogSound(w.log) }

  lemma StepKeepsInv(w: World, a: Action, w': World)
    requires Inv(w) && Step(w, a, w') && (a.Detach? ==> a.id != PENDING)
    ensures Inv(w')
  {
    hide HostsSound, DetachedSound, LogAgrees, LogSound, Step;
    StepKeepsHosts(w, a, w');
    StepKeepsDetached(w, a, w');
    StepKeepsLog(w, a, w');
  }

  /** Every world of every run, with attaches, failures and detaches interleaved in any order, is sound. */
  lemma {:induction false} RunsAreSound(worlds: seq<World>, actions: seq<Action>, i: nat)
    requires IsRun(worlds, actions) && NoSentinel(actions) && i < |worlds|
    ensures Inv(worlds[i])
  {
    if i > 0 {
      RunsAreSound(worlds, actions, i - 1);
      assert actions[i - 1] in actions;
      StepKeepsInv(worlds[i - 1], actions[i - 1], worlds[i]);
    }
  }

  /** The ids known as detached are the last 256 that were dropped, in order, and none of them is registered. */
  lemma DetachedAreLastDropped(worlds: seq<World>, actions: seq<Action>, i: nat)
    requires IsRun(worlds, actions) && NoSentinel(actions) && i < |worlds|
    ensures worlds[i].reg.detached == LastOf(worlds[i].dropped, 256)
    ensures forall id :: id in worlds[i].reg.detached ==> id !in worlds[i].reg.sessions
    ensures |worlds[i].reg.detached| == if |worlds[i].dropped| < 256 then |worlds[i].dropped| else 256
  {
    RunsAreSound(worlds, actions, i);
    assert forall id :: id in worlds[i].reg.detached ==> id in worlds[i].dropped;
  }

  /** No host ever has two sessions: two registered sessions are bound to two hosts. */
  lemma NoHostHasTwoSessions(worlds: seq<World>, actions: seq<Action>, i: nat, a: Id, b: Id)
    requires IsRun(worlds, actions) && NoSentinel(actions) && i < |worlds|
    requires a in worlds[i].reg.sessions && b in worlds[i].reg.sessions && a != b
    ensures exists g, h :: g != h && IsHostOf(worlds[i].reg, a, g) && IsHostOf(worlds[i].reg, b, h)
    ensures forall g, h :: IsHostOf(worlds[i].reg, a, g) && IsHostOf(worlds[i].reg, a, h) ==> g == h
  {
    RunsAreSound(worlds, actions, i);
    var w := worlds[i];
    assert HasHost(w.reg, a) && HasHost(w.reg, b);
    var g :| IsHostOf(w.reg, a, g);
    var h :| IsHostOf(w.reg, b, h);
  }

  /** Every successful attach reports exactly what the detach before it on that host left, and only once. */
  lemma ReportsPrecedingDetach(worlds: seq<World>, actions: seq<Action>, i: nat, k: nat)
    requires IsRun(worlds, actions) && NoSentinel(actions) && i < |worlds|
    requires k < |worlds[i].log| && worlds[i].log[k].Attached?
    ensures var log := worlds[i].log;
            match LastOn(log[..k], log[k].host)
            case Some(Detached(_, _, snapshot)) => log[k].reported == snapshot
            case Some(Attached(_, _, _)) => false
            case None => log[k].reported == []
  {
    RunsAreSound(worlds, actions, i);
    assert EntrySound(worlds[i].log[..k], worlds[i].log[k]);
  }

  // ---------------------------------------------------------------- the registry itself

  datatype StateAnswer = Known(state: Session.SessionState) | KnownDetached | Unknown

  class DebugRegistry {
    var sessions: map<Id, Session.BdpSession>
    var hosts: map<Host, Id>
    var remembered: map<Host, Locations>
    var detached: seq<Id>

    ghost function View(): Registry
      reads this
    {
      Registry(sessions.Keys, hosts, remembered, detached)
    }

    ghost predicate Valid()
      reads this, sessions.Values
    {
      forall id :: id in sessions ==> sessions[id].Valid()
    }

    constructor ()
      ensures Valid() && View() == EMPTY
    {
      sessions, hosts, remembered, detached := map[], map[], map[], [];
    }

    method DropSession(id: Id) returns (existed: bool)
      modifies this`sessions, this`detached
      ensures View() == Drop(old(View()), id) && existed == (id in old(sessions))
      ensures sessions == old(sessions) - {id}
    {
      existed := id in sessions;
      if existed {
        sessions := sessions - {id};
        if id !in detached { detached := detached + [id]; }
        if |detached| > DETACHED_MAX { detached := detached[1..]; }
      }
    }

    method ReserveHost(host: Host) returns (busy: bool)
      modifies this`hosts
      ensures busy == Reserve(old(View()), host).None?
      ensures View() == Reserve(old(View()), host).GetOr(old(View()))
    {
      busy := host in hosts;
      if !busy { hosts := hosts[host := PENDING]; }
    }

    method ReleaseHost(host: Host)
      modifies this`hosts
      ensures View() == Release(old(View()), host)
    {
      hosts := hosts - {host};
    }

    /** Looks at the hosts one after the other. */
    method GetHostForSession(id: Id) returns (found: Option<Host>)
      ensures found.Some? ==> IsHostOf(View(), id, found.value)
      ensures found.None? ==> !HasHost(View(), id)
    {
      var left := hosts.Keys;
      while left != {}
        invariant left <= hosts.Keys
        invariant forall h :: h in hosts && h !in left ==> hosts[h] != id
        decreases left
      {
        var h :| h in left;
        if hosts[h] == id { return Some(h); }
        left := left - {h};
      }
      found := None;
    }

    /** The host's session is registered and bound, and what was remembered for the host is handed out and forgotten. */
    method AttachSucceeded(host: Host, id: Id, session: Session.BdpSession) returns (invalidated: Locations)
      requires Valid() && session.Valid()
      modifies this
      ensures Valid() && View() == Bind(old(View()), host, id)
      ensures invalidated == RememberedOf(old(View()), host)
    {
      sessions := sessions[id := session];
      hosts := hosts[host := id];
      invalidated := if host in remembered then remembered[host] else [];
      remembered := remembered - {host};
    }

    method DebugDetach(id: Id)
      requires Valid()
      modifies this, sessions.Values
      ensures Valid()
      ensures HasHost(old(View()), id) ==>
                exists h :: IsHostOf(old(View()), id, h) && View() == DetachFrom(old(View()), id, h,
                  if id in old(sessions) then Session.LocationsOf(old(sessions[id].breakpoints)) else [])
      ensures !HasHost(old(View()), id) ==> View() == old(View())
      ensures id in old(sessions) && HasHost(old(View()), id) ==> old(sessions)[id].state != Session.Live
    {
      var found := GetHostForSession(id);
      if found.None? { return; }
      var host, bps := found.value, [];
      if id in sessions {
        var session := sessions[id];
        bps := session.CurrentBreakpoints();
        if bps != [] { remembered := remembered[host := bps]; }
        session.Detach();
      }
      var _ := DropSession(id);
      ReleaseHost(host);
      assert View() == DetachFrom(old(View()), id, host, bps);
    }

    /** Registered sessions report their state; an id dropped lately is known as detached; any other is unknown. */
    method DebugSessionState(id: Id) returns (answer: StateAnswer)
      ensures answer.Known? <==> id in View().sessions
      ensures answer.KnownDetached? <==> id !in View().sessions && id in View().detached
      ensures answer.Known? ==> answer.state == sessions[id].state
    {
      if id in sessions {
        answer := Known(sessions[id].state);
      } else if id in detached {
        answer := KnownDetached;
      } else {
        answer := Unknown;
      }
    }
  }
}
