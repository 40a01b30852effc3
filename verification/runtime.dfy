/** The provider runtime (internal/provider/runtime.go): a cache of sessions, each owning one launched
    plugin process. */
module Runtime {
  import opened Wrappers
  import opened Keys

  datatype Descriptor = Descriptor(installed: bool, custom: bool)

  /** An open session: the process it owns and what it was resolved to. */
  datatype Session = Session(process: nat, descriptor: Descriptor)

  /** name + ":" + hex digest; the digest has a fixed length, so the pair says the same. */
  datatype SessionKey = SessionKey(name: string, digest: Digest)

  /** What the outside world answers during one Open: the launch, then the plugin's Initialize. */
  datatype World = LaunchFails | InitFails | NoReply | Unsuccessful | Initialized

  datatype Error = Closed | NotRegistered | NotInstalled | LaunchError | InitError | CloseError

  datatype Opened = Session_(session: Session) | Failed(error: Error)

  /** Everything a runtime remembers, and every process it launched or told to close. */
  datatype State = State(
    sessions: map<SessionKey, Session>,
    warned: set<string>,
    closed: bool,
    launched: nat,              // processes 0 .. launched - 1 were started
    closes: multiset<nat>)      // every Close call made on a process
  {
    /** Processes started and never closed. */
    function Live(): set<nat> {
      set p | 0 <= p < launched && p !in closes
    }

    function Owned(): set<nat> {
      Processes(sessions, sessions.Keys)
    }

    /** The live processes are exactly those that the session map owns, each by one session; no
        process is closed twice, and nothing that was not launched is closed. */
    ghost predicate Valid() {
      && Live() == Owned()
      && OwnedOnce(sessions)
      && (forall p: nat :: closes[p] <= 1 && (p in closes ==> p < launched))
      && (closed ==> sessions == map[])
    }
  }

  /** The processes of some of the sessions. */
  function Processes(sessions: map<SessionKey, Session>, keys: set<SessionKey>): set<nat>
    requires keys <= sessions.Keys
  {
    set k | k in keys :: sessions[k].process
  }

  predicate OwnedOnce(sessions: map<SessionKey, Session>) {
    forall j, k :: j in sessions && k in sessions && j != k ==> sessions[j].process != sessions[k].process
  }

  lemma ProcessesGrow(sessions: map<SessionKey, Session>, keys: set<SessionKey>, key: SessionKey)
    requires OwnedOnce(sessions) && keys <= sessions.Keys && key in sessions && key !in keys
    ensures var p := sessions[key].process;
      p !in Processes(sessions, keys) && Processes(sessions, keys + {key}) == Processes(sessions, keys) + {p}
  {
  }

  /** The closes once the processes of some sessions are closed. */
  function ClosedToo(before: multiset<nat>, sessions: map<SessionKey, Session>, keys: set<SessionKey>): multiset<nat>
    requires keys <= sessions.Keys
  {
    before + multiset(Processes(sessions, keys))
  }

  lemma NoneClosed(before: multiset<nat>, sessions: map<SessionKey, Session>)
    ensures Processes(sessions, {}) == {} && ClosedToo(before, sessions, {}) == before
  {
  }

  lemma OneMore(before: multiset<nat>, sessions: map<SessionKey, Session>, keys: set<SessionKey>, key: SessionKey,
      failing: set<nat>)
    requires OwnedOnce(sessions) && keys <= sessions.Keys && key in sessions && key !in keys
    ensures ClosedToo(before, sessions, keys + {key})
         == ClosedToo(before, sessions, keys) + multiset{sessions[key].process}
    ensures Processes(sessions, keys + {key}) !! failing <==>
      Processes(sessions, keys) !! failing && sessions[key].process !in failing
  {
    ProcessesGrow(sessions, keys, key);
  }

  const START := State(map[], {}, false, 0, multiset{})

  type Registry = map<string, Descriptor>

  ghost function KeyOf(name: string, config: map<string, string>): SessionKey {
    SessionKey(name, Fingerprint(config))
  }

  /** Open of a name with a configuration, as a step on the state. */
  function OpenStep(s: State, registry: Registry, key: SessionKey, world: World): (State, Opened) {
    var name := key.name;
    if s.closed then (s, Failed(Closed))
    else if name !in registry then (s, Failed(NotRegistered))
    else if !registry[name].installed then (s, Failed(NotInstalled))
    else if key in s.sessions then (s, Session_(s.sessions[key]))
    else
      var t := if registry[name].custom then s.(warned := s.warned + {name}) else s;
      var p := t.launched;
      match world
      case LaunchFails => (t, Failed(LaunchError))
      case Initialized =>
        var session := Session(p, registry[name]);
        (t.(launched := p + 1, sessions := t.sessions[key := session]), Session_(session))
      case _ => (t.(launched := p + 1, closes := t.closes + multiset{p}), Failed(InitError))
  }

  /** An open succeeds exactly when the runtime is not closed, the name stands for an installed
      provider, and there is a session already or the plugin initializes; its session is the one
      kept from then on. Otherwise the error is the first of these conditions that fails. */
  lemma OpenExactly(s: State, registry: Registry, key: SessionKey, world: World)
    ensures var (t, r) := OpenStep(s, registry, key, world);
      && (r.Session_? <==>
            && !s.closed && key.name in registry && registry[key.name].installed
            && (key in s.sessions || world == Initialized))
      && (r.Session_? ==>
            && t.sessions.Keys == s.sessions.Keys + {key} && t.sessions[key] == r.session
            && r.session.descriptor == if key in s.sessions then s.sessions[key].descriptor else registry[key.name])
      && (forall k :: k in s.sessions ==> k in t.sessions && t.sessions[k] == s.sessions[k])
      && (r == Failed(Closed) <==> s.closed)
      && (r == Failed(NotRegistered) <==> !s.closed && key.name !in registry)
      && (r == Failed(NotInstalled) <==> !s.closed && key.name in registry && !registry[key.name].installed)
    ensures var (t, r) := OpenStep(s, registry, key, world);
      var launches := !s.closed && key.name in registry && registry[key.name].installed && key !in s.sessions;
      && t.launched == s.launched + (if launches && world != LaunchFails then 1 else 0)
      && (r == Failed(LaunchError) <==> launches && world == LaunchFails)
      && (r == Failed(InitError) <==> launches && world in {InitFails, NoReply, Unsuccessful})
      && t.warned == s.warned + (if launches && registry[key.name].custom then {key.name} else {})
      && t.closed == s.closed
  {
  }

  /** Closing calls every owned process's closer once, in no particular order. */
  function CloseStep(s: State): State {
    if s.closed then s else s.(closed := true, closes := s.closes + multiset(s.Owned()), sessions := map[])
  }

  class PluginRuntime {
    const registry: Registry
    var sessions: map<SessionKey, Session>
    var warned: set<string>
    var closed: bool
    var launched: nat
    ghost var closes: multiset<nat>

    ghost function Now(): State
      reads this
    {
      State(sessions, warned, closed, launched, closes)
    }

    constructor (registry: Registry)
      ensures Now() == START && this.registry == registry
    {
      this.registry := registry;
      sessions, warned, closed, launched, closes := map[], {}, false, 0, multiset{};
    }

    /** Launcher.Launch; a failed launch leaves no process behind. */
    method Launch(world: World) returns (process: Option<nat>)
      modifies this`launched
      ensures world.LaunchFails? ==> process.None? && launched == old(launched)
      ensures !world.LaunchFails? ==> process == Some(old(launched)) && launched == old(launched) + 1
    {
      if world.LaunchFails? {
        return None;
      }
      process := Some(launched);
      launched := launched + 1;
    }

    method CloseProcess(p: nat)
      modifies this`closes
      ensures closes == old(closes) + multiset{p}
    {
      closes := closes + multiset{p};
    }

    method Open(name: string, config: map<string, string>, world: World) returns (r: Opened)
      modifies this
      ensures (Now(), r) == OpenStep(old(Now()), registry, KeyOf(name, config), world)
    {
      if closed {
        return Failed(Closed);
      }
      if name !in registry {
        return Failed(NotRegistered);
      }
      var descriptor := registry[name];
      if !descriptor.installed {
        return Failed(NotInstalled);
      }
      var digest := ConfigurationFingerprint(config);
      r := OpenSession(SessionKey(name, digest), descriptor, world);
    }

    /** The part of Open that needs the key only. */
    method OpenSession(key: SessionKey, descriptor: Descriptor, world: World) returns (r: Opened)
      requires !closed && key.name in registry && registry[key.name] == descriptor && descriptor.installed
      modifies this
      ensures (Now(), r) == OpenStep(old(Now()), registry, key, world)
    {
      if key in sessions {
        return Session_(sessions[key]);
      }
      if descriptor.custom && key.name !in warned {
        warned := warned + {key.name};
      }
      assert descriptor.custom ==> warned == old(warned) + {key.name};
      var process := Launch(world);
      if process.None? {
        return Failed(LaunchError);
      }
      if !world.Initialized? {
        CloseProcess(process.value);
        return Failed(InitError);
      }
      var session := Session(process.value, descriptor);
      sessions := sessions[key := session];
      r := Session_(session);
    }

    /** Close reports whether some owned process failed to close; it closes all of them anyway. */
    method Close(failing: set<nat>) returns (ok: bool)
      requires Now().Valid()
      modifies this
      ensures Now() == CloseStep(old(Now()))
      ensures ok <==> old(closed) || old(Now().Owned()) !! failing
    {
      ok := true;
      if closed {
        return;
      }
      closed := true;
      ok := CloseAll(failing);
      sessions := map[];
    }

    /** The loop of Close over the sessions. */
    method CloseAll(failing: set<nat>) returns (ok: bool)
      requires OwnedOnce(sessions)
      modifies this`closes
      ensures closes == ClosedToo(old(closes), sessions, sessions.Keys)
      ensures ok <==> Processes(sessions, sessions.Keys) !! failing
    {
      ok := true;
      var all, left, done: set<SessionKey> := sessions, sessions.Keys, {};
      NoneClosed(closes, all);
      while left != {}
        invariant done <= all.Keys && left == all.Keys - done
        invariant closes == ClosedToo(old(closes), all, done)
        invariant ok <==> Processes(all, done) !! failing
      {
        var key :| key in left;
        OneMore(old(closes), all, done, key, failing);
        var process := all[key].process;
        CloseProcess(process);
        ok := ok && process !in failing;
        left, done := left - {key}, done + {key};
      }
      assert done == all.Keys;
    }
  }

  // ---------------------------------------------------------------- all sequences of calls

  datatype Call = Open(key: SessionKey, world: World) | Close

  function Do(s: State, registry: Registry, call: Call): State {
    match call
    case Open(key, world) => OpenStep(s, registry, key, world).0
    case Close => CloseStep(s)
  }

  function DoAll(s: State, registry: Registry, calls: seq<Call>): State {
    if calls == [] then s else Do(DoAll(s, registry, calls[..|calls| - 1]), registry, calls[|calls| - 1])
  }

  /** A process launched and kept is owned by the new session; one launched in vain is closed. */
  lemma LaunchKeepsValid(s: State, key: SessionKey, session: Session)
    requires s.Valid() && !s.closed && key !in s.sessions && session.process == s.launched
    ensures s.(launched := s.launched + 1, sessions := s.sessions[key := session]).Valid()
    ensures s.(launched := s.launched + 1, closes := s.closes + multiset{s.launched}).Valid()
    ensures s.(launched := s.launched + 1, closes := s.closes + multiset{s.launched}).Live() == s.Live()
  {
    var p := s.launched;
    var kept := s.(launched := p + 1, sessions := s.sessions[key := session]);
    var dropped := s.(launched := p + 1, closes := s.closes + multiset{p});
    assert p !in s.closes;
    assert dropped.Live() == s.Live() && dropped.Owned() == s.Owned();
    assert kept.Live() == s.Live() + {p};
    forall q ensures q in kept.Owned() <==> q in s.Owned() + {p} {
      if q in s.Owned() {
        var k :| k in s.sessions && s.sessions[k].process == q;
        assert kept.sessions[k].process == q;
      }
      assert kept.sessions[key].process == p;
    }
    forall k | k in s.sessions ensures s.sessions[k].process != p {
      assert s.sessions[k].process in s.Owned();
    }
  }

  /** Every open keeps the invariant, and one that fails leaves no process and no session behind. */
  lemma OpenKeepsValid(s: State, registry: Registry, key: SessionKey, world: World)
    requires s.Valid()
    ensures var (t, r) := OpenStep(s, registry, key, world);
      t.Valid() && (r.Failed? ==> t.Live() == s.Live() && t.sessions == s.sessions)
  {
    var (t, r) := OpenStep(s, registry, key, world);
    var warned := s.(warned := t.warned);
    assert warned.Live() == s.Live() && warned.Owned() == s.Owned() && warned.Valid();
    if t.launched > s.launched {
      LaunchKeepsValid(warned, key, Session(s.launched, registry[key.name]));
    }
  }

  lemma CloseKeepsValid(s: State)
    requires s.Valid()
    ensures CloseStep(s).Valid() && CloseStep(s).Live() == {} && CloseStep(s).closed
  {
    if s.closed {
      assert s.Owned() == {};
    } else {
      var t := CloseStep(s);
      forall p: nat ensures p !in t.Live() {
        assert p in s.Live() ==> p in s.Owned();
      }
      assert t.Owned() == {};
    }
  }

  lemma DoKeepsValid(s: State, registry: Registry, call: Call)
    requires s.Valid()
    ensures Do(s, registry, call).Valid()
  {
    match call
    case Open(key, world) => OpenKeepsValid(s, registry, key, world);
    case Close => CloseKeepsValid(s);
  }

  /** After any sequence of calls the live processes are exactly those owned by the sessions and no
      process was closed twice. */
  lemma {:induction false} AlwaysValid(s: State, registry: Registry, calls: seq<Call>)
    requires s.Valid()
    ensures DoAll(s, registry, calls).Valid()
  {
    if calls != [] {
      AlwaysValid(s, registry, calls[..|calls| - 1]);
      DoKeepsValid(DoAll(s, registry, calls[..|calls| - 1]), registry, calls[|calls| - 1]);
    }
  }

  lemma StartIsValid()
    ensures START.Valid()
  {
    assert START.Live() == {} == START.Owned();
  }

  lemma OpenKeepsSessions(s: State, registry: Registry, call: Call, key: SessionKey)
    requires !s.closed && key in s.sessions && call.Open?
    ensures var t := Do(s, registry, call); !t.closed && key in t.sessions && t.sessions[key] == s.sessions[key]
  {
  }

  lemma {:induction false} SessionsStay(s: State, registry: Registry, calls: seq<Call>, key: SessionKey)
    requires !s.closed && key in s.sessions && Close !in calls
    ensures var t := DoAll(s, registry, calls); !t.closed && key in t.sessions && t.sessions[key] == s.sessions[key]
  {
    if calls != [] {
      var head, last := calls[..|calls| - 1], calls[|calls| - 1];
      assert last in calls && forall c :: c in head ==> c in calls;
      SessionsStay(s, registry, head, key);
      OpenKeepsSessions(DoAll(s, registry, head), registry, last, key);
    }
  }

  /** Whether two opens, with other calls but no Close between them, give the same session depends on
      the keys alone; and if they do the second one changes nothing. */
  lemma SameKeySameSession(s: State, registry: Registry, between: seq<Call>,
      key: SessionKey, world: World, again: SessionKey, laterWorld: World)
    requires s.Valid() && Close !in between
    requires var (t, first) := OpenStep(s, registry, key, world);
      first.Session_? && OpenStep(DoAll(t, registry, between), registry, again, laterWorld).1.Session_?
    ensures var (t, first) := OpenStep(s, registry, key, world);
      var u := DoAll(t, registry, between);
      var (v, second) := OpenStep(u, registry, again, laterWorld);
      (second == first <==> again == key) && (second == first ==> v == u)
  {
    var (t, first) := OpenStep(s, registry, key, world);
    OpenKeepsValid(s, registry, key, world);
    AlwaysValid(t, registry, between);
    SessionsStay(t, registry, between, key);
    var u := DoAll(t, registry, between);
    OpenKeepsValid(u, registry, again, laterWorld);
    var (v, second) := OpenStep(u, registry, again, laterWorld);
    assert v.sessions[key] == first.session && v.sessions[again] == second.session;
  }

  /** For NUL-free configurations, two successful opens without a Close between them share one launch
      exactly when name and configuration agree. */
  lemma SharedExactly(registry: Registry, before: seq<Call>, between: seq<Call>,
      name: string, config: map<string, string>, world: World,
      again: string, other: map<string, string>, laterWorld: World)
    requires NulFree(config) && NulFree(other) && Close !in between
    requires var s := DoAll(START, registry, before);
      var (t, first) := OpenStep(s, registry, KeyOf(name, config), world);
      first.Session_? && OpenStep(DoAll(t, registry, between), registry, KeyOf(again, other), laterWorld).1.Session_?
    ensures var s := DoAll(START, registry, before);
      var (t, first) := OpenStep(s, registry, KeyOf(name, config), world);
      var u := DoAll(t, registry, between);
      var (v, second) := OpenStep(u, registry, KeyOf(again, other), laterWorld);
      (second == first <==> again == name && other == config) && (second == first ==> v.launched == u.launched)
  {
    StartIsValid();
    AlwaysValid(START, registry, before);
    var key, otherKey := KeyOf(name, config), KeyOf(again, other);
    KeyExact(name, config, again, other);
    SameKeySameSession(DoAll(START, registry, before), registry, between, key, world, otherKey, laterWorld);
  }

  lemma KeyExact(name: string, config: map<string, string>, again: string, other: map<string, string>)
    requires NulFree(config) && NulFree(other)
    ensures KeyOf(again, other) == KeyOf(name, config) <==> again == name && other == config
  {
    FingerprintExact(config, other);
  }

  lemma {:induction false} StaysClosed(s: State, registry: Registry, calls: seq<Call>)
    requires s.closed
    ensures DoAll(s, registry, calls) == s
  {
    if calls != [] {
      StaysClosed(s, registry, calls[..|calls| - 1]);
    }
  }

  /** Once Close was called no process is live, whatever is called afterwards, every launched process
      has been closed exactly once, and no Open succeeds or launches anything. */
  lemma ClosedForGood(registry: Registry, before: seq<Call>, after: seq<Call>, key: SessionKey, world: World)
    ensures var s := DoAll(START, registry, before + [Close]);
      var t := DoAll(s, registry, after);
      && t == s && t.closed && t.Live() == {}
      && (forall p: nat :: t.closes[p] == if p < t.launched then 1 else 0)
      && OpenStep(t, registry, key, world) == (t, Failed(Closed))
  {
    var calls := before + [Close];
    assert calls[..|calls| - 1] == before;
    StartIsValid();
    AlwaysValid(START, registry, before);
    CloseKeepsValid(DoAll(START, registry, before));
    var s := DoAll(START, registry, calls);
    StaysClosed(s, registry, after);
    forall p: nat ensures s.closes[p] == if p < s.launched then 1 else 0 {
      assert p !in s.Live();
    }
  }
}
