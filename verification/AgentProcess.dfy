/**
 The agent process: one control session after another over one runtime and one disk, and the restart that restores the
 runtime from what is durable. What a reported success says about the core that runs, and what a restart brings back.
 */
module AgentProcess {
  import opened Text
  import opened DesiredConfig
  import opened CanonicalForms
  import Revisions = ConfigRevisions
  import Session = ControlSession
  import Runtime = XrayRuntime
  import Snapshots = UserSnapshots

  /** The agent's identity, the libraries it calls into, and strings.ToLower. */
  datatype Host = Host(id: Session.Identity, lib: Runtime.Library, lower: string -> string)

  /** `committed` is history: the last user snapshot whose transaction committed. */
  datatype World = World(session: Session.State, core: Runtime.State, disk: Snapshots.Disk,
                         committed: Snapshots.Snapshot)

  const BOOTED := World(Session.START, Runtime.IDLE, Snapshots.BLANK, Snapshots.Snapshot(0, []))

  /**
   `puts` are the secrets of a bundle that reach the store. Deliveries, users and restarts carry what the store
   resolves for building nodes, and what fails while they are handled. A restart is one that comes up; `readFails` is an
   error reading the stored configuration, `usersFail` one reading the stored users or their secrets.
   */
  datatype Event =
    | Connected
    | Bundle(agentNodeId: int, version: nat, opens: bool, puts: seq<(string, string)>)
    | Deliver(signed: SignedConfig, secrets: Secrets, faults: Runtime.Faults,
              saveFails: bool, markFails: bool, cleanupFails: bool, sendFails: bool)
    | Users(snapshot: Snapshots.Snapshot, secrets: Secrets, faults: Runtime.Faults, stopAfter: nat, replaceFails: bool)
    | Restart(secrets: Secrets, faults: Runtime.Faults, usersFail: bool, userFaults: Runtime.Faults, readFails: bool)

  ghost predicate Good(w: World, h: Host) {
    Session.Grounded(w.session, h.id) && Runtime.Consistent(w.core, h.lib)
  }

  /** The delivery gets as far as the runtime. */
  ghost predicate ReachesRuntime(w: World, e: Event, h: Host) {
    && e.Deliver? && Session.Admitted(w.session, e.signed, h.id)
    && Revisions.SaveOutcome(w.session.tables, e.signed, e.saveFails) == Revisions.Saved(true)
  }

  ghost predicate Taken(w: World, e: Event, h: Host)
    requires e.Deliver?
  {
    Runtime.ConfigTaken(w.core, e.signed.config, e.secrets, e.faults, h.lib)
  }

  ghost function OutcomeOf(w: World, e: Event, h: Host): Session.Outcome
    requires e.Deliver?
  {
    Session.Outcome(e.saveFails, Taken(w, e, h), e.markFails, e.cleanupFails, e.sendFails)
  }

  ghost function AttemptOf(w: World, e: Event, h: Host): Snapshots.Attempt
    requires e.Users? && Runtime.ConfigKept(w.core, h.lib)
  {
    var accepted := Runtime.UsersAccepted(w.core, e.snapshot.users, e.secrets, e.faults, h.lib);
    Snapshots.Attempt(e.snapshot, accepted, e.stopAfter, e.replaceFails)
  }

  function PutBundle(d: Snapshots.Disk, puts: seq<(string, string)>, lower: string -> string): Snapshots.Disk {
    if puts == [] then d
    else
      var last := puts[|puts| - 1];
      Snapshots.Happens(PutBundle(d, puts[..|puts| - 1], lower), Snapshots.PutOther(last.0, last.1), lower)
  }

  /** The stored users with their secrets, if they resolve and can be read. */
  ghost function StoredUsers(d: Snapshots.Disk, e: Event): Option<seq<Runtime.User>>
    requires e.Restart?
  {
    if Snapshots.Resolves(d) && !e.usersFail then Some(Snapshots.Restored(d)) else None
  }

  /** restoreRuntime: the runtime it leaves, and whether it reports no error. */
  ghost function Restored(t: Revisions.Tables, d: Snapshots.Disk, e: Event, lib: Runtime.Library): (Runtime.State, bool)
    requires e.Restart?
  {
    if e.readFails then (Runtime.IDLE, false)
    else if t.appliedVersion !in t.rows || t.rows[t.appliedVersion].status != Revisions.Applied
    then (Runtime.IDLE, true)
    else RestoredFrom(t.rows[t.appliedVersion].signed.config, StoredUsers(d, e), e, lib)
  }

  ghost function RestoredFrom(c: Config, users: Option<seq<Runtime.User>>, e: Event,
      lib: Runtime.Library): (Runtime.State, bool)
    requires e.Restart?
  {
    var core := Runtime.AfterApplyConfig(Runtime.IDLE, c, e.secrets, e.faults, lib);
    if !Runtime.ConfigTaken(Runtime.IDLE, c, e.secrets, e.faults, lib) || users.None? then (core, false)
    else
      Runtime.ApplyConfigConsistent(Runtime.IDLE, c, e.secrets, e.faults, lib);
      (Runtime.AfterApplyUsers(core, users.value, e.secrets, e.userFaults, lib),
       Runtime.UsersAccepted(core, users.value, e.secrets, e.userFaults, lib))
  }

  /** A restart that restores nothing resets what is applied, so that the server sends it again. */
  ghost function Completes(w: World, e: Event, h: Host): bool
    requires e.Restart?
  {
    Restored(w.session.tables, w.disk, e, h.lib).1
  }

  ghost function SessionAfter(w: World, e: Event, h: Host): Session.State {
    match e
    case Connected => Session.Handle(w.session, Session.Connect, h.id)
    case Bundle(node, version, opens, _) => Session.Handle(w.session, Session.SecretBundle(node, version, opens), h.id)
    case Deliver(signed, _, _, _, _, _, _) =>
      Session.Handle(w.session, Session.Desired(signed, OutcomeOf(w, e, h)), h.id)
    case Users(_, _, _, _, _) => w.session
    case Restart(_, _, _, _, _) => Session.Handle(w.session, Session.Restart(Completes(w, e, h)), h.id)
  }

  ghost function CoreAfter(w: World, e: Event, h: Host): Runtime.State
    requires Runtime.ConfigKept(w.core, h.lib)
  {
    match e
    case Deliver(signed, secrets, f, _, _, _, _) =>
      if ReachesRuntime(w, e, h) then Runtime.AfterApplyConfig(w.core, signed.config, secrets, f, h.lib) else w.core
    case Users(snapshot, secrets, f, _, _) => Runtime.AfterApplyUsers(w.core, snapshot.users, secrets, f, h.lib)
    case Restart(_, _, _, _, _) => Restored(w.session.tables, w.disk, e, h.lib).0
    case _ => w.core
  }

  ghost function DiskAfter(w: World, e: Event, h: Host): Snapshots.Disk
    requires Runtime.ConfigKept(w.core, h.lib)
  {
    match e
    case Bundle(node, _, _, puts) => if node == h.id.agentNodeId then PutBundle(w.disk, puts, h.lower) else w.disk
    case Users(_, _, _, _, _) => Snapshots.AfterAttempt(w.disk, AttemptOf(w, e, h), h.lower)
    case Restart(_, _, _, _, _) =>
      if Completes(w, e, h) then w.disk else Snapshots.Happens(w.disk, Snapshots.ResetApplied, h.lower)
    case _ => w.disk
  }

  ghost function CommittedAfter(w: World, e: Event, h: Host): Snapshots.Snapshot
    requires Runtime.ConfigKept(w.core, h.lib)
  {
    if e.Users? then Snapshots.Current(w.disk, w.committed, Snapshots.Handled(AttemptOf(w, e, h)), h.lower)
        else w.committed
  }

  ghost function Happens(w: World, e: Event, h: Host): World
    requires Runtime.ConfigKept(w.core, h.lib)
  {
    World(SessionAfter(w, e, h), CoreAfter(w, e, h), DiskAfter(w, e, h), CommittedAfter(w, e, h))
  }

  lemma HappensGood(w: World, e: Event, h: Host)
    requires Good(w, h)
    ensures Good(Happens(w, e, h), h)
  {
    match e
    case Connected => Session.HandleGrounded(w.session, Session.Connect, h.id);
    case Bundle(node, version, opens, _) =>
      Session.HandleGrounded(w.session, Session.SecretBundle(node, version, opens), h.id);
    case Deliver(signed, secrets, f, _, _, _, _) =>
      Session.HandleGrounded(w.session, Session.Desired(signed, OutcomeOf(w, e, h)), h.id);
      Runtime.ApplyConfigConsistent(w.core, signed.config, secrets, f, h.lib);
    case Users(snapshot, secrets, f, _, _) => Runtime.ApplyUsersConsistent(w.core, snapshot.users, secrets, f, h.lib);
    case Restart(_, _, _, _, _) =>
      Session.HandleGrounded(w.session, Session.Restart(Completes(w, e, h)), h.id);
      RestoredConsistent(w.session.tables, w.disk, e, h.lib);
  }

  lemma RestoredConsistent(t: Revisions.Tables, d: Snapshots.Disk, e: Event, lib: Runtime.Library)
    requires e.Restart?
    ensures Runtime.Consistent(Restored(t, d, e, lib).0, lib)
  {
    if !e.readFails && t.appliedVersion in t.rows && t.rows[t.appliedVersion].status == Revisions.Applied {
      RestoredFromConsistent(t.rows[t.appliedVersion].signed.config, StoredUsers(d, e), e, lib);
    }
  }

  /** A restore without error runs the configuration with exactly the users given. */
  lemma RestoredFromConsistent(c: Config, users: Option<seq<Runtime.User>>, e: Event, lib: Runtime.Library)
    requires e.Restart?
    ensures var (core, complete) := RestoredFrom(c, users, e, lib);
            && Runtime.Consistent(core, lib)
            && (complete ==> users.Some? && core.config == Some(c) && core.active == Some(Runtime.Core(c, users.value)))
  {
    var core := Runtime.AfterApplyConfig(Runtime.IDLE, c, e.secrets, e.faults, lib);
    Runtime.ApplyConfigConsistent(Runtime.IDLE, c, e.secrets, e.faults, lib);
    Runtime.TakenRuns(Runtime.IDLE, c, e.secrets, e.faults, lib);
    if users.Some? {
      Runtime.ApplyUsersConsistent(core, users.value, e.secrets, e.userFaults, lib);
      Runtime.UsersKeepConfig(core, users.value, e.secrets, e.userFaults, lib);
    }
  }

  // ----- The stored configuration and the durable one

  predicate IsRevision(c: Option<Config>, version: nat, hash: string, h: Host) {
    c.Some? && c.value.version == version && h.id.digest(c.value) == hash
  }

  /** The runtime's stored configuration is the durable applied revision, if there is one. */
  predicate Matched(w: World, h: Host) {
    var t := w.session.tables;
    t.appliedVersion > 0 ==> IsRevision(w.core.config, t.appliedVersion, t.appliedHash, h)
  }

  /** The runtime takes a new configuration over an applied one, and marking it fails. */
  ghost predicate LosesMark(w: World, e: Event, h: Host) {
    ReachesRuntime(w, e, h) && Taken(w, e, h) && e.markFails && w.session.tables.appliedVersion > 0
  }

  /** A restart, or a configuration that the runtime takes and that is marked. */
  ghost predicate Heals(w: World, e: Event, h: Host) {
    e.Restart? || (ReachesRuntime(w, e, h) && Taken(w, e, h) && !e.markFails)
  }

  /** After any one step, runtime and durable state match exactly if the step heals, or they did and no mark is lost. */
  lemma HappensMatchedExactly(w: World, e: Event, h: Host)
    requires Good(w, h)
    ensures Matched(Happens(w, e, h), h) <==> Heals(w, e, h) || (Matched(w, h) && !LosesMark(w, e, h))
  {
    match e
    case Connected =>
    case Bundle(_, _, _, _) =>
    case Deliver(signed, _, _, _, _, _, _) =>
      if ReachesRuntime(w, e, h) {
        DeliveryMatchedExactly(w, e, h);
      } else if Session.Admitted(w.session, signed, h.id) {
        Session.DesiredSays(w.session, signed, OutcomeOf(w, e, h));
        assert w.session.tables == Session.TablesAfter(w.session.tables, signed, OutcomeOf(w, e, h));
      }
    case Users(snapshot, secrets, f, _, _) => Runtime.UsersKeepConfig(w.core, snapshot.users, secrets, f, h.lib);
    case Restart(_, _, _, _, _) => RestartMatched(w, e, h);
  }

  lemma RestartMatched(w: World, e: Event, h: Host)
    requires Good(w, h) && e.Restart?
    ensures Matched(Happens(w, e, h), h)
  {
    var t := w.session.tables;
    RestartTables(w, e, h);
    if t.appliedVersion > 0 {
      AppliedIsRevision(t, h);
      RestoredFromConsistent(t.rows[t.appliedVersion].signed.config, StoredUsers(w.disk, e), e, h.lib);
    }
  }

  lemma RestartTables(w: World, e: Event, h: Host)
    requires e.Restart?
    ensures var t := w.session.tables;
            SessionAfter(w, e, h).tables == if Completes(w, e, h) then t else Revisions.AfterReset(t)
  {}

  lemma AppliedIsRevision(t: Revisions.Tables, h: Host)
    requires Session.Stored(t, h.id) && t.appliedVersion > 0
    ensures t.appliedVersion in t.rows && t.rows[t.appliedVersion].status == Revisions.Applied
    ensures IsRevision(Some(t.rows[t.appliedVersion].signed.config), t.appliedVersion, t.appliedHash, h)
  {}

  lemma DeliveryMatchedExactly(w: World, e: Event, h: Host)
    requires Good(w, h) && ReachesRuntime(w, e, h)
    ensures Matched(Happens(w, e, h), h) <==> Heals(w, e, h) || (Matched(w, h) && !LosesMark(w, e, h))
  {
    var t, o := w.session.tables, OutcomeOf(w, e, h);
    Session.DesiredSays(w.session, e.signed, o);
    Runtime.TakenRuns(w.core, e.signed.config, e.secrets, e.faults, h.lib);
    DeliveredTables(t, e.signed, o);
  }

  lemma DeliveredTables(t: Revisions.Tables, signed: SignedConfig, o: Session.Outcome)
    requires Revisions.AppliedRowThere(t) && Revisions.SaveOutcome(t, signed, o.saveFails) == Revisions.Saved(true)
    ensures t.appliedVersion > 0 ==> signed.config.version != t.appliedVersion
    ensures var t' := Session.TablesAfter(t, signed, o);
            if o.runtimeAccepts && !o.markFails
            then t'.appliedVersion == signed.config.version && t'.appliedHash == signed.sha256
            else t'.appliedVersion == t.appliedVersion && t'.appliedHash == t.appliedHash
  {}

  // ----- What a success means

  /** A core runs that was started from this revision. */
  predicate Runs(s: Runtime.State, version: nat, hash: string, h: Host) {
    s.active.Some? && IsRevision(Some(s.active.value.config), version, hash, h)
  }

  /** Handling the delivery ends in the report of a success for it. */
  ghost predicate Succeeds(w: World, e: Event, h: Host) {
    var before, after := w.session.trace, SessionAfter(w, e, h).trace;
    e.Deliver? && |after| > |before| && var last := after[|after| - 1];
    last.Reported? && last.succeeded && last.version == e.signed.config.version && last.hash == e.signed.sha256
  }

  /**
   A reported success is for a running core of that revision when the runtime was just given it; on a repeat it is
   exactly when such a core runs already, for nothing is done.
   */
  lemma SuccessRunsExactly(w: World, e: Event, h: Host)
    requires Good(w, h) && Succeeds(w, e, h)
    ensures var w', v, hash := Happens(w, e, h), e.signed.config.version, e.signed.sha256;
            Runs(w'.core, v, hash, h) <==> ReachesRuntime(w, e, h) || Runs(w.core, v, hash, h)
  {
    Session.DesiredSays(w.session, e.signed, OutcomeOf(w, e, h));
    if ReachesRuntime(w, e, h) {
      Runtime.TakenRuns(w.core, e.signed.config, e.secrets, e.faults, h.lib);
    }
  }

  /** Delivering the applied revision again is reported as a success and leaves the runtime alone. */
  lemma RedeliverySucceeds(w: World, secrets: Secrets, f: Runtime.Faults, h: Host) returns (bundle: Event, e: Event)
    requires Good(w, h) && w.session.tables.appliedVersion > 0
    ensures var t := w.session.tables;
            && bundle == Bundle(h.id.agentNodeId, t.appliedVersion, true, []) && e.Deliver?
            && t.appliedVersion in t.rows && e.signed == t.rows[t.appliedVersion].signed
            && e.signed.config.version == t.appliedVersion && e.signed.sha256 == t.appliedHash
            && var w' := Happens(w, bundle, h); Good(w', h) && Succeeds(w', e, h) && Happens(w', e, h).core == w.core
  {
    var t := w.session.tables;
    var signed := t.rows[t.appliedVersion].signed;
    bundle := Bundle(h.id.agentNodeId, t.appliedVersion, true, []);
    e := Deliver(signed, secrets, f, false, false, false, false);
    HappensGood(w, bundle, h);
    AppliedIsRevision(t, h);
    RepeatSucceeds(Happens(w, bundle, h), e, h);
  }

  lemma RepeatSucceeds(w: World, e: Event, h: Host)
    requires Good(w, h) && e.Deliver? && !e.saveFails && !e.sendFails
    requires var t := w.session.tables;
             && t.appliedVersion > 0 && t.appliedVersion in t.rows && t.appliedVersion in w.session.bundles
             && e.signed == t.rows[t.appliedVersion].signed
    ensures Succeeds(w, e, h) && Happens(w, e, h).core == w.core
  {
    Session.DesiredSays(w.session, e.signed, OutcomeOf(w, e, h));
  }

  /**
   With no other row applied: every next success is for a running core of its revision exactly when the applied
   revision runs, or nothing is applied.
   */
  lemma NextSuccessRunsExactly(w: World, h: Host)
    requires Good(w, h) && Revisions.OnlyApplied(w.session.tables)
    ensures var t := w.session.tables;
            (t.appliedVersion == 0 || Runs(w.core, t.appliedVersion, t.appliedHash, h)) <==>
              forall node, version, e :: NextSuccessRuns(w, node, version, e, h)
  {
    var t := w.session.tables;
    if t.appliedVersion == 0 || Runs(w.core, t.appliedVersion, t.appliedHash, h) {
      forall node, version, e ensures NextSuccessRuns(w, node, version, e, h) {
        var w' := Happens(w, Bundle(node, version, true, []), h);
        HappensGood(w, Bundle(node, version, true, []), h);
        if Succeeds(w', e, h) {
          SuccessIsApplied(w', e, h);
          SuccessRunsExactly(w', e, h);
        }
      }
    } else {
      var bundle, e := RedeliverySucceeds(w, Secrets(_ => None, _ => None), Runtime.AllWell(0), h);
      assert !NextSuccessRuns(w, h.id.agentNodeId, t.appliedVersion, e, h);
    }
  }

  /** If this delivery, after this bundle, is reported as a success, then a core of its revision runs. */
  ghost predicate NextSuccessRuns(w: World, node: int, version: nat, e: Event, h: Host)
    requires Good(w, h)
  {
    HappensGood(w, Bundle(node, version, true, []), h);
    var w' := Happens(w, Bundle(node, version, true, []), h);
    Succeeds(w', e, h) ==> Runs(Happens(w', e, h).core, e.signed.config.version, e.signed.sha256, h)
  }

  lemma SuccessIsApplied(w: World, e: Event, h: Host)
    requires Good(w, h) && Revisions.OnlyApplied(w.session.tables) && Succeeds(w, e, h)
    ensures ReachesRuntime(w, e, h)
         || (e.signed.config.version == w.session.tables.appliedVersion > 0
             && e.signed.sha256 == w.session.tables.appliedHash)
  {
    Session.DesiredSays(w.session, e.signed, OutcomeOf(w, e, h));
    Revisions.NothingToDoMeansAppliedExactly(w.session.tables);
  }

  // ----- Runs

  ghost predicate IsRun(worlds: seq<World>, events: seq<Event>, h: Host) {
    && |worlds| == |events| + 1 && worlds[0] == BOOTED
    && forall n :: 0 <= n < |events| ==> Follows(worlds, events, h, n)
  }

  ghost predicate Follows(worlds: seq<World>, events: seq<Event>, h: Host, n: int)
    requires 0 <= n < |events| && |events| < |worlds|
  {
    Good(worlds[n], h) ==> worlds[n + 1] == Happens(worlds[n], events[n], h)
  }

  lemma {:induction false} EveryRunGood(worlds: seq<World>, events: seq<Event>, h: Host, n: nat)
    requires IsRun(worlds, events, h) && n <= |events|
    ensures Good(worlds[n], h)
  {
    if n > 0 {
      EveryRunGood(worlds, events, h, n - 1);
      HappensGood(worlds[n - 1], events[n - 1], h);
      assert Follows(worlds, events, h, n - 1);
    }
  }

  /** The steps of a run that lose a mark, and those that heal. */
  ghost function Losses(worlds: seq<World>, events: seq<Event>, h: Host): int -> bool {
    m => 0 <= m < |events| < |worlds| && LosesMark(worlds[m], events[m], h)
  }

  ghost function Healings(worlds: seq<World>, events: seq<Event>, h: Host): int -> bool {
    m => 0 <= m < |events| < |worlds| && Heals(worlds[m], events[m], h)
  }

  /** A mark lost in step m, and nothing after it, before step n, that heals. */
  predicate LastsFrom(loses: int -> bool, heals: int -> bool, m: int, n: int) {
    0 <= m < n && loses(m) && forall j :: m < j < n ==> !heals(j)
  }

  ghost predicate PartedAt(worlds: seq<World>, events: seq<Event>, h: Host, n: int) {
    exists m :: LastsFrom(Losses(worlds, events, h), Healings(worlds, events, h), m, n)
  }

  /**
   Over every run of sessions, users and restarts: the runtime's stored configuration is not the durable applied
   revision exactly when a mark was lost, and neither a restart nor a configuration taken and marked came since.
   */
  lemma {:induction false} EveryRunPartedExactly(worlds: seq<World>, events: seq<Event>, h: Host, n: nat)
    requires IsRun(worlds, events, h) && n <= |events|
    ensures !Matched(worlds[n], h) <==> PartedAt(worlds, events, h, n)
  {
    if n > 0 {
      var k := n - 1;
      EveryRunGood(worlds, events, h, k);
      EveryRunPartedExactly(worlds, events, h, k);
      HappensMatchedExactly(worlds[k], events[k], h);
      assert Follows(worlds, events, h, k);
      PartedStep(Losses(worlds, events, h), Healings(worlds, events, h), k, n);
    }
  }

  lemma PartedStep(loses: int -> bool, heals: int -> bool, k: int, n: int)
    requires n == k + 1 && k >= 0 && !(loses(k) && heals(k))
    ensures (exists m :: LastsFrom(loses, heals, m, n)) <==>
              !heals(k) && (loses(k) || exists m :: LastsFrom(loses, heals, m, k))
  {
    if m :| LastsFrom(loses, heals, m, n) {
      if m < k {
        assert LastsFrom(loses, heals, m, k);
      }
    }
    if loses(k) {
      assert LastsFrom(loses, heals, k, n);
    } else if m :| LastsFrom(loses, heals, m, k) {
      if !heals(k) {
        assert LastsFrom(loses, heals, m, n);
      }
    }
  }

  /**
   In every run, while no other row is applied: a reported success is for the configuration the runtime has stored
   exactly when the runtime was just given it or no lost mark is unhealed; and a core of the stored configuration runs
   exactly when it was just given, or one ran before.
   */
  lemma EverySuccessMatchedExactly(worlds: seq<World>, events: seq<Event>, h: Host, n: nat)
    requires IsRun(worlds, events, h) && n < |events| && Revisions.OnlyApplied(worlds[n].session.tables)
    ensures Succeeds(worlds[n], events[n], h) ==>
            var e, next, given := events[n], worlds[n + 1], ReachesRuntime(worlds[n], events[n], h);
            && (IsRevision(next.core.config, e.signed.config.version, e.signed.sha256, h) <==>
                given || !PartedAt(worlds, events, h, n))
            && (next.core.active.Some? <==> given || worlds[n].core.active.Some?)
  {
    var w, e := worlds[n], events[n];
    EveryRunGood(worlds, events, h, n);
    EveryRunPartedExactly(worlds, events, h, n);
    assert Follows(worlds, events, h, n);
    if Succeeds(w, e, h) {
      SuccessIsApplied(w, e, h);
      SuccessStores(w, e, h);
    }
  }

  lemma SuccessStores(w: World, e: Event, h: Host)
    requires Good(w, h) && Succeeds(w, e, h)
    ensures var s, s' := w.core, Happens(w, e, h).core;
            if ReachesRuntime(w, e, h)
            then IsRevision(s'.config, e.signed.config.version, e.signed.sha256, h) && s'.active.Some?
            else s' == s
  {
    Session.DesiredSays(w.session, e.signed, OutcomeOf(w, e, h));
    if ReachesRuntime(w, e, h) {
      Runtime.TakenRuns(w.core, e.signed.config, e.secrets, e.faults, h.lib);
    }
  }

  ghost predicate LeavesRows(w: World, e: Event, h: Host) {
    e.Deliver? && Session.LeavesRows(w.session, Session.Desired(e.signed, OutcomeOf(w, e, h)), h.id)
  }

  /** None of the first n steps leaves rows behind. */
  ghost predicate NoneLeaves(worlds: seq<World>, events: seq<Event>, h: Host, n: nat)
    requires n <= |events| < |worlds|
  {
    n == 0 || (NoneLeaves(worlds, events, h, n - 1) && !LeavesRows(worlds[n - 1], events[n - 1], h))
  }

  /** No other row is ever applied in a run in which no clean-up leaves rows behind. */
  lemma {:induction false} EveryRunConsistent(worlds: seq<World>, events: seq<Event>, h: Host, n: nat)
    requires IsRun(worlds, events, h) && n <= |events|
    requires NoneLeaves(worlds, events, h, n)
    ensures Revisions.Consistent(worlds[n].session.tables) && Revisions.OnlyApplied(worlds[n].session.tables)
  {
    if n > 0 {
      EveryRunConsistent(worlds, events, h, n - 1);
      EveryRunGood(worlds, events, h, n - 1);
      HappensConsistent(worlds[n - 1], events[n - 1], h);
      assert Follows(worlds, events, h, n - 1);
    }
  }

  lemma HappensConsistent(w: World, e: Event, h: Host)
    requires Good(w, h) && Revisions.Consistent(w.session.tables) && !LeavesRows(w, e, h)
    ensures Revisions.Consistent(Happens(w, e, h).session.tables)
  {
    match e
    case Connected =>
    case Bundle(_, _, _, _) =>
    case Users(_, _, _, _, _) =>
    case Deliver(signed, _, _, _, _, _, _) =>
      Session.HandleConsistentExactly(w.session, Session.Desired(signed, OutcomeOf(w, e, h)), h.id);
    case Restart(_, _, _, _, _) =>
      Session.HandleConsistentExactly(w.session, Session.Restart(Completes(w, e, h)), h.id);
  }

  // ----- What a restart brings back

  /** A revision names one snapshot, and bundles leave the users' secrets alone. */
  predicate Proper(w: World, e: Event) {
    match e
    case Users(snapshot, _, _, _, _) => Snapshots.NamesOneSnapshot(w.committed, snapshot)
    case Bundle(_, _, _, puts) => forall i :: 0 <= i < |puts| ==> !Snapshots.IsUserRef(puts[i].0)
    case _ => true
  }

  lemma {:induction false} PutBundleKeepsMeaning(d: Snapshots.Disk, current: Snapshots.Snapshot,
      puts: seq<(string, string)>, lower: string -> string)
    requires Snapshots.Means(d, current, lower) && forall i :: 0 <= i < |puts| ==> !Snapshots.IsUserRef(puts[i].0)
    ensures Snapshots.Means(PutBundle(d, puts, lower), current, lower)
  {
    if puts != [] {
      var n := |puts| - 1;
      PutBundleKeepsMeaning(d, current, puts[..n], lower);
      Snapshots.OtherPutKeepsMeaning(PutBundle(d, puts[..n], lower), current, puts[n].0, puts[n].1, lower);
    }
  }

  lemma HappensKeepsMeaning(w: World, e: Event, h: Host)
    requires Good(w, h) && Snapshots.Means(w.disk, w.committed, h.lower) && Proper(w, e)
    ensures Snapshots.Means(DiskAfter(w, e, h), CommittedAfter(w, e, h), h.lower)
  {
    match e
    case Connected =>
    case Deliver(_, _, _, _, _, _, _) =>
    case Bundle(_, _, _, puts) => PutBundleKeepsMeaning(w.disk, w.committed, puts, h.lower);
    case Users(_, _, _, _, _) => Snapshots.AttemptKeepsMeaning(w.disk, AttemptOf(w, e, h), w.committed, h.lower);
    case Restart(_, _, _, _, _) =>
      Snapshots.EventKeepsMeaning(w.disk, Snapshots.ResetApplied, w.committed, h.lower);
  }

  lemma {:induction false} EveryDiskMeansCommitted(worlds: seq<World>, events: seq<Event>, h: Host, n: nat)
    requires IsRun(worlds, events, h) && n <= |events|
    requires forall m :: 0 <= m < n ==> Proper(worlds[m], events[m])
    ensures Snapshots.Means(worlds[n].disk, worlds[n].committed, h.lower)
  {
    if n > 0 {
      EveryDiskMeansCommitted(worlds, events, h, n - 1);
      EveryRunGood(worlds, events, h, n - 1);
      HappensKeepsMeaning(worlds[n - 1], events[n - 1], h);
      assert Follows(worlds, events, h, n - 1);
    }
  }

  /**
   The runtime holds what is durable: nothing, or the applied revision with the users of the last committed snapshot.
   */
  ghost predicate HoldsWhatIsDurable(core: Runtime.State, t: Revisions.Tables, committed: Snapshots.Snapshot, h: Host) {
    if t.appliedVersion == 0 then core == Runtime.IDLE
    else
      Runs(core, t.appliedVersion, t.appliedHash, h)
      && SortResult(committed.users, core.active.value.users, Snapshots.RestoreOrder)
  }

  /** Nothing is applied any more, neither a configuration nor a user revision. */
  predicate NothingApplied(w: World) {
    w.session.tables.appliedVersion == 0 && w.disk.applied == 0
  }

  /**
   In every run of configurations, bundles, users, crashes and restarts: a restart that reports no error runs the
   durable applied configuration with exactly the users of the last committed snapshot; one that does report an error
   leaves nothing applied, so that the server sends everything again.
   */
  lemma EveryRestartRunsWhatIsDurable(worlds: seq<World>, events: seq<Event>, h: Host, n: nat)
    requires IsRun(worlds, events, h) && n < |events| && events[n].Restart?
    requires forall m :: 0 <= m < n ==> Proper(worlds[m], events[m])
    ensures var w, w' := worlds[n], worlds[n + 1];
            if Completes(w, events[n], h)
            then w'.session.tables == w.session.tables && HoldsWhatIsDurable(w'.core, w.session.tables, w.committed, h)
            else NothingApplied(w')
  {
    EveryRunGood(worlds, events, h, n);
    EveryDiskMeansCommitted(worlds, events, h, n);
    assert Follows(worlds, events, h, n);
    RestartTables(worlds[n], events[n], h);
    if Completes(worlds[n], events[n], h) {
      RestartRuns(worlds[n], events[n], h);
    }
  }

  lemma RestartRuns(w: World, e: Event, h: Host)
    requires Good(w, h) && e.Restart? && Completes(w, e, h) && Snapshots.Means(w.disk, w.committed, h.lower)
    ensures HoldsWhatIsDurable(CoreAfter(w, e, h), w.session.tables, w.committed, h)
  {
    var t := w.session.tables;
    if t.appliedVersion > 0 {
      AppliedIsRevision(t, h);
      RestoredFromConsistent(t.rows[t.appliedVersion].signed.config, StoredUsers(w.disk, e), e, h.lib);
      Snapshots.RestoredUsers(w.disk, w.committed.users);
    }
  }

  /**
   When a restart reports no error, in every run: nothing is applied, or the stored revision can be built and started
   and every user last committed is placed in it, with a credential that fits if current. Users that were committed
   can always be read back.
   */
  lemma RestartCompletesExactly(worlds: seq<World>, events: seq<Event>, h: Host, n: nat)
    requires IsRun(worlds, events, h) && n < |events| && events[n].Restart?
    requires forall m :: 0 <= m < n ==> Proper(worlds[m], events[m])
    ensures var w, e := worlds[n], events[n];
            var t, f, g := w.session.tables, e.faults, e.userFaults;
            Completes(w, e, h) <==>
              && !e.readFails
              && (t.appliedVersion > 0 ==>
                  && t.appliedVersion in t.rows
                  && var c := t.rows[t.appliedVersion].signed.config;
                     && Accepted(c, h.lib.parsing) && Runtime.Buildable(c, e.secrets, h.lib.parsing) && !e.usersFail
                     && !f.builderRejects && !f.startFails && !g.closeFails && !g.startFails
                     && forall u :: u in w.committed.users ==> Runtime.Placed(c, u, g, h.lib))
  {
    var w, e := worlds[n], events[n];
    var t := w.session.tables;
    EveryRunGood(worlds, events, h, n);
    EveryDiskMeansCommitted(worlds, events, h, n);
    MeansRestores(w.disk, w.committed, h.lower);
    if t.appliedVersion > 0 {
      AppliedIsRevision(t, h);
      RestoredFromExactly(t.rows[t.appliedVersion].signed.config, StoredUsers(w.disk, e), e, h.lib);
    }
  }

  /** The users read back are those of the snapshot the disk means. */
  lemma MeansRestores(d: Snapshots.Disk, current: Snapshots.Snapshot, lower: string -> string)
    requires Snapshots.Means(d, current, lower)
    ensures Snapshots.Resolves(d) && forall u :: u in Snapshots.Restored(d) <==> u in current.users
  {
    Snapshots.RestoredUsers(d, current.users);
    var stored := Snapshots.Restored(d);
    assert forall u :: u in stored <==> u in multiset(stored);
    assert forall u :: u in current.users <==> u in multiset(current.users);
  }

  lemma RestoredFromExactly(c: Config, users: Option<seq<Runtime.User>>, e: Event, lib: Runtime.Library)
    requires e.Restart?
    ensures RestoredFrom(c, users, e, lib).1 <==>
              && Accepted(c, lib.parsing) && Runtime.Buildable(c, e.secrets, lib.parsing) && users.Some?
              && !e.faults.builderRejects && !e.faults.startFails && !e.userFaults.closeFails
              && !e.userFaults.startFails
              && forall u :: u in users.value ==> Runtime.Placed(c, u, e.userFaults, lib)
  {
    var core := Runtime.AfterApplyConfig(Runtime.IDLE, c, e.secrets, e.faults, lib);
    Runtime.ApplyConfigConsistent(Runtime.IDLE, c, e.secrets, e.faults, lib);
    Runtime.ConfigTakenExactly(Runtime.IDLE, c, e.secrets, e.faults, lib);
    if Runtime.ConfigTaken(Runtime.IDLE, c, e.secrets, e.faults, lib) && users.Some? {
      Runtime.TakenRuns(Runtime.IDLE, c, e.secrets, e.faults, lib);
      Runtime.UsersAcceptedExactly(core, users.value, e.secrets, e.userFaults, lib);
    }
  }

  // ----- What the agent gets done

  /**
   A revision new to the tables that the runtime takes: after its bundle and its delivery, with nothing failing, it is
   durably applied, a core of it runs, and a success is reported.
   */
  lemma DeliveryRuns(w: World, signed: SignedConfig, secrets: Secrets, f: Runtime.Faults, h: Host)
    requires Good(w, h) && Session.Verified(signed, h.id) && Session.Addressed(signed, h.id)
    requires Session.NewToTables(w.session.tables, signed)
    requires Runtime.ConfigTaken(w.core, signed.config, secrets, f, h.lib)
    ensures var v := signed.config.version;
            var bundle := Bundle(h.id.agentNodeId, v, true, []);
            var delivery := Deliver(signed, secrets, f, false, false, false, false);
            var w1 := Happens(w, bundle, h);
            Good(w1, h) && var w2 := Happens(w1, delivery, h);
            && w2.session.tables.appliedVersion == v && w2.session.tables.appliedHash == signed.sha256
            && Runs(w2.core, v, signed.sha256, h) && Succeeds(w1, delivery, h)
  {
    var bundle := Bundle(h.id.agentNodeId, signed.config.version, true, []);
    var delivery := Deliver(signed, secrets, f, false, false, false, false);
    HappensGood(w, bundle, h);
    Revisions.SavesExactly(w.session.tables, signed, false);
    TakenDeliveryRuns(Happens(w, bundle, h), delivery, h);
  }

  lemma TakenDeliveryRuns(w: World, e: Event, h: Host)
    requires Good(w, h) && ReachesRuntime(w, e, h) && Taken(w, e, h)
    requires !e.saveFails && !e.markFails && !e.cleanupFails && !e.sendFails
    ensures var v, hash, w' := e.signed.config.version, e.signed.sha256, Happens(w, e, h);
            && w'.session.tables.appliedVersion == v && w'.session.tables.appliedHash == hash
            && Runs(w'.core, v, hash, h) && Succeeds(w, e, h)
  {
    Session.DesiredSays(w.session, e.signed, OutcomeOf(w, e, h));
    Session.NewIsApplied(w.session.tables, e.signed);
    Runtime.TakenRuns(w.core, e.signed.config, e.secrets, e.faults, h.lib);
  }

  /**
   A snapshot of a newer revision that runtime and disk take: the core runs exactly its users, the disk means it, and it
   is the one committed.
   */
  lemma SnapshotTakesEffect(w: World, e: Event, h: Host)
    requires Good(w, h) && e.Users? && w.core.active.Some? && e.snapshot.revision > w.disk.applied
    requires Runtime.UsersAccepted(w.core, e.snapshot.users, e.secrets, e.faults, h.lib)
    requires Snapshots.Succeeds(w.disk, AttemptOf(w, e, h), h.lower)
    ensures var w' := Happens(w, e, h);
            && w'.core.active == Some(Runtime.Core(w.core.config.value, e.snapshot.users))
            && w'.committed == e.snapshot && w'.disk.applied == e.snapshot.revision
            && Snapshots.Means(w'.disk, e.snapshot, h.lower)
  {
    var a := AttemptOf(w, e, h);
    Snapshots.SnapshotSucceedsExactly(w.disk, a, h.lower);
    Snapshots.AttemptLeaves(w.disk, a, |a.snapshot.users|, h.lower);
    Snapshots.CommittedView(w.disk.secrets, e.snapshot, h.lower);
    Runtime.ApplyUsersConsistent(w.core, e.snapshot.users, e.secrets, e.faults, h.lib);
  }

  // ----- Runs in which a success misleads

  /** A run grows by one event. */
  lemma Extend(worlds: seq<World>, events: seq<Event>, h: Host, e: Event)
    requires IsRun(worlds, events, h)
    ensures var last := worlds[|events|];
            Good(last, h) && Good(Happens(last, e, h), h) && IsRun(worlds + [Happens(last, e, h)], events + [e], h)
  {
    EveryRunGood(worlds, events, h, |events|);
    HappensGood(worlds[|events|], e, h);
    var more, all := worlds + [Happens(worlds[|events|], e, h)], events + [e];
    forall n | 0 <= n < |all| ensures Follows(more, all, h, n) {
      if n < |events| {
        assert Follows(worlds, events, h, n);
      }
    }
  }

  /** A verified configuration for this agent that the runtime can build. */
  ghost predicate Deliverable(signed: SignedConfig, secrets: Secrets, h: Host) {
    && Session.Verified(signed, h.id) && Session.Addressed(signed, h.id) && 0 < signed.config.version <= MAX_INT64
    && Accepted(signed.config, h.lib.parsing) && Runtime.Buildable(signed.config, secrets, h.lib.parsing)
  }

  function Delivery(signed: SignedConfig, secrets: Secrets, markFails: bool): Event {
    Deliver(signed, secrets, Runtime.AllWell(0), false, markFails, false, false)
  }

  /** A new configuration is delivered to a runtime without users, after its bundle. */
  lemma DeliveryTaken(w: World, signed: SignedConfig, secrets: Secrets, markFails: bool, h: Host)
    requires Good(w, h) && Deliverable(signed, secrets, h) && w.core.users == []
             && signed.config.version in w.session.bundles
    requires Revisions.SaveOutcome(w.session.tables, signed, false) == Revisions.Saved(true)
    ensures var e := Delivery(signed, secrets, markFails);
            var w' := Happens(w, e, h);
            && ReachesRuntime(w, e, h) && Taken(w, e, h)
            && w'.core.config == Some(signed.config) && w'.core.active == Some(Runtime.Core(signed.config, []))
            && w'.core.users == []
            && w'.session.tables == Session.TablesAfter(w.session.tables, signed,
                                                        Session.Outcome(false, true, markFails, false, false))
  {
    var e := Delivery(signed, secrets, markFails);
    assert Runtime.Available(signed.config.inbounds, []) == [];
    Runtime.TakenRuns(w.core, signed.config, secrets, Runtime.AllWell(0), h.lib);
    Session.DesiredSays(w.session, signed, OutcomeOf(w, e, h));
  }

  lemma FirstTables(signed: SignedConfig)
    requires 0 < signed.config.version <= MAX_INT64
    ensures Revisions.SaveOutcome(Revisions.EMPTY, signed, false) == Revisions.Saved(true)
    ensures Session.TablesAfter(Revisions.EMPTY, signed, Session.WELL)
         == Revisions.Tables(map[signed.config.version := Revisions.Revision(signed, Revisions.Applied)],
                             signed.config.version, signed.sha256, 0)
  {}

  /** A run from the start in which the first configuration is delivered, taken and marked. */
  lemma FirstDelivered(first: SignedConfig, secrets: Secrets, h: Host) returns (worlds: seq<World>, events: seq<Event>)
    requires Deliverable(first, secrets, h)
    ensures IsRun(worlds, events, h) && |events| == 2 && Good(worlds[2], h)
    ensures events == [Bundle(h.id.agentNodeId, first.config.version, true, []), Delivery(first, secrets, false)]
    ensures worlds[2].core.config == Some(first.config) && worlds[2].core.users == []
    ensures worlds[2].core.active == Some(Runtime.Core(first.config, []))
    ensures worlds[2].session.tables
         == Revisions.Tables(map[first.config.version := Revisions.Revision(first, Revisions.Applied)],
                             first.config.version, first.sha256, 0)
  {
    var bundle, delivery := Bundle(h.id.agentNodeId, first.config.version, true, []), Delivery(first, secrets, false);
    Extend([BOOTED], [], h, bundle);
    var w1 := Happens(BOOTED, bundle, h);
    FirstTables(first);
    DeliveryTaken(w1, first, secrets, false, h);
    Extend([BOOTED] + [w1], [] + [bundle], h, delivery);
    worlds, events := [BOOTED] + [w1] + [Happens(w1, delivery, h)], [] + [bundle] + [delivery];
  }

  /** Empty users sent to a runtime whose core neither starts nor restarts leave no core. */
  lemma UsersLoseCore(w: World, secrets: Secrets, h: Host) returns (e: Event)
    requires Good(w, h) && w.core.active.Some? && w.core.config.Some?
    requires Runtime.Buildable(w.core.config.value, secrets, h.lib.parsing)
    ensures e.Users? && e.snapshot == Snapshots.Snapshot(1, [])
    ensures var w' := Happens(w, e, h); w'.core.active.None? && w'.session == w.session
  {
    var f := Runtime.AllWell(0).(startFails := true, restartFails := true);
    e := Users(Snapshots.Snapshot(1, []), secrets, f, 0, false);
    Runtime.NoCoreAfterUsersExactly(w.core, [], secrets, f, h.lib);
  }

  /** A run goes on with the applied revision delivered again, after its bundle: a success, and nothing done. */
  lemma Redelivered(worlds: seq<World>, events: seq<Event>, secrets: Secrets, h: Host)
      returns (w1: World, w2: World, e1: Event, e2: Event)
    requires IsRun(worlds, events, h) && worlds[|events|].session.tables.appliedVersion > 0
    ensures var last := worlds[|events|];
            var t := last.session.tables;
            && IsRun(worlds + [w1, w2], events + [e1, e2], h)
            && e2.Deliver? && t.appliedVersion in t.rows && e2.signed == t.rows[t.appliedVersion].signed
            && Succeeds(w1, e2, h) && w2.core == last.core
  {
    EveryRunGood(worlds, events, h, |events|);
    e1, e2 := RedeliverySucceeds(worlds[|events|], secrets, Runtime.AllWell(0), h);
    w1 := Happens(worlds[|events|], e1, h);
    w2 := Happens(w1, e2, h);
    Extend(worlds, events, h, e1);
    Extend(worlds + [w1], events + [e1], h, e2);
    assert worlds + [w1] + [w2] == worlds + [w1, w2] && events + [e1] + [e2] == events + [e1, e2];
  }

  /**
   A whole run that ends in a reported success while no core runs: the configuration is applied, the core is lost when
   neither the new users nor the old ones start, and the configuration delivered again.
   */
  lemma SuccessWithoutCore(first: SignedConfig, secrets: Secrets, h: Host)
      returns (worlds: seq<World>, events: seq<Event>)
    requires Deliverable(first, secrets, h)
    ensures IsRun(worlds, events, h) && |events| == 5
    ensures events[1].Deliver? && events[1].signed == first && events[4].Deliver? && events[4].signed == first
    ensures events[2].Users? && events[2].snapshot == Snapshots.Snapshot(1, [])
    ensures Succeeds(worlds[4], events[4], h) && worlds[5].core.active.None?
  {
    var ws, es := FirstDelivered(first, secrets, h);
    var lose := UsersLoseCore(ws[2], secrets, h);
    Extend(ws, es, h, lose);
    var w3 := Happens(ws[2], lose, h);
    var w4, w5, bundle, again := Redelivered(ws + [w3], es + [lose], secrets, h);
    worlds, events := ws + [w3] + [w4, w5], es + [lose] + [bundle, again];
  }

  /**
   A whole run that ends in a reported success for one configuration while the core runs another: the second is taken
   but not marked, and the first delivered again.
   */
  lemma SuccessForAnotherCore(first: SignedConfig, second: SignedConfig, secrets: Secrets, h: Host)
    returns (worlds: seq<World>, events: seq<Event>)
    requires Deliverable(first, secrets, h) && Deliverable(second, secrets, h)
    requires first.config.version < second.config.version && first.sha256 != second.sha256
    ensures IsRun(worlds, events, h) && |events| == 6
    ensures events[1].Deliver? && events[1].signed == first && events[3] == Delivery(second, secrets, true)
    ensures events[5].Deliver? && events[5].signed == first && Succeeds(worlds[5], events[5], h)
    ensures worlds[6].core.active == Some(Runtime.Core(second.config, []))
  {
    var ws, es := FirstDelivered(first, secrets, h);
    var w3, w4, bundle2 := SecondUnmarked(ws, es, first, second, secrets, h);
    var lost := Delivery(second, secrets, true);
    var w5, w6, bundle, again := Redelivered(ws + [w3, w4], es + [bundle2, lost], secrets, h);
    worlds, events := ws + [w3, w4] + [w5, w6], es + [bundle2, lost] + [bundle, again];
  }

  lemma SecondUnmarked(ws: seq<World>, es: seq<Event>, first: SignedConfig, second: SignedConfig, secrets: Secrets,
      h: Host)
    returns (w3: World, w4: World, bundle: Event)
    requires IsRun(ws, es, h) && |es| == 2 && ws[2].core.users == [] && Deliverable(second, secrets, h)
    requires 0 < first.config.version < second.config.version && first.sha256 != second.sha256
    requires ws[2].session.tables
          == Revisions.Tables(map[first.config.version := Revisions.Revision(first, Revisions.Applied)],
                              first.config.version, first.sha256, 0)
    ensures IsRun(ws + [w3, w4], es + [bundle, Delivery(second, secrets, true)], h)
    ensures LosesMark(w3, Delivery(second, secrets, true), h)
    ensures w4.core.active == Some(Runtime.Core(second.config, []))
    ensures var t := w4.session.tables;
            && t.appliedVersion == first.config.version
            && t.appliedVersion in t.rows && t.rows[t.appliedVersion].signed == first
  {
    var lost := Delivery(second, secrets, true);
    bundle := Bundle(h.id.agentNodeId, second.config.version, true, []);
    Extend(ws, es, h, bundle);
    w3 := Happens(ws[2], bundle, h);
    UnmarkedTables(first, second);
    DeliveryTaken(w3, second, secrets, true, h);
    Extend(ws + [w3], es + [bundle], h, lost);
    w4 := Happens(w3, lost, h);
    assert ws + [w3] + [w4] == ws + [w3, w4] && es + [bundle] + [lost] == es + [bundle, lost];
  }

  lemma UnmarkedTables(first: SignedConfig, second: SignedConfig)
    requires 0 < first.config.version < second.config.version <= MAX_INT64 && first.sha256 != second.sha256
    ensures var v := first.config.version;
            var t := Revisions.Tables(map[v := Revisions.Revision(first, Revisions.Applied)], v, first.sha256, 0);
            var t' := Session.TablesAfter(t, second, Session.WELL.(markFails := true));
            && Revisions.SaveOutcome(t, second, false) == Revisions.Saved(true)
            && t'.appliedVersion == v && v in t'.rows && t'.rows[v].signed == first
  {}
}
