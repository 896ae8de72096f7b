/**
 The configuration side of a control session: secret bundles are opened, desired configurations are verified,
 saved, applied to the runtime and marked, and each outcome is reported to the server.
 */
module ControlSession {
  import opened Text
  import opened DesiredConfig
  import opened ConfigRevisions

  /** Signature verification and the agent's own identity. */
  datatype Identity = Identity(agentNodeId: int, keyId: string, parsing: Parsing,
                               digest: Config -> string, signatureValid: (Config, string) -> bool)

  /** VerifySignedConfig */
  ghost predicate Verified(signed: SignedConfig, id: Identity) {
    Accepted(signed.config, id.parsing) && signed.sha256 == id.digest(signed.config)
        && id.signatureValid(signed.config, signed.signature)
  }

  predicate Addressed(signed: SignedConfig, id: Identity) {
    signed.keyId == id.keyId && signed.config.agentNodeId == id.agentNodeId
  }

  /** What a session does that others can see, with the durable applied state at the moment of each report. */
  datatype Event =
    | SessionStarted
    | BundleOpened(version: nat)
    | GivenToRuntime(signed: SignedConfig)
    | Reported(version: nat, hash: string, succeeded: bool, durableVersion: nat, durableHash: string)

  datatype State = State(tables: Tables, bundles: set<nat>, trace: seq<Event>)

  /** What the runtime, the database and the connection do while one desired configuration is handled. */
  datatype Outcome = Outcome(saveFails: bool, runtimeAccepts: bool, markFails: bool, cleanupFails: bool,
                             sendFails: bool)

  datatype Message =
    | Connect
    | SecretBundle(agentNodeId: int, version: nat, opens: bool)
    | Desired(signed: SignedConfig, outcome: Outcome)
    | Restart(resetFails: bool)

  function Report(s: State, signed: SignedConfig, succeeded: bool, fails: bool): State {
    if fails then s
    else s.(trace := s.trace + [Reported(signed.config.version, signed.sha256, succeeded, s.tables.appliedVersion,
                                         s.tables.appliedHash)])
  }

  /** applyDesiredConfig once the message passed its checks. */
  function AfterSave(s: State, signed: SignedConfig, o: Outcome): State {
    var saved := s.(tables := Step(s.tables, Save(signed, o.saveFails)));
    match SaveOutcome(s.tables, signed, o.saveFails)
    case SaveError => saved
    case Saved(toApply) =>
      if !toApply then Report(saved, signed, true, o.sendFails)
      else
        var given := saved.(trace := s.trace + [GivenToRuntime(signed)]);
        if !o.runtimeAccepts then Report(given, signed, false, o.sendFails)
        else
          var mark := Mark(signed.config.version, signed.sha256, o.markFails, o.cleanupFails);
          var marked := given.(tables := Step(given.tables, mark));
          if MarkSucceeds(given.tables, signed.config.version, signed.sha256, o.markFails)
          then Report(marked, signed, true, o.sendFails) else marked
  }

  ghost predicate Admitted(s: State, signed: SignedConfig, id: Identity) {
    Addressed(signed, id) && Verified(signed, id) && signed.config.version in s.bundles
  }

  ghost function Handle(s: State, m: Message, id: Identity): State {
    match m
    case Connect => s.(bundles := {}, trace := s.trace + [SessionStarted])
    case SecretBundle(node, version, opens) =>
      if node == id.agentNodeId && opens
          then s.(bundles := s.bundles + {version}, trace := s.trace + [BundleOpened(version)]) else s
    case Desired(signed, o) => if Admitted(s, signed, id) then AfterSave(s, signed, o) else s
    case Restart(resetFails) => s.(tables := Step(s.tables, Reset(resetFails)), bundles := {},
                                   trace := s.trace + [SessionStarted])
  }

  const START := State(EMPTY, {}, [])

  ghost function Run(s: State, messages: seq<Message>, id: Identity): State {
    if messages == [] then s else Handle(Run(s, messages[..|messages| - 1], id), messages[|messages| - 1], id)
  }

  // ----- What the trace tells

  /** A bundle for the version was opened earlier, with no new session since. */
  ghost predicate OpenedEarlier(trace: seq<Event>, n: int, version: nat) {
    exists m :: 0 <= m < n <= |trace| && trace[m] == BundleOpened(version)
        && forall j :: m < j < n ==> !trace[j].SessionStarted?
  }

  /**
   A configuration given to the runtime was verified, addressed to this agent, and its bundle opened in this session.
   */
  ghost predicate Justified(trace: seq<Event>, n: int, id: Identity)
    requires 0 <= n < |trace|
  {
    trace[n].GivenToRuntime? ==>
      var signed := trace[n].signed;
      Verified(signed, id) && Addressed(signed, id) && OpenedEarlier(trace, n, signed.config.version)
  }

  /** A success is reported only for the durable applied version and hash. */
  predicate IsTrue(e: Event) {
    e.Reported? && e.succeeded ==> e.version == e.durableVersion && e.hash == e.durableHash
  }

  predicate Truthful(trace: seq<Event>) {
    forall n :: 0 <= n < |trace| ==> IsTrue(trace[n])
  }

  /** The stored rows were all verified and addressed here, and the applied one is there. */
  ghost predicate Stored(tables: Tables, id: Identity) {
    && Filed(tables) && AppliedRowThere(tables)
    && forall v :: v in tables.rows ==> Verified(tables.rows[v].signed, id) && Addressed(tables.rows[v].signed, id)
  }

  ghost predicate Grounded(s: State, id: Identity) {
    && Stored(s.tables, id)
    && (forall n :: 0 <= n < |s.trace| ==> Justified(s.trace, n, id))
    && (forall v :: v in s.bundles ==> OpenedEarlier(s.trace, |s.trace|, v))
  }

  lemma OpenedStays(trace: seq<Event>, more: seq<Event>, n: int, version: nat)
    requires OpenedEarlier(trace, n, version)
    ensures OpenedEarlier(trace + more, n, version)
    ensures n == |trace| && (forall j :: 0 <= j < |more| ==> !more[j].SessionStarted?) ==>
            OpenedEarlier(trace + more, |trace + more|, version)
  {
    var m :| 0 <= m < n <= |trace| && trace[m] == BundleOpened(version)
        && forall j :: m < j < n ==> !trace[j].SessionStarted?;
    var grown := trace + more;
    assert grown[m] == BundleOpened(version);
    assert forall j :: m < j < n ==> !grown[j].SessionStarted?;
  }

  /** Adding justified events that start no session keeps a state grounded. */
  lemma ExtendGrounded(s: State, tables: Tables, more: seq<Event>, id: Identity)
    requires Grounded(s, id) && Stored(tables, id)
    requires forall n :: |s.trace| <= n < |s.trace + more| ==>
                           !(s.trace + more)[n].SessionStarted? && Justified(s.trace + more, n, id)
    ensures Grounded(s.(tables := tables, trace := s.trace + more), id)
  {
    var grown := s.trace + more;
    forall n | 0 <= n < |grown| ensures Justified(grown, n, id) {
      if n < |s.trace| {
        assert Justified(s.trace, n, id);
        if s.trace[n].GivenToRuntime? {
          OpenedStays(s.trace, more, n, s.trace[n].signed.config.version);
        }
      }
    }
    forall j | 0 <= j < |more| ensures !more[j].SessionStarted? {
      assert grown[|s.trace| + j] == more[j];
    }
    forall v | v in s.bundles ensures OpenedEarlier(grown, |grown|, v) {
      OpenedStays(s.trace, more, |s.trace|, v);
    }
  }

  lemma ExtendWithStart(s: State, tables: Tables, id: Identity)
    requires Grounded(s, id) && Stored(tables, id)
    ensures Grounded(State(tables, {}, s.trace + [SessionStarted]), id)
  {
    var grown := s.trace + [SessionStarted];
    forall n | 0 <= n < |grown| ensures Justified(grown, n, id) {
      if n < |s.trace| {
        assert Justified(s.trace, n, id);
        if s.trace[n].GivenToRuntime? {
          OpenedStays(s.trace, [SessionStarted], n, s.trace[n].signed.config.version);
        }
      }
    }
  }

  lemma GivenJustified(s: State, signed: SignedConfig, more: seq<Event>, id: Identity)
    requires Grounded(s, id) && Admitted(s, signed, id) && more != [] && more[0] == GivenToRuntime(signed)
    ensures Justified(s.trace + more, |s.trace|, id)
  {
    OpenedStays(s.trace, more, |s.trace|, signed.config.version);
    assert (s.trace + more)[|s.trace|] == GivenToRuntime(signed);
  }

  /** The tables after a desired configuration, and what it adds to the trace. */
  function TablesAfter(t: Tables, signed: SignedConfig, o: Outcome): Tables {
    var saved := Step(t, Save(signed, o.saveFails));
    if SaveOutcome(t, signed, o.saveFails) == Saved(true) && o.runtimeAccepts
    then Step(saved, Mark(signed.config.version, signed.sha256, o.markFails, o.cleanupFails)) else saved
  }

  function Said(t: Tables, signed: SignedConfig, o: Outcome): seq<Event> {
    var toApply := SaveOutcome(t, signed, o.saveFails) == Saved(true);
    var after := TablesAfter(t, signed, o);
    var report := [Reported(signed.config.version, signed.sha256, !toApply || o.runtimeAccepts,
                            after.appliedVersion, after.appliedHash)];
    var marked := MarkSucceeds(Step(t, Save(signed, o.saveFails)), signed.config.version, signed.sha256, o.markFails);
    if SaveOutcome(t, signed, o.saveFails).SaveError? then []
    else
      (if toApply then [GivenToRuntime(signed)] else []) +
      (if o.sendFails || (toApply && o.runtimeAccepts && !marked) then [] else report)
  }

  lemma DesiredSays(s: State, signed: SignedConfig, o: Outcome)
    ensures AfterSave(s, signed, o)
            == s.(tables := TablesAfter(s.tables, signed, o), trace := s.trace + Said(s.tables, signed, o))
  {
    assert s.trace + [] == s.trace;
  }

  lemma SaidShape(t: Tables, signed: SignedConfig, o: Outcome)
    ensures var more := Said(t, signed, o);
            forall j :: 0 <= j < |more| ==> more[j].Reported? || (j == 0 && more[j] == GivenToRuntime(signed))
  {}

  lemma DesiredLeavesStored(t: Tables, signed: SignedConfig, o: Outcome, id: Identity)
    requires Stored(t, id) && Verified(signed, id) && Addressed(signed, id)
    ensures Stored(TablesAfter(t, signed, o), id)
  {
    var saved := Step(t, Save(signed, o.saveFails));
    StepKeepsAppliedRow(t, Save(signed, o.saveFails));
    StepKeepsAppliedRow(saved, Mark(signed.config.version, signed.sha256, o.markFails, o.cleanupFails));
  }

  lemma DesiredGrounded(s: State, signed: SignedConfig, o: Outcome, id: Identity)
    requires Grounded(s, id) && Admitted(s, signed, id)
    ensures Grounded(AfterSave(s, signed, o), id)
  {
    var more := Said(s.tables, signed, o);
    DesiredSays(s, signed, o);
    DesiredLeavesStored(s.tables, signed, o, id);
    SaidShape(s.tables, signed, o);
    MoreGrounded(s, TablesAfter(s.tables, signed, o), signed, more, id);
  }

  lemma MoreGrounded(s: State, tables: Tables, signed: SignedConfig, more: seq<Event>, id: Identity)
    requires Grounded(s, id) && Stored(tables, id) && Admitted(s, signed, id)
    requires forall j :: 0 <= j < |more| ==> more[j].Reported? || (j == 0 && more[j] == GivenToRuntime(signed))
    ensures Grounded(s.(tables := tables, trace := s.trace + more), id)
  {
    if more != [] && more[0] == GivenToRuntime(signed) {
      GivenJustified(s, signed, more, id);
    }
    var grown := s.trace + more;
    forall n | |s.trace| <= n < |grown| ensures !grown[n].SessionStarted? && Justified(grown, n, id) {
      assert grown[n] == more[n - |s.trace|];
    }
    ExtendGrounded(s, tables, more, id);
  }

  lemma HandleGrounded(s: State, m: Message, id: Identity)
    requires Grounded(s, id)
    ensures Grounded(Handle(s, m, id), id)
  {
    match m
    case Connect =>
      ExtendWithStart(s, s.tables, id);
    case SecretBundle(node, version, opens) =>
      if node == id.agentNodeId && opens {
        var more := [BundleOpened(version)];
        assert (s.trace + more)[|s.trace|] == BundleOpened(version);
        ExtendGrounded(s, s.tables, more, id);
      }
    case Desired(signed, o) =>
      if Admitted(s, signed, id) {
        DesiredGrounded(s, signed, o, id);
      }
    case Restart(resetFails) =>
      StepKeepsAppliedRow(s.tables, Reset(resetFails));
      ExtendWithStart(s, Step(s.tables, Reset(resetFails)), id);
  }

  /**
   In every run of sessions and restarts, whatever fails: every configuration given to the runtime was verified,
   addressed to this agent and key, and preceded in the same session by the opening of its secret bundle.
   */
  lemma {:induction false} EveryRunGrounded(s: State, messages: seq<Message>, id: Identity)
    requires Grounded(s, id)
    ensures Grounded(Run(s, messages, id), id)
  {
    if messages != [] {
      EveryRunGrounded(s, messages[..|messages| - 1], id);
      HandleGrounded(Run(s, messages[..|messages| - 1], id), messages[|messages| - 1], id);
    }
  }

  /** The revision is new to the tables: newer than the applied one, its hash unused, or received before. */
  predicate NewToTables(t: Tables, signed: SignedConfig) {
    var v := signed.config.version;
    v <= MAX_INT64 &&
    if v in t.rows then t.rows[v].signed.sha256 == signed.sha256 && t.rows[v].status == Received
    else v > t.appliedVersion && forall w :: w in t.rows ==> t.rows[w].signed.sha256 != signed.sha256
  }

  /**
   From any state a run reaches, whatever other rows there are: the bundle and the delivery of a revision new to the
   tables, with nothing failing, end with it given to the runtime, durably applied, and reported as a success.
   */
  lemma DeliveryApplies(s: State, signed: SignedConfig, id: Identity)
    requires Verified(signed, id) && Addressed(signed, id) && NewToTables(s.tables, signed)
    ensures var v, h := signed.config.version, signed.sha256;
            var s' := Run(s, [SecretBundle(id.agentNodeId, v, true), Desired(signed, WELL)], id);
            && s'.tables.appliedVersion == v && s'.tables.appliedHash == h
            && s'.trace == s.trace + [BundleOpened(v), GivenToRuntime(signed), Reported(v, h, true, v, h)]
  {
    var v := signed.config.version;
    var bundle, delivery := SecretBundle(id.agentNodeId, v, true), Desired(signed, WELL);
    BundleThen(s, bundle, delivery, id);
    SavesExactly(s.tables, signed, false);
    DesiredSays(Handle(s, bundle, id), signed, WELL);
    NewIsApplied(s.tables, signed);
  }

  lemma NewIsApplied(t: Tables, signed: SignedConfig)
    requires SaveOutcome(t, signed, false) == Saved(true)
    ensures var v, h, t' := signed.config.version, signed.sha256, TablesAfter(t, signed, WELL);
            && t'.appliedVersion == v && t'.appliedHash == h
            && Said(t, signed, WELL) == [GivenToRuntime(signed), Reported(v, h, true, v, h)]
  {}

  /** If the runtime rejects it, that is reported, the revision stays received, and what is applied stays applied. */
  lemma RejectionIsReported(s: State, signed: SignedConfig, id: Identity)
    requires Verified(signed, id) && Addressed(signed, id) && NewToTables(s.tables, signed)
    ensures var v, h := signed.config.version, signed.sha256;
            var rejecting := WELL.(runtimeAccepts := false);
            var s' := Run(s, [SecretBundle(id.agentNodeId, v, true), Desired(signed, rejecting)], id);
            && s'.tables.appliedVersion == s.tables.appliedVersion && s'.tables.appliedHash == s.tables.appliedHash
            && v in s'.tables.rows && s'.tables.rows[v].status == Received && s'.tables.rows[v].signed.sha256 == h
            && s'.trace == s.trace + [BundleOpened(v), GivenToRuntime(signed),
                                      Reported(v, h, false, s.tables.appliedVersion, s.tables.appliedHash)]
  {
    var v := signed.config.version;
    var bundle, delivery := SecretBundle(id.agentNodeId, v, true), Desired(signed, WELL.(runtimeAccepts := false));
    BundleThen(s, bundle, delivery, id);
    SavesExactly(s.tables, signed, false);
    SaveStores(s.tables, signed, false);
    DesiredSays(Handle(s, bundle, id), signed, WELL.(runtimeAccepts := false));
    var said := Said(s.tables, signed, WELL.(runtimeAccepts := false));
    assert said == [GivenToRuntime(signed),
                    Reported(v, signed.sha256, false, s.tables.appliedVersion, s.tables.appliedHash)];
  }

  lemma BundleThen(s: State, bundle: Message, m: Message, id: Identity)
    ensures Run(s, [bundle, m], id) == Handle(Handle(s, bundle, id), m, id)
  {
    assert [bundle, m][..1] == [bundle] && [bundle][..0] == [];
    assert Run(s, [bundle], id) == Handle(Run(s, [], id), bundle, id);
  }

  // ----- When reports are true

  /** The message has a revision marked, and the clean-up fails although there are rows to delete. */
  ghost predicate LeavesRows(s: State, m: Message, id: Identity) {
    && m.Desired? && Admitted(s, m.signed, id) && SaveOutcome(s.tables, m.signed, m.outcome.saveFails) == Saved(true)
    && m.outcome.runtimeAccepts && !m.outcome.markFails && m.outcome.cleanupFails
    && exists v :: v in s.tables.rows && v != m.signed.config.version
                   && !(s.tables.rows[v].status == Received && v > m.signed.config.version)
  }

  /** One step takes consistent tables to inconsistent ones exactly when it leaves rows behind. */
  lemma HandleConsistentExactly(s: State, m: Message, id: Identity)
    requires Consistent(s.tables)
    ensures Consistent(Handle(s, m, id).tables) <==> !LeavesRows(s, m, id)
  {
    match m
    case Connect =>
    case SecretBundle(_, _, _) =>
    case Restart(resetFails) =>
      StepKeepsConsistent(s.tables, Reset(resetFails));
    case Desired(signed, o) =>
      if Admitted(s, signed, id) {
        DesiredConsistentExactly(s, signed, o, id);
      }
  }

  lemma DesiredConsistentExactly(s: State, signed: SignedConfig, o: Outcome, id: Identity)
    requires Consistent(s.tables) && Admitted(s, signed, id)
    ensures Consistent(AfterSave(s, signed, o).tables) <==> !LeavesRows(s, Desired(signed, o), id)
  {
    var v, h := signed.config.version, signed.sha256;
    var saved := Step(s.tables, Save(signed, o.saveFails));
    StepKeepsConsistent(s.tables, Save(signed, o.saveFails));
    assert AfterSave(s, signed, o).tables == TablesAfter(s.tables, signed, o);
    if SaveOutcome(s.tables, signed, o.saveFails) == Saved(true) && o.runtimeAccepts && !o.markFails {
      assert MarkSucceeds(saved, v, h, false);
      if o.cleanupFails {
        FailedCleanupMattersExactly(saved, v, h);
        assert forall w :: w in s.tables.rows ==> w in saved.rows && saved.rows[w] == s.tables.rows[w];
        assert forall w :: w in saved.rows && w != v ==> w in s.tables.rows;
      } else {
        StepKeepsConsistent(saved, Mark(v, h, false, false));
      }
    }
  }

  lemma HandleTruthful(s: State, m: Message, id: Identity)
    requires Stored(s.tables, id) && OnlyApplied(s.tables) && Truthful(s.trace)
    ensures Truthful(Handle(s, m, id).trace)
  {
    NothingToDoMeansAppliedExactly(s.tables);
  }

  /** No message of the run leaves rows behind. */
  ghost predicate LeavesNothing(s: State, messages: seq<Message>, id: Identity) {
    messages == [] ||
    var n := |messages| - 1;
    LeavesNothing(s, messages[..n], id) && !LeavesRows(Run(s, messages[..n], id), messages[n], id)
  }

  /** A run in which no clean-up fails with rows to delete: every reported success is true. */
  lemma {:induction false} EveryRunSound(s: State, messages: seq<Message>, id: Identity)
    requires Grounded(s, id) && Consistent(s.tables) && Truthful(s.trace)
    requires LeavesNothing(s, messages, id)
    ensures var r := Run(s, messages, id); Grounded(r, id) && Consistent(r.tables) && Truthful(r.trace)
  {
    if messages != [] {
      var n := |messages| - 1;
      EveryRunSound(s, messages[..n], id);
      HandleGrounded(Run(s, messages[..n], id), messages[n], id);
      HandleConsistentExactly(Run(s, messages[..n], id), messages[n], id);
      HandleTruthful(Run(s, messages[..n], id), messages[n], id);
    }
  }

  predicate CleanupsWork(messages: seq<Message>) {
    forall n :: 0 <= n < |messages| ==> messages[n].Desired? ==> !messages[n].outcome.cleanupFails
  }

  lemma {:induction false} WorkingLeavesNothing(s: State, messages: seq<Message>, id: Identity)
    requires CleanupsWork(messages)
    ensures LeavesNothing(s, messages, id)
  {
    if messages != [] {
      WorkingLeavesNothing(s, messages[..|messages| - 1], id);
    }
  }

  /**
   From any state a run can reach: reports stay true in every continuation, even with every later clean-up working,
   exactly when there is no other applied row and every received row is newer than the applied version.
   */
  lemma ReportsStayTrueExactly(s: State, id: Identity)
    requires Grounded(s, id)
    ensures (forall more :: CleanupsWork(more) ==> Truthful(Run(s, more, id).trace)) <==>
              Truthful(s.trace) && Consistent(s.tables)
  {
    if Truthful(s.trace) && Consistent(s.tables) {
      forall more | CleanupsWork(more) ensures Truthful(Run(s, more, id).trace) {
        WorkingLeavesNothing(s, more, id);
        EveryRunSound(s, more, id);
      }
    } else if Truthful(s.trace) {
      var v :| v in s.tables.rows && if s.tables.rows[v].status == Applied then v != s.tables.appliedVersion
          else v <= s.tables.appliedVersion;
      if s.tables.rows[v].status == Applied {
        var more := RepeatMisreports(s, v, id);
      } else {
        var more := OlderRowMisreports(s, v, id);
      }
    } else {
      assert CleanupsWork([]) && Run(s, [], id) == s;
    }
  }

  /** The same for the first clean-up of a run that fails. */
  lemma FirstFailedCleanupExactly(messages: seq<Message>, m: Message, id: Identity)
    requires LeavesNothing(START, messages, id)
    ensures (forall more :: CleanupsWork(more) ==> Truthful(Run(Run(START, messages + [m], id), more, id).trace))
       <==> !LeavesRows(Run(START, messages, id), m, id)
  {
    var before := Run(START, messages, id);
    EveryRunSound(START, messages, id);
    HandleGrounded(before, m, id);
    HandleConsistentExactly(before, m, id);
    HandleTruthful(before, m, id);
    RunOneMore(START, messages, m, id);
    ReportsStayTrueExactly(Handle(before, m, id), id);
  }

  lemma RunOneMore(s: State, messages: seq<Message>, m: Message, id: Identity)
    ensures Run(s, messages + [m], id) == Handle(Run(s, messages, id), m, id)
  {
    assert (messages + [m])[..|messages|] == messages;
  }

  const WELL := Outcome(false, true, false, false, false)

  /** A row left applied: its revision delivered again is reported at once. */
  lemma RepeatMisreports(s: State, v: nat, id: Identity) returns (more: seq<Message>)
    requires Grounded(s, id) && v in s.tables.rows && s.tables.rows[v].status == Applied && v != s.tables.appliedVersion
    ensures CleanupsWork(more) && !Truthful(Run(s, more, id).trace)
  {
    var signed := s.tables.rows[v].signed;
    var bundle, again := SecretBundle(id.agentNodeId, v, true), Desired(signed, WELL);
    more := [bundle] + [again];
    RunOneMore(s, [], bundle, id);
    RunOneMore(s, [bundle], again, id);
    var ready := Handle(s, bundle, id);
    assert [] + [bundle] == [bundle] && Run(s, [bundle], id) == ready;
    var last := Handle(ready, again, id);
    assert last.trace == ready.trace
        + [Reported(v, signed.sha256, true, s.tables.appliedVersion, s.tables.appliedHash)];
    assert !IsTrue(last.trace[|ready.trace|]);
  }

  /**
   An older received row left behind: its revision is applied again, and then the newer row is the one left applied.
   */
  lemma OlderRowMisreports(s: State, v: nat, id: Identity) returns (more: seq<Message>)
    requires Grounded(s, id) && v in s.tables.rows && s.tables.rows[v].status == Received
             && v <= s.tables.appliedVersion
    ensures CleanupsWork(more) && !Truthful(Run(s, more, id).trace)
  {
    var signed, a := s.tables.rows[v].signed, s.tables.appliedVersion;
    var bundle, older := SecretBundle(id.agentNodeId, v, true), Desired(signed, WELL);
    RunOneMore(s, [], bundle, id);
    RunOneMore(s, [bundle], older, id);
    var ready := Handle(s, bundle, id);
    assert [] + [bundle] == [bundle] && Run(s, [bundle], id) == ready;
    var marked := Handle(ready, older, id);
    HandleGrounded(s, bundle, id);
    HandleGrounded(ready, older, id);
    assert a in marked.tables.rows && marked.tables.rows[a].status == Applied && marked.tables.appliedVersion == v;
    var rest := RepeatMisreports(marked, a, id);
    more := [bundle, older] + rest;
    assert [bundle] + [older] == [bundle, older];
    RunInTwo(s, [bundle, older], rest, id);
  }

  lemma {:induction false} RunInTwo(s: State, xs: seq<Message>, ys: seq<Message>, id: Identity)
    ensures Run(s, xs + ys, id) == Run(Run(s, xs, id), ys, id)
  {
    if ys == [] {
      assert xs + ys == xs;
    } else {
      var n := |ys| - 1;
      RunInTwo(s, xs, ys[..n], id);
      RunOneMore(s, xs + ys[..n], ys[n], id);
      assert xs + ys == xs + ys[..n] + [ys[n]];
    }
  }

  /** A whole run that reports a success for a revision that is not applied, after one failed clean-up. */
  lemma FailedCleanupMisreports(first: SignedConfig, second: SignedConfig, id: Identity)
    requires Verified(first, id) && Addressed(first, id) && Verified(second, id) && Addressed(second, id)
    requires 0 < first.config.version < second.config.version <= MAX_INT64 && first.sha256 != second.sha256
    ensures var v, w := first.config.version, second.config.version;
            var run := Run(START, [SecretBundle(id.agentNodeId, v, true), SecretBundle(id.agentNodeId, w, true),
                                   Desired(first, WELL),
                                   Desired(second, WELL.(cleanupFails := true)), Desired(first, WELL)], id);
            && run.tables.appliedVersion == w
            && run.trace != [] && run.trace[|run.trace| - 1] == Reported(v, first.sha256, true, w, second.sha256)
  {
    var v, w := first.config.version, second.config.version;
    var a, b := SecretBundle(id.agentNodeId, v, true), SecretBundle(id.agentNodeId, w, true);
    var c, d := Desired(first, WELL), Desired(second, WELL.(cleanupFails := true));
    var s2 := State(EMPTY, {v, w}, [BundleOpened(v), BundleOpened(w)]);
    var s3, s4 := Handle(s2, c, id), Handle(Handle(s2, c, id), d, id);
    TwoBundles(a, b, id);
    FirstApplied(s2, first);
    SecondLeavesFirst(s3, first, second);
    RunOneMore(START, [a, b], c, id);
    RunOneMore(START, [a, b, c], d, id);
    RunOneMore(START, [a, b, c, d], c, id);
    assert [a, b] + [c] == [a, b, c] && [a, b, c] + [d] == [a, b, c, d] && [a, b, c, d] + [c] == [a, b, c, d, c];
  }

  lemma FirstApplied(s: State, signed: SignedConfig)
    requires s.tables == EMPTY && 0 < signed.config.version <= MAX_INT64
    ensures AfterSave(s, signed, WELL).tables
            == Tables(map[signed.config.version := Revision(signed, Applied)], signed.config.version, signed.sha256, 0)
  {}

  lemma SecondLeavesFirst(s: State, first: SignedConfig, second: SignedConfig)
    requires 0 < first.config.version < second.config.version <= MAX_INT64 && first.sha256 != second.sha256
    requires s.tables == Tables(map[first.config.version := Revision(first, Applied)], first.config.version,
                                first.sha256, 0)
    ensures AfterSave(s, second, WELL.(cleanupFails := true)).tables
         == Tables(map[first.config.version := Revision(first, Applied),
                       second.config.version := Revision(second, Applied)],
                   second.config.version, second.sha256, 0)
  {}

  lemma TwoBundles(a: Message, b: Message, id: Identity)
    requires a.SecretBundle? && b.SecretBundle? && a.agentNodeId == b.agentNodeId == id.agentNodeId && a.opens
             && b.opens
    ensures Run(START, [a, b], id)
            == State(EMPTY, {a.version, b.version}, [BundleOpened(a.version), BundleOpened(b.version)])
  {
    RunOneMore(START, [], a, id);
    RunOneMore(START, [a], b, id);
    assert [] + [a] == [a] && [a] + [b] == [a, b];
  }

  // ----- The client

  class Client {
    const id: Identity
    const store: ConfigStore
    var secretVersions: set<nat>
    ghost var trace: seq<Event>

    ghost function Model(): State
      reads this, store
    {
      State(store.Model(), secretVersions, trace)
    }

    constructor (id: Identity, store: ConfigStore)
      ensures this.id == id && this.store == store && Model() == State(store.Model(), {}, [])
    {
      this.id, this.store, secretVersions, trace := id, store, {}, [];
    }

    method ApplySecretEnvelope(agentNodeId: int, version: nat, opens: bool) returns (ok: bool)
      modifies this
      ensures ok == (agentNodeId == id.agentNodeId && opens)
      ensures Model() == Handle(old(Model()), SecretBundle(agentNodeId, version, opens), id)
    {
      if agentNodeId != id.agentNodeId || !opens {
        return false;
      }
      secretVersions, trace := secretVersions + {version}, trace + [BundleOpened(version)];
      return true;
    }

    method Verify(signed: SignedConfig) returns (ok: bool)
      ensures ok <==> Verified(signed, id)
      ensures ok <==> && Accepted(signed.config, id.parsing) && signed.sha256 == id.digest(signed.config)
                      && id.signatureValid(signed.config, signed.signature)
    {
      ok := ValidateDesiredConfig(signed.config, id.parsing);
      ok := ok && signed.sha256 == id.digest(signed.config) && id.signatureValid(signed.config, signed.signature);
    }

    method Send(signed: SignedConfig, succeeded: bool, fails: bool)
      modifies this
      ensures Model() == Report(old(Model()), signed, succeeded, fails)
    {
      if !fails {
        trace := trace + [Reported(signed.config.version, signed.sha256, succeeded, store.appliedVersion,
                                   store.appliedHash)];
      }
    }

    method ApplyDesiredConfig(signed: SignedConfig, o: Outcome)
      modifies this, store
      ensures Model() == Handle(old(Model()), Desired(signed, o), id)
    {
      if !Addressed(signed, id) {
        return;
      }
      var verified := Verify(signed);
      if !verified || signed.config.version !in secretVersions {
        return;
      }
      var saved := store.SaveDesiredConfig(signed, o.saveFails);
      if saved.SaveError? {
        return;
      }
      if saved.toApply {
        trace := trace + [GivenToRuntime(signed)];
        if !o.runtimeAccepts {
          Send(signed, false, o.sendFails);
          return;
        }
        var marked := store.MarkConfigApplied(signed.config.version, signed.sha256, o.markFails, o.cleanupFails);
        if !marked {
          return;
        }
      }
      Send(signed, true, o.sendFails);
    }
  }
}
