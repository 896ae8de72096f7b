/**
 The revision tables of the state database: configurations are saved as received, marked applied once the
 runtime runs them, and put back to received when a restart could not restore them.
 */
module ConfigRevisions {
  import opened Text
  import opened DesiredConfig

  datatype Status = Received | Applied

  datatype Revision = Revision(signed: SignedConfig, status: Status)

  /** config_revisions by version, and the applied_* entries of meta. */
  datatype Tables = Tables(rows: map<nat, Revision>, appliedVersion: nat, appliedHash: string, appliedUsers: nat)

  const EMPTY := Tables(map[], 0, "", 0)

  datatype SaveResult = SaveError | Saved(toApply: bool)

  /** `fails` is a database error; `cleanupFails` is one in the clean-up delete, which the code ignores. */
  datatype Op =
    | Save(signed: SignedConfig, fails: bool)
    | Mark(version: nat, hash: string, fails: bool, cleanupFails: bool)
    | Reset(fails: bool)

  predicate HashTaken(s: Tables, hash: string) {
    exists v :: v in s.rows && s.rows[v].signed.sha256 == hash
  }

  function SaveOutcome(s: Tables, signed: SignedConfig, fails: bool): SaveResult {
    var v := signed.config.version;
    if fails || v > MAX_INT64 then SaveError
    else if v in s.rows then (if s.rows[v].signed.sha256 != signed.sha256 then SaveError
                              else Saved(s.rows[v].status != Applied))
    else if v <= s.appliedVersion || HashTaken(s, signed.sha256) then SaveError
    else Saved(true)
  }

  predicate MarkSucceeds(s: Tables, version: nat, hash: string, fails: bool) {
    !fails && version in s.rows && s.rows[version].signed.sha256 == hash
  }

  function AfterMark(s: Tables, version: nat, hash: string, cleanupFails: bool): Tables
    requires version in s.rows
  {
    var rows := s.rows[version := s.rows[version].(status := Applied)];
    var kept := if cleanupFails then rows
                else map v | v in rows && rows[v].status == Applied && v >= version :: rows[v];
    s.(rows := kept, appliedVersion := version, appliedHash := hash)
  }

  function AfterReset(s: Tables): Tables {
    var rows := if s.appliedVersion > 0 && s.appliedVersion in s.rows
                then s.rows[s.appliedVersion := s.rows[s.appliedVersion].(status := Received)] else s.rows;
    Tables(rows, 0, "", 0)
  }

  function Step(s: Tables, op: Op): Tables {
    match op
    case Save(signed, fails) =>
      if SaveOutcome(s, signed, fails) == Saved(true) && signed.config.version !in s.rows
      then s.(rows := s.rows[signed.config.version := Revision(signed, Received)]) else s
    case Mark(version, hash, fails, cleanupFails) =>
      if MarkSucceeds(s, version, hash, fails) then AfterMark(s, version, hash, cleanupFails) else s
    case Reset(fails) => if fails then s else AfterReset(s)
  }

  /**
   What a save answers: there is something to apply for a row not yet applied, and for a version newer than the applied
   one with an unused hash, whatever other rows there are; nothing to do for an applied row; an error otherwise.
   */
  lemma SavesExactly(s: Tables, signed: SignedConfig, fails: bool)
    ensures var v := signed.config.version;
            var storable := !fails && v <= MAX_INT64;
            var known := v in s.rows && s.rows[v].signed.sha256 == signed.sha256;
            && (SaveOutcome(s, signed, fails) == Saved(false) <==> storable && known && s.rows[v].status == Applied)
            && (SaveOutcome(s, signed, fails) == Saved(true) <==>
                && storable
                && ((known && s.rows[v].status == Received)
                    || (v !in s.rows && v > s.appliedVersion
                        && forall w :: w in s.rows ==> s.rows[w].signed.sha256 != signed.sha256)))
  {}

  /** A newer version is stored as received beside the rows already there, and only then. */
  lemma SaveStores(s: Tables, signed: SignedConfig, fails: bool)
    ensures var v, s' := signed.config.version, Step(s, Save(signed, fails));
            if SaveOutcome(s, signed, fails) == Saved(true) && v !in s.rows
            then s' == s.(rows := s'.rows) && v in s'.rows && s'.rows[v] == Revision(signed, Received)
                 && s'.rows.Keys == s.rows.Keys + {v} && forall w :: w in s.rows ==> s'.rows[w] == s.rows[w]
            else s' == s
  {}

  /**
   Marking needs the row with that hash; it becomes the applied one, and only applied rows that are newer stay beside
   it.
   */
  lemma MarkAppliesExactly(s: Tables, version: nat, hash: string, fails: bool)
    ensures MarkSucceeds(s, version, hash, fails) <==>
              !fails && version in s.rows && s.rows[version].signed.sha256 == hash
    ensures MarkSucceeds(s, version, hash, fails) ==>
              var s' := Step(s, Mark(version, hash, fails, false));
              && s'.appliedVersion == version && s'.appliedHash == hash && s'.appliedUsers == s.appliedUsers
              && version in s'.rows && s'.rows[version] == Revision(s.rows[version].signed, Applied)
              && forall w :: w != version ==>
                   && (w in s'.rows <==> w in s.rows && s.rows[w].status == Applied && w > version)
                   && (w in s'.rows ==> s'.rows[w] == s.rows[w])
    ensures !MarkSucceeds(s, version, hash, fails) ==> Step(s, Mark(version, hash, fails, false)) == s
  {}

  /** A reset forgets what is applied and lets its revision be applied again; other rows stay as they are. */
  lemma ResetForgets(s: Tables)
    ensures var s' := Step(s, Reset(false));
            && s'.appliedVersion == 0 && s'.appliedHash == "" && s'.appliedUsers == 0 && s'.rows.Keys == s.rows.Keys
            && forall w :: w in s.rows ==>
                 s'.rows[w] == if w == s.appliedVersion > 0 then Revision(s.rows[w].signed, Received) else s.rows[w]
    ensures Step(s, Reset(true)) == s
  {}

  // ----- Invariants

  ghost predicate Filed(s: Tables) {
    forall v :: v in s.rows ==> 0 < v <= MAX_INT64 && s.rows[v].signed.config.version == v
  }

  /** The applied version is 0, or its row is there, applied, and carries the applied hash. */
  ghost predicate AppliedRowThere(s: Tables) {
    if s.appliedVersion == 0 then s.appliedHash == ""
    else
      && s.appliedVersion in s.rows && s.rows[s.appliedVersion].status == Applied
      && s.rows[s.appliedVersion].signed.sha256 == s.appliedHash
  }

  /** No other row is applied, and every received row is newer than the applied version. */
  ghost predicate OthersAreNewer(s: Tables) {
    forall v :: v in s.rows ==> if s.rows[v].status == Applied then v == s.appliedVersion else v > s.appliedVersion
  }

  ghost predicate OnlyApplied(s: Tables) {
    forall v :: v in s.rows && s.rows[v].status == Applied ==> v == s.appliedVersion
  }

  ghost predicate Consistent(s: Tables) {
    Filed(s) && AppliedRowThere(s) && OthersAreNewer(s)
  }

  /** Whatever fails, clean-up included, the applied row is there. */
  lemma StepKeepsAppliedRow(s: Tables, op: Op)
    requires Filed(s) && AppliedRowThere(s)
    ensures Filed(Step(s, op)) && AppliedRowThere(Step(s, op))
  {}

  lemma StepKeepsConsistent(s: Tables, op: Op)
    requires Consistent(s) && (op.Mark? ==> !op.cleanupFails)
    ensures Consistent(Step(s, op))
  {
    StepKeepsAppliedRow(s, op);
  }

  /** When the ignored clean-up error matters: exactly if some other row should have been deleted. */
  lemma FailedCleanupMattersExactly(s: Tables, version: nat, hash: string)
    requires Consistent(s) && MarkSucceeds(s, version, hash, false)
    ensures Consistent(AfterMark(s, version, hash, true)) <==>
              forall v :: v in s.rows && v != version ==> s.rows[v].status == Received && v > version
  {
    var t := AfterMark(s, version, hash, true);
    StepKeepsAppliedRow(s, Mark(version, hash, false, true));
    if Consistent(t) {
      forall v | v in s.rows && v != version ensures s.rows[v].status == Received && v > version {
        assert v in t.rows && t.rows[v] == s.rows[v];
      }
    }
  }

  /** A save answers that there is nothing to do only for the applied revision exactly when no other row is applied. */
  lemma NothingToDoMeansAppliedExactly(s: Tables)
    requires Filed(s) && AppliedRowThere(s)
    ensures OnlyApplied(s) <==>
              forall signed :: SaveOutcome(s, signed, false) == Saved(false) ==>
                  signed.config.version == s.appliedVersion && signed.sha256 == s.appliedHash
  {
    if forall signed :: SaveOutcome(s, signed, false) == Saved(false) ==>
                          signed.config.version == s.appliedVersion && signed.sha256 == s.appliedHash {
      forall v | v in s.rows && s.rows[v].status == Applied ensures v == s.appliedVersion {
        assert SaveOutcome(s, s.rows[v].signed, false) == Saved(false);
      }
    }
  }

  function RunFrom(s: Tables, ops: seq<Op>): Tables {
    if ops == [] then s else Step(RunFrom(s, ops[..|ops| - 1]), ops[|ops| - 1])
  }

  ghost predicate CleanupWorks(ops: seq<Op>) {
    forall n :: 0 <= n < |ops| ==> ops[n].Mark? ==> !ops[n].cleanupFails
  }

  ghost predicate NoResets(ops: seq<Op>) {
    forall n :: 0 <= n < |ops| ==> !ops[n].Reset?
  }

  lemma {:induction false} RunKeepsConsistent(s: Tables, ops: seq<Op>)
    requires Filed(s) && AppliedRowThere(s)
    ensures Filed(RunFrom(s, ops)) && AppliedRowThere(RunFrom(s, ops))
    ensures Consistent(s) && CleanupWorks(ops) ==> Consistent(RunFrom(s, ops))
    ensures Consistent(s) && CleanupWorks(ops) && NoResets(ops) ==> RunFrom(s, ops).appliedVersion >= s.appliedVersion
  {
    if ops != [] {
      var n := |ops| - 1;
      RunKeepsConsistent(s, ops[..n]);
      StepKeepsAppliedRow(RunFrom(s, ops[..n]), ops[n]);
      if Consistent(s) && CleanupWorks(ops) {
        StepKeepsConsistent(RunFrom(s, ops[..n]), ops[n]);
      }
    }
  }

  /**
   Over every sequence of saves, marks and resets, with transactions failing at will: the row of a nonzero applied
   version is there and carries the applied hash, it is the only applied row, and every received row is newer.
   */
  lemma EveryRunConsistent(ops: seq<Op>, v: nat)
    ensures var s := RunFrom(EMPTY, ops);
            && AppliedRowThere(s)
            && (CleanupWorks(ops) ==>
                && (v in s.rows && s.rows[v].status == Applied <==> v == s.appliedVersion && s.appliedVersion > 0)
                && (v in s.rows && s.rows[v].status == Received ==> v > s.appliedVersion))
  {
    RunKeepsConsistent(EMPTY, ops);
  }

  /**
   Between resets: whatever happens after a save said a revision is still to apply, marking that revision
   raises the applied version above the one the save saw, and never lowers it.
   */
  lemma MarkAfterSaveRaises(s: Tables, signed: SignedConfig, between: seq<Op>)
    requires Consistent(s) && SaveOutcome(s, signed, false) == Saved(true)
    requires NoResets(between) && CleanupWorks(between)
    requires MarkSucceeds(RunFrom(Step(s, Save(signed, false)), between), signed.config.version, signed.sha256, false)
    ensures var later := RunFrom(Step(s, Save(signed, false)), between);
            var marked := AfterMark(later, signed.config.version, signed.sha256, false);
            marked.appliedVersion == signed.config.version > s.appliedVersion
                && marked.appliedVersion >= later.appliedVersion
  {
    var saved := Step(s, Save(signed, false));
    StepKeepsConsistent(s, Save(signed, false));
    RunKeepsConsistent(saved, between);
  }

  // ----- The store

  class ConfigStore {
    var rows: map<nat, Revision>
    var appliedVersion: nat
    var appliedHash: string
    var appliedUsers: nat

    ghost function Model(): Tables
      reads this
    {
      Tables(rows, appliedVersion, appliedHash, appliedUsers)
    }

    constructor ()
      ensures Model() == EMPTY
    {
      rows, appliedVersion, appliedHash, appliedUsers := map[], 0, "", 0;
    }

    method SaveDesiredConfig(signed: SignedConfig, fails: bool) returns (r: SaveResult)
      modifies this`rows
      ensures r == SaveOutcome(old(Model()), signed, fails) && Model() == Step(old(Model()), Save(signed, fails))
    {
      var version := signed.config.version;
      if fails || version > MAX_INT64 {
        return SaveError;
      }
      if version in rows {
        return if rows[version].signed.sha256 != signed.sha256 then SaveError
            else Saved(rows[version].status != Applied);
      }
      if version <= appliedVersion {
        return SaveError;
      }
      if exists v :: v in rows && rows[v].signed.sha256 == signed.sha256 {
        return SaveError;
      }
      rows := rows[version := Revision(signed, Received)];
      return Saved(true);
    }

    method MarkConfigApplied(version: nat, hash: string, fails: bool, cleanupFails: bool) returns (ok: bool)
      modifies this
      ensures ok == MarkSucceeds(old(Model()), version, hash, fails)
      ensures Model() == Step(old(Model()), Mark(version, hash, fails, cleanupFails))
    {
      if fails || version !in rows || rows[version].signed.sha256 != hash {
        return false;
      }
      rows := rows[version := rows[version].(status := Applied)];
      appliedVersion, appliedHash := version, hash;
      if !cleanupFails {
        rows := map v | v in rows && rows[v].status == Applied && v >= version :: rows[v];
      }
      return true;
    }

    method ResetAppliedRuntime(fails: bool)
      modifies this
      ensures Model() == Step(old(Model()), Reset(fails))
    {
      if fails {
        return;
      }
      if appliedVersion > 0 && appliedVersion in rows {
        rows := rows[appliedVersion := rows[appliedVersion].(status := Received)];
      }
      appliedVersion, appliedHash, appliedUsers := 0, "", 0;
    }

    /**
     None is sql.ErrNoRows, which restoring takes for "nothing to restore"; in every reachable state it is version 0.
     */
    method AppliedConfig() returns (r: Option<SignedConfig>)
      ensures r.Some? ==> appliedVersion in rows && r.value == rows[appliedVersion].signed
      ensures Filed(Model()) && AppliedRowThere(Model()) ==>
                if appliedVersion == 0 then r.None?
                else r.Some? && r.value.config.version == appliedVersion && r.value.sha256 == appliedHash
    {
      if appliedVersion == 0 {
        return None;
      }
      if appliedVersion !in rows || rows[appliedVersion].status != Applied {
        return None;
      }
      return Some(rows[appliedVersion].signed);
    }
  }
}
