/**
 Signed maintenance commands: the validity window a command must be inside of, the markers that keep a processed
 command from being acted on again, and the clean-up that removes old markers.
 */
module Maintenance {
  import opened Text

  const SECOND := 1_000_000_000
  const EARLY_ALLOWANCE := 30 * SECOND
  const MAX_VALIDITY := 300 * SECOND
  const MARKER_LIFE := 7 * 86400 * SECOND

  /** Times are nanoseconds since Go's zero time. */
  datatype Command = Command(id: string, agentNodeId: int, action: string, targetVersion: string, issuedAt: int,
                             expiresAt: int)

  datatype SignedCommand = SignedCommand(keyId: string, digest: string, signature: string, command: Command)

  /** The agent's identity, and the library checks: UUIDs, the version pattern, ToLower, digest and signature. */
  datatype Authority = Authority(agentNodeId: int, keyId: string, isUUID: string -> bool, isVersion: string -> bool,
                                 lower: string -> string, digestMatches: (Command, string) -> bool,
                                     signatureValid: (Command, string) -> bool)

  /** ValidateMaintenanceCommand */
  predicate ValidCommand(c: Command, a: Authority) {
    var action, target := a.lower(TrimSpace(c.action)), TrimSpace(c.targetVersion);
    && a.isUUID(c.id) && c.agentNodeId > 0 && c.issuedAt != 0 && c.expiresAt != 0
    && c.issuedAt < c.expiresAt && c.expiresAt - c.issuedAt <= MAX_VALIDITY
    && if action == "check_update" || action == "uninstall" then target == ""
       else action == "update" && a.isVersion(target)
  }

  /** VerifySignedMaintenanceCommand at clock reading `now`, with the manager's own identity check. */
  predicate Verified(s: SignedCommand, a: Authority, now: int) {
    && s.command.agentNodeId == a.agentNodeId && s.keyId == TrimSpace(a.keyId) && ValidCommand(s.command, a)
    && s.command.issuedAt - EARLY_ALLOWANCE <= now < s.command.expiresAt
    && a.digestMatches(s.command, s.digest) && a.signatureValid(s.command, s.signature)
  }

  /** A command has what its action needs: an update a release version, a check and an uninstall no target. */
  lemma CommandNeeds(c: Command, a: Authority)
    ensures ValidCommand(c, a) <==>
              && a.isUUID(c.id) && c.agentNodeId > 0 && 0 !in {c.issuedAt, c.expiresAt}
              && 0 < c.expiresAt - c.issuedAt <= 300 * SECOND
              && var action, target := a.lower(TrimSpace(c.action)), TrimSpace(c.targetVersion);
                 (action == "update" && a.isVersion(target))
                     || (action in {"check_update", "uninstall"} && target == "")
  {}

  /**
   A valid command for this agent, under its key and with matching digest and signature, verifies exactly from half a
   minute before it is issued until just before it expires; any other command never does.
   */
  lemma VerifiesExactly(s: SignedCommand, a: Authority, now: int)
    ensures var genuine := ValidCommand(s.command, a) && s.command.agentNodeId == a.agentNodeId
                           && s.keyId == TrimSpace(a.keyId) && a.digestMatches(s.command, s.digest)
                           && a.signatureValid(s.command, s.signature);
            Verified(s, a, now) <==> genuine && s.command.issuedAt - 30 * SECOND <= now < s.command.expiresAt
  {}

  /** A command verified at t expires within five and a half minutes of t. */
  lemma VerifiedExpiresSoon(s: SignedCommand, a: Authority, now: int)
    requires Verified(s, a, now)
    ensures now < s.command.expiresAt <= now + MAX_VALIDITY + EARLY_ALLOWANCE
  {}

  /** Markers by command identifier, with the modification time of each. */
  datatype State = State(markers: map<string, int>, running: bool)

  /**
   Clock readings and outcomes of one request, or of one clean-up that may fail to remove some markers. An uninstall
   that fails may have deleted any of the markers by then: `lost`.
   */
  datatype Step =
    | Process(request: SignedCommand, verifiedAt: int, markedAt: int, markFails: bool, uninstalls: bool,
              lost: set<string>)
    | Cleanup(at: int, stuck: set<string>)

  /** The request passes every check and its command has no marker. */
  predicate Fresh(s: State, t: Step, a: Authority) {
    s.running && t.Process? && Verified(t.request, a, t.verifiedAt) && t.request.command.id !in s.markers
  }

  /** An update installs before its marker is written, an uninstall only after. */
  predicate Acts(s: State, t: Step, a: Authority) {
    Fresh(s, t, a) && (t.request.command.action == "update"
                       || (t.request.command.action == "uninstall" && !t.markFails))
  }

  predicate WritesMarker(s: State, t: Step, a: Authority) {
    Fresh(s, t, a) && !t.markFails && (t.request.command.action == "update" || t.request.command.action == "uninstall")
  }

  /** The step is an uninstall that fails after deleting the marker of `id`. */
  predicate Loses(s: State, t: Step, a: Authority, id: string) {
    WritesMarker(s, t, a) && t.request.command.action == "uninstall" && !t.uninstalls && id in t.lost
  }

  predicate Expired(mtime: int, now: int) {
    mtime < now - MARKER_LIFE
  }

  function Next(s: State, t: Step, a: Authority): State {
    if !s.running then s
    else
      match t
      case Process(request, _, markedAt, _, uninstalls, lost) =>
        var marked := s.markers[request.command.id := markedAt];
        if !WritesMarker(s, t, a) then s
        else if request.command.action != "uninstall" then s.(markers := marked)
        else if uninstalls then State(map[], false)
        else s.(markers := marked - lost)
      case Cleanup(at, stuck) => s.(markers := map id | id in s.markers
                                    && (id in stuck || !Expired(s.markers[id], at)) :: s.markers[id])
  }

  /**
   What becomes of one request. Without a marker and verified, an update is acted on whether or not its marker can be
   written, an uninstall only if it can; whatever else comes changes nothing.
   */
  lemma ProcessExactly(s: State, t: Step, a: Authority)
    requires s.running && t.Process?
    ensures var c := t.request.command;
            var unmarked := Verified(t.request, a, t.verifiedAt) && c.id !in s.markers;
            && (Acts(s, t, a) <==> unmarked && (c.action == "update" || (c.action == "uninstall" && !t.markFails)))
            && (unmarked && c.action == "update" && !t.markFails ==>
                Next(s, t, a) == State(s.markers[c.id := t.markedAt], true))
            && (unmarked && c.action == "uninstall" && !t.markFails ==>
                Next(s, t, a) == if t.uninstalls then State(map[], false)
                                 else State(s.markers[c.id := t.markedAt] - t.lost, true))
            && (!unmarked || t.markFails || c.action !in {"update", "uninstall"} ==> Next(s, t, a) == s)
  {}

  /** A clean-up deletes exactly the markers older than seven days that it can delete, and changes no other. */
  lemma CleanupExactly(s: State, at: int, stuck: set<string>, a: Authority)
    requires s.running
    ensures var s' := Next(s, Cleanup(at, stuck), a);
            && s'.running
            && forall id ::
                 && (id in s'.markers <==>
                     id in s.markers && (id in stuck || s.markers[id] >= at - 7 * 24 * 3600 * SECOND))
                 && (id in s'.markers ==> s'.markers[id] == s.markers[id])
  {}

  ghost predicate IsRun(states: seq<State>, steps: seq<Step>, a: Authority) {
    |states| == |steps| + 1 && forall n :: 0 <= n < |steps| ==> states[n + 1] == Next(states[n], steps[n], a)
  }

  function Readings(t: Step): seq<int> {
    match t
    case Process(_, verifiedAt, markedAt, _, _, _) => [verifiedAt, markedAt]
    case Cleanup(at, _) => [at]
  }

  /** No clock reading falls more than `skew` below an earlier one; 0 is a clock that never decreases. */
  ghost predicate SkewWithin(steps: seq<Step>, skew: int) {
    && (forall i, j, p, q :: 0 <= i < j < |steps| && 0 <= p < |Readings(steps[i])| && 0 <= q < |Readings(steps[j])| ==>
         Readings(steps[j])[q] >= Readings(steps[i])[p] - skew)
    && (forall i, p, q :: 0 <= i < |steps| && 0 <= p < q < |Readings(steps[i])| ==>
          Readings(steps[i])[q] >= Readings(steps[i])[p] - skew)
  }

  /** A marker that is gone was removed by a clean-up that saw it past its life, or by an uninstall that failed. */
  lemma {:induction false} MarkerOutlives(states: seq<State>, steps: seq<Step>, a: Authority, i: nat, n: nat,
      id: string, mtime: int)
    requires IsRun(states, steps, a) && i < n <= |steps|
    requires id in states[i + 1].markers && states[i + 1].markers[id] == mtime
    ensures !states[n].running || (id in states[n].markers && states[n].markers[id] == mtime)
         || (exists k :: i < k < n && steps[k].Cleanup? && Expired(mtime, steps[k].at))
         || exists k :: i < k < n && Loses(states[k], steps[k], a, id)
  {
    if i + 1 < n {
      var m := n - 1;
      MarkerOutlives(states, steps, a, i, m, id, mtime);
      assert states[m + 1] == Next(states[m], steps[m], a);
      if states[n].running && id in states[m].markers && states[m].markers[id] == mtime && id !in states[n].markers {
        assert i < m < n && (Loses(states[m], steps[m], a, id) || (steps[m].Cleanup? && Expired(mtime, steps[m].at)));
      }
    }
  }

  /** No failed uninstall between the two steps deletes the marker of `id`. */
  ghost predicate KeepsMarker(states: seq<State>, steps: seq<Step>, a: Authority, i: nat, j: nat, id: string)
    requires i <= j <= |steps| && |steps| <= |states|
  {
    forall k :: i <= k < j ==> !Loses(states[k], steps[k], a, id)
  }

  /**
   Whatever is acted on under an identifier after that identifier's marker was written, and not lost to a failed
   uninstall, expires at least seven days less five and a half minutes after the marked command did, less twice the
   clock's worst step back.
   */
  lemma LaterActionExpiresLater(states: seq<State>, steps: seq<Step>, a: Authority, skew: int, i: nat, j: nat)
    requires IsRun(states, steps, a) && SkewWithin(steps, skew) && i < j < |steps|
    requires WritesMarker(states[i], steps[i], a) && Acts(states[j], steps[j], a)
    requires steps[i].request.command.id == steps[j].request.command.id
    requires KeepsMarker(states, steps, a, i, j, steps[i].request.command.id)
    ensures steps[j].request.command.expiresAt
         >= steps[i].request.command.expiresAt + MARKER_LIFE - MAX_VALIDITY - EARLY_ALLOWANCE + 2 - 2 * skew
  {
    var id, m := steps[i].request.command.id, steps[i].markedAt;
    assert states[i + 1] == Next(states[i], steps[i], a);
    StaysStopped(states, steps, a, i + 1, j);
    MarkerOutlives(states, steps, a, i, j, id, m);
    var k :| i < k < j && steps[k].Cleanup? && Expired(m, steps[k].at);
    assert Readings(steps[i])[1] >= Readings(steps[i])[0] - skew;
    assert Readings(steps[j])[0] >= Readings(steps[k])[0] - skew;
    VerifiedExpiresSoon(steps[i].request, a, steps[i].verifiedAt);
    VerifiedExpiresSoon(steps[j].request, a, steps[j].verifiedAt);
  }

  lemma {:induction false} StaysStopped(states: seq<State>, steps: seq<Step>, a: Authority, i: nat, n: nat)
    requires IsRun(states, steps, a) && i <= n <= |steps|
    ensures !states[i].running ==> !states[n].running
  {
    if i < n {
      StaysStopped(states, steps, a, i, n - 1);
      assert states[(n - 1) + 1] == Next(states[n - 1], steps[n - 1], a);
    }
  }

  lemma {:induction false} StaysGone(states: seq<State>, steps: seq<Step>, a: Authority, k: nat, n: nat, id: string)
    requires IsRun(states, steps, a) && k <= n <= |steps| && id !in states[k].markers
    requires forall m :: k <= m < n ==> !(WritesMarker(states[m], steps[m], a) && steps[m].request.command.id == id)
    ensures id !in states[n].markers
  {
    if k < n {
      StaysGone(states, steps, a, k, n - 1, id);
      assert states[(n - 1) + 1] == Next(states[n - 1], steps[n - 1], a);
    }
  }

  /**
   Replay across clean-up and failed uninstalls: take a command whose marker was written, and a later verified request
   under the same identifier, with no marker for it written in between. As long as the later command expires early
   enough, as the same command sent again always does under a small skew, it is acted on again exactly when an uninstall
   in between, or the marked command itself if it was one, failed after deleting the marker.
   */
  lemma ReplaysExactly(states: seq<State>, steps: seq<Step>, a: Authority, skew: int, i: nat, j: nat)
    requires IsRun(states, steps, a) && SkewWithin(steps, skew) && i < j < |steps|
    requires WritesMarker(states[i], steps[i], a)
    requires steps[j].Process? && Verified(steps[j].request, a, steps[j].verifiedAt) && !steps[j].markFails
             && states[j].running
    requires steps[j].request.command.action == "update" || steps[j].request.command.action == "uninstall"
    requires steps[j].request.command.id == steps[i].request.command.id
    requires steps[j].request.command.expiresAt
           < steps[i].request.command.expiresAt + MARKER_LIFE - MAX_VALIDITY - EARLY_ALLOWANCE + 2 - 2 * skew
    requires forall m :: i < m < j ==>
             !(WritesMarker(states[m], steps[m], a) && steps[m].request.command.id == steps[i].request.command.id)
    ensures Acts(states[j], steps[j], a) <==> !KeepsMarker(states, steps, a, i, j, steps[i].request.command.id)
  {
    var id := steps[i].request.command.id;
    if KeepsMarker(states, steps, a, i, j, id) {
      if Acts(states[j], steps[j], a) {
        LaterActionExpiresLater(states, steps, a, skew, i, j);
      }
    } else {
      var k :| i <= k < j && Loses(states[k], steps[k], a, id);
      assert states[k + 1] == Next(states[k], steps[k], a);
      StaysGone(states, steps, a, k + 1, j, id);
    }
  }

  /**
   Replay safety across clean-up: once a command's marker is written, no later step acts on that command, as long
   as the clock never steps back by more than half of seven days less five and a half minutes and no failed uninstall
   deletes the marker.
   */
  lemma NoReplay(states: seq<State>, steps: seq<Step>, a: Authority, skew: int, i: nat, j: nat)
    requires IsRun(states, steps, a) && SkewWithin(steps, skew) && i < j < |steps|
    requires 2 * skew <= MARKER_LIFE - MAX_VALIDITY - EARLY_ALLOWANCE
    requires WritesMarker(states[i], steps[i], a) && steps[j].Process?
             && steps[j].request.command == steps[i].request.command
    requires KeepsMarker(states, steps, a, i, j, steps[i].request.command.id)
    ensures !Acts(states[j], steps[j], a)
  {
    if Acts(states[j], steps[j], a) {
      LaterActionExpiresLater(states, steps, a, skew, i, j);
    }
  }

  lemma SkewFromBounds(steps: seq<Step>, lows: seq<int>, highs: seq<int>, skew: int)
    requires |steps| == |lows| == |highs|
    requires forall i :: 0 <= i < |steps| ==> ReadsWithin(steps[i], lows[i], highs[i])
    requires forall i, j :: 0 <= i <= j < |steps| ==> lows[j] >= highs[i] - skew
    ensures SkewWithin(steps, skew)
  {
    forall i, p | 0 <= i < |steps| && 0 <= p < |Readings(steps[i])|
        ensures lows[i] <= Readings(steps[i])[p] <= highs[i] {
      assert ReadsWithin(steps[i], lows[i], highs[i]);
    }
  }

  predicate ReadsWithin(t: Step, low: int, high: int) {
    forall p :: 0 <= p < |Readings(t)| ==> low <= Readings(t)[p] <= high
  }

  /** The bound is sharp: one nanosecond more and a command can be acted on twice. */
  lemma LargerStepBackReplays(request: SignedCommand, a: Authority) returns (states: seq<State>, steps: seq<Step>)
    requires request.command.action == "update" && ValidCommand(request.command, a)
             && request.command.agentNodeId == a.agentNodeId
    requires request.keyId == TrimSpace(a.keyId) && request.command.expiresAt - request.command.issuedAt == MAX_VALIDITY
    requires a.digestMatches(request.command, request.digest) && a.signatureValid(request.command, request.signature)
    ensures IsRun(states, steps, a) && SkewWithin(steps, (MARKER_LIFE - MAX_VALIDITY - EARLY_ALLOWANCE) / 2 + 1)
    ensures |steps| == 3 && WritesMarker(states[0], steps[0], a) && Acts(states[2], steps[2], a)
    ensures steps[0].request == steps[2].request == request
  {
    var skew := (MARKER_LIFE - MAX_VALIDITY - EARLY_ALLOWANCE) / 2 + 1;
    var t := request.command.issuedAt - EARLY_ALLOWANCE;
    var cleaned := t - skew + MARKER_LIFE + 1;
    var first, cleanup := Process(request, t, t - skew, false, false, {}), Cleanup(cleaned, {});
    var again := Process(request, cleaned - skew, cleaned - skew, false, false, {});
    steps := [first, cleanup, again];
    SkewFromBounds(steps, [t - skew, cleaned, cleaned - skew], [t, cleaned, cleaned - skew], skew);
    var s0 := State(map[], true);
    var s1 := Next(s0, first, a);
    var s2 := Next(s1, cleanup, a);
    states := [s0, s1, s2, Next(s2, again, a)];
    assert request.command.id in s1.markers && s1.markers[request.command.id] == t - skew;
    assert request.command.id !in s2.markers;
  }

  /** With the clock standing still, an uninstall that fails after deleting the markers lets an update run twice. */
  lemma FailedUninstallReplays(update: SignedCommand, uninstall: SignedCommand, a: Authority, t: int)
      returns (states: seq<State>, steps: seq<Step>)
    requires Verified(update, a, t) && update.command.action == "update"
    requires Verified(uninstall, a, t) && uninstall.command.action == "uninstall"
             && uninstall.command.id != update.command.id
    ensures IsRun(states, steps, a) && SkewWithin(steps, 0) && |steps| == 3
    ensures WritesMarker(states[0], steps[0], a) && Acts(states[2], steps[2], a)
    ensures steps[0].request == steps[2].request == update
    ensures steps[1].Process? && steps[1].request == uninstall && !steps[1].uninstalls
  {
    var lost := {update.command.id, uninstall.command.id};
    var first, failing := Process(update, t, t, false, false, {}), Process(uninstall, t, t, false, false, lost);
    steps := [first, failing, first];
    SkewFromBounds(steps, [t, t, t], [t, t, t], 0);
    var s0 := State(map[], true);
    var s1 := Next(s0, first, a);
    var s2 := Next(s1, failing, a);
    states := [s0, s1, s2, Next(s2, first, a)];
    assert update.command.id !in s2.markers;
  }

  // ----- The manager

  class Manager {
    const authority: Authority
    var markers: map<string, int>
    var running: bool

    ghost function Model(): State
      reads this
    {
      State(markers, running)
    }

    constructor (authority: Authority)
      ensures this.authority == authority && Model() == State(map[], true)
    {
      this.authority, markers, running := authority, map[], true;
    }

    /** processRequest from verification on; `acted` is whether an install or uninstall was begun. */
    method ProcessRequest(request: SignedCommand, verifiedAt: int, markedAt: int, markFails: bool, uninstalls: bool,
        lost: set<string>) returns (acted: bool)
      modifies this
      ensures acted == Acts(old(Model()), Process(request, verifiedAt, markedAt, markFails, uninstalls, lost),
                            authority)
      ensures Model() == Next(old(Model()), Process(request, verifiedAt, markedAt, markFails, uninstalls, lost),
                              authority)
    {
      if !running || !Verified(request, authority, verifiedAt) {
        return false;
      }
      if request.command.id in markers {
        return false;
      }
      if request.command.action == "uninstall" {
        if markFails {
          return false;
        }
        markers := markers[request.command.id := markedAt];
        if uninstalls {
          markers, running := map[], false;
        } else {
          markers := markers - lost;
        }
        return true;
      }
      if request.command.action != "update" {
        return false;
      }
      if !markFails {
        markers := markers[request.command.id := markedAt];
      }
      return true;
    }

    method CleanupProcessed(at: int, stuck: set<string>)
      modifies this
      ensures Model() == Next(old(Model()), Cleanup(at, stuck), authority)
    {
      if running {
        markers := map id | id in markers && (id in stuck || !Expired(markers[id], at)) :: markers[id];
      }
    }
  }
}
