/**
 Traffic reporting as a two-party protocol. Whatever the agent sends may be lost, duplicated, delayed
 or reordered, and the agent may restart at any moment with a new boot identity; the server counts a
 (boot, sequence, hash) only the first time it sees it.
 */
module ExactlyOnce {
  import opened Text
  import opened Stamps
  import opened WriteAheadLog
  import opened TrafficLog

  datatype Status = Accepted | AlreadyAccepted | Refused

  datatype Answer = Answer(boot: string, sequence: nat, hash: string, status: Status)

  /** A batch or answer once sent stays deliverable for ever, any number of times; losing it is never delivering it. */
  datatype World = World(agent: Ledger, boot: string, sent: set<TrafficBatch>, answers: set<Answer>,
                         counted: seq<TrafficBatch>)

  datatype Event =
    | Collect(deltas: seq<Delta>, startedAt: StoredTime, endedAt: StoredTime, fails: bool)
    | DrainNow(configVersion: nat, now: StoredTime, fails: bool)
    | SendPending(reached: nat)
    | Restart(boot: string)
    | ServerReceives(batch: TrafficBatch, refuses: bool)
    | AgentReceives(answer: Answer, fails: bool)

  predicate SameIdentity(a: TrafficBatch, b: TrafficBatch) {
    a.boot == b.boot && a.sequence == b.sequence && a.sha256 == b.sha256
  }

  predicate AlreadyCounted(counted: seq<TrafficBatch>, b: TrafficBatch) {
    exists i :: 0 <= i < |counted| && SameIdentity(counted[i], b)
  }

  function ServerStep(w: World, b: TrafficBatch, refuses: bool): World {
    if refuses then w.(answers := w.answers + {Answer(b.boot, b.sequence, b.sha256, Refused)})
    else if AlreadyCounted(w.counted, b)
        then w.(answers := w.answers + {Answer(b.boot, b.sequence, b.sha256, AlreadyAccepted)})
    else w.(answers := w.answers + {Answer(b.boot, b.sequence, b.sha256, Accepted)}, counted := w.counted + [b])
  }

  ghost function Happens(w: World, e: Event, enc: Encoding<TrafficBatch>): World {
    match e
    case Collect(deltas, s, t, fails) => w.(agent := Step(w.agent, AddWindow(deltas, s, t, fails), enc))
    case DrainNow(configVersion, now, fails) =>
      w.(agent := Step(w.agent, Drain(w.boot, configVersion, now, fails), enc))
    case SendPending(reached) =>
      var rows := Pending(w.agent.wal, 100);
      var n := if reached < |rows| then reached else |rows|;
      w.(sent := w.sent + set r | r in rows[..n] :: r.batch)
    case Restart(boot) => w.(boot := boot)
    case ServerReceives(b, refuses) => if b in w.sent then ServerStep(w, b, refuses) else w
    case AgentReceives(a, fails) =>
      if a in w.answers && !a.status.Refused?
      then w.(agent := Step(w.agent, Acknowledge(a.boot, a.sequence, a.hash, fails), enc))
      else w
  }

  function Start(boot: string): World {
    World(EMPTY, boot, {}, {}, [])
  }

  ghost function Unfold(w: World, events: seq<Event>, enc: Encoding<TrafficBatch>): World {
    if events == [] then w else Happens(Unfold(w, events[..|events| - 1], enc), events[|events| - 1], enc)
  }

  ghost predicate WasDrained(l: Ledger, b: TrafficBatch) {
    1 <= b.sequence <= |l.drained| && b == l.drained[b.sequence - 1]
  }

  /** Only drained batches travel or count, and a batch leaves the log only after it was counted. */
  ghost predicate Sound(w: World) {
    && Valid(w.agent)
    && (forall b :: b in w.sent ==> WasDrained(w.agent, b))
    && (forall i :: 0 <= i < |w.counted| ==> WasDrained(w.agent, w.counted[i]))
    && (forall a :: a in w.answers && !a.status.Refused? ==> a.sequence in Numbers(w.counted))
    && w.agent.acknowledged <= Numbers(w.counted)
  }

  /** What the server has counted is exactly the drained batches bearing a counted number. */
  ghost predicate Tallied(w: World, k: TrafficKey, dir: Direction) {
    ServerTotal(w, k, dir) == BatchTotal(w.agent.drained, Numbers(w.counted), k, dir)
  }

  ghost function ServerTotal(w: World, k: TrafficKey, dir: Direction): nat {
    BatchTotal(w.counted, Numbers(w.counted), k, dir)
  }

  lemma CountedNumberMeansCounted(w: World, b: TrafficBatch)
    requires Sound(w) && WasDrained(w.agent, b)
    ensures b.sequence in Numbers(w.counted) <==> AlreadyCounted(w.counted, b)
  {
    if b.sequence in Numbers(w.counted) {
      var c :| c in w.counted && c.sequence == b.sequence;
      var i :| 0 <= i < |w.counted| && w.counted[i] == c;
      assert WasDrained(w.agent, w.counted[i]);
    }
    if AlreadyCounted(w.counted, b) {
      var i :| 0 <= i < |w.counted| && SameIdentity(w.counted[i], b);
      assert w.counted[i] in w.counted;
    }
  }

  lemma ServerStepSound(w: World, b: TrafficBatch, refuses: bool)
    requires Sound(w) && b in w.sent
    ensures Sound(ServerStep(w, b, refuses))
  {
    NumbersAppend(w.counted, b);
    CountedNumberMeansCounted(w, b);
  }

  lemma CountingAddsOneBatch(w: World, b: TrafficBatch, k: TrafficKey, dir: Direction)
    requires Sound(w) && WasDrained(w.agent, b) && b.sequence !in Numbers(w.counted)
    ensures BatchTotal(w.agent.drained, Numbers(w.counted + [b]), k, dir)
         == BatchTotal(w.agent.drained, Numbers(w.counted), k, dir) + ItemTotal(b.items, k, dir)
  {
    NumbersAppend(w.counted, b);
    BatchTotalAdd(w.agent.drained, Numbers(w.counted), b.sequence - 1, k, dir);
  }

  lemma ServerStepTallied(w: World, b: TrafficBatch, refuses: bool, k: TrafficKey, dir: Direction)
    requires Sound(w) && b in w.sent && Tallied(w, k, dir)
    ensures Tallied(ServerStep(w, b, refuses), k, dir)
  {
    if !refuses && !AlreadyCounted(w.counted, b) {
      CountedNumberMeansCounted(w, b);
      CountingAddsOneBatch(w, b, k, dir);
      AppendBatchTotal(w.counted, b, k, dir);
    }
  }

  /** The agent's own transactions only extend the drained history. */
  lemma DrainedGrows(l: Ledger, op: Op, enc: Encoding<TrafficBatch>)
    ensures l.drained <= Step(l, op, enc).drained && |Step(l, op, enc).drained| <= |l.drained| + 1
  {}

  lemma LocalStepSound(w: World, op: Op, enc: Encoding<TrafficBatch>)
    requires Sound(w) && !op.Acknowledge?
    ensures Sound(w.(agent := Step(w.agent, op, enc)))
  {
    StepKeepsValid(w.agent, op, enc);
    DrainedGrows(w.agent, op, enc);
    assert forall b :: WasDrained(w.agent, b) ==> WasDrained(Step(w.agent, op, enc), b);
  }

  lemma LocalStepTallied(w: World, op: Op, enc: Encoding<TrafficBatch>, k: TrafficKey, dir: Direction)
    requires Sound(w) && Tallied(w, k, dir)
    ensures Tallied(w.(agent := Step(w.agent, op, enc)), k, dir)
  {
    var l, l' := w.agent, Step(w.agent, op, enc);
    if l'.drained != l.drained {
      assert op.Drain? && l'.drained[..|l.drained|] == l.drained && l'.drained[|l.drained|].sequence == |l.drained| + 1;
      assert forall c :: c in w.counted ==> WasDrained(l, c);
    }
  }

  lemma AcknowledgeSound(w: World, a: Answer, fails: bool, enc: Encoding<TrafficBatch>)
    requires Sound(w) && a in w.answers && !a.status.Refused?
    ensures Sound(w.(agent := Step(w.agent, Acknowledge(a.boot, a.sequence, a.hash, fails), enc)))
  {
    var op := Acknowledge(a.boot, a.sequence, a.hash, fails);
    var l, l' := w.agent, Step(w.agent, op, enc);
    StepKeepsValid(l, op, enc);
    assert forall b :: WasDrained(l, b) ==> WasDrained(l', b);
  }

  lemma SendSound(w: World, reached: nat, enc: Encoding<TrafficBatch>)
    requires Sound(w)
    ensures Sound(Happens(w, SendPending(reached), enc))
  {
    var rows := Pending(w.agent.wal, 100);
    forall r | r in rows ensures WasDrained(w.agent, r.batch) {
      assert r in w.agent.wal;
    }
  }

  lemma EventKeepsSound(w: World, e: Event, enc: Encoding<TrafficBatch>)
    requires Sound(w)
    ensures Sound(Happens(w, e, enc))
  {
    match e
    case Collect(deltas, s, t, fails) => LocalStepSound(w, AddWindow(deltas, s, t, fails), enc);
    case DrainNow(configVersion, now, fails) => LocalStepSound(w, Drain(w.boot, configVersion, now, fails), enc);
    case SendPending(reached) => SendSound(w, reached, enc);
    case Restart(_) =>
    case ServerReceives(b, refuses) => if b in w.sent { ServerStepSound(w, b, refuses); }
    case AgentReceives(a, fails) => if a in w.answers && !a.status.Refused? { AcknowledgeSound(w, a, fails, enc); }
  }

  lemma EventKeepsTally(w: World, e: Event, enc: Encoding<TrafficBatch>, k: TrafficKey, dir: Direction)
    requires Sound(w) && Tallied(w, k, dir)
    ensures Tallied(Happens(w, e, enc), k, dir)
  {
    match e
    case Collect(deltas, s, t, fails) => LocalStepTallied(w, AddWindow(deltas, s, t, fails), enc, k, dir);
    case DrainNow(configVersion, now, fails) =>
      LocalStepTallied(w, Drain(w.boot, configVersion, now, fails), enc, k, dir);
    case SendPending(_) =>
    case Restart(_) =>
    case ServerReceives(b, refuses) => if b in w.sent { ServerStepTallied(w, b, refuses, k, dir); }
    case AgentReceives(a, fails) => LocalStepTallied(w, Acknowledge(a.boot, a.sequence, a.hash, fails), enc, k, dir);
  }

  /** Sound and tallied worlds stay so along every continuation. */
  lemma {:induction false} UnfoldKeeps(w: World, events: seq<Event>, enc: Encoding<TrafficBatch>)
    requires Sound(w) && forall k, dir :: Tallied(w, k, dir)
    ensures var w' := Unfold(w, events, enc); Sound(w') && forall k, dir :: Tallied(w', k, dir)
  {
    if events != [] {
      UnfoldKeeps(w, events[..|events| - 1], enc);
      var before, e := Unfold(w, events[..|events| - 1], enc), events[|events| - 1];
      EventKeepsSound(before, e, enc);
      forall k, dir ensures Tallied(Happens(before, e, enc), k, dir) {
        EventKeepsTally(before, e, enc, k, dir);
      }
    }
  }

  lemma EveryRunIsSound(boot: string, events: seq<Event>, enc: Encoding<TrafficBatch>)
    ensures var w := Unfold(Start(boot), events, enc); Sound(w) && forall k, dir :: Tallied(w, k, dir)
  {
    RunKeepsValid([], enc);
    UnfoldKeeps(Start(boot), events, enc);
  }

  lemma Accounting(w: World, k: TrafficKey, dir: Direction)
    requires Sound(w) && Tallied(w, k, dir)
    ensures var uncounted := Sequences(w.agent.wal) - Numbers(w.counted);
            Undrained(w.agent, k, dir)
            == DeltaTotal(w.agent.accepted, k, dir) - ServerTotal(w, k, dir)
               - BatchTotal(w.agent.drained, uncounted, k, dir)
  {
    var counted := Numbers(w.counted);
    var uncounted := Sequences(w.agent.wal) - counted;
    BatchTotalSplit(w.agent.drained, counted, uncounted, k, dir);
    forall i | 0 <= i < |w.agent.drained|
      ensures w.agent.drained[i].sequence in Numbers(w.agent.drained)
      ensures w.agent.drained[i].sequence in counted + uncounted
    {
      assert w.agent.drained[i] in w.agent.drained;
    }
    BatchTotalSame(w.agent.drained, Numbers(w.agent.drained), counted + uncounted, k, dir);
  }

  /**
   Exactly-once accounting: after any run, every byte accepted for a key is in exactly one of the server's
   total, the pending batches the server has not counted, and the accumulator.
   */
  lemma ExactlyOnceAccounting(boot: string, events: seq<Event>, enc: Encoding<TrafficBatch>, k: TrafficKey,
      dir: Direction)
    ensures var w := Unfold(Start(boot), events, enc);
            var uncounted := Sequences(w.agent.wal) - Numbers(w.counted);
            var held := ServerTotal(w, k, dir) + BatchTotal(w.agent.drained, uncounted, k, dir);
            var cell := CellOf(w.agent.acc, k, dir);
            && (cell.Exact? ==> DeltaTotal(w.agent.accepted, k, dir) == held + cell.bytes)
            && (cell.Inexact? <==> DeltaTotal(w.agent.accepted, k, dir) - held > MAX_INT64)
  {
    var w := Unfold(Start(boot), events, enc);
    EveryRunIsSound(boot, events, enc);
    assert Balanced(w.agent, k, dir);
    Accounting(w, k, dir);
  }

  /** Once accumulator and log are empty, the server's totals are exactly what was accepted. */
  lemma EmptyTablesAgree(w: World, k: TrafficKey, dir: Direction)
    requires Sound(w) && Tallied(w, k, dir) && w.agent.acc == map[] && w.agent.wal == []
    ensures ServerTotal(w, k, dir) == DeltaTotal(w.agent.accepted, k, dir)
  {
    assert Balanced(w.agent, k, dir);
    Accounting(w, k, dir);
    assert Sequences(w.agent.wal) - Numbers(w.counted) == {};
    NoneChosen(w.agent.drained, k, dir);
  }

  lemma QuiescentTotalsAgree(boot: string, events: seq<Event>, enc: Encoding<TrafficBatch>, k: TrafficKey,
      dir: Direction)
    requires var w := Unfold(Start(boot), events, enc); w.agent.acc == map[] && w.agent.wal == []
    ensures var w := Unfold(Start(boot), events, enc);
            ServerTotal(w, k, dir) == DeltaTotal(w.agent.accepted, k, dir)
  {
    EveryRunIsSound(boot, events, enc);
    EmptyTablesAgree(Unfold(Start(boot), events, enc), k, dir);
  }

  lemma {:induction false} NoneChosen(batches: seq<TrafficBatch>, k: TrafficKey, dir: Direction)
    ensures BatchTotal(batches, {}, k, dir) == 0
  {
    if batches != [] {
      NoneChosen(batches[..|batches| - 1], k, dir);
    }
  }

  // ----- What the protocol gets done

  /** Every pending batch among the hundred oldest travels, unless the connection breaks first. */
  lemma OldestTravel(w: World, reached: nat, enc: Encoding<TrafficBatch>, i: nat)
    requires i < |w.agent.wal| && i < 100 && i < reached
    ensures w.agent.wal[i].batch in Happens(w, SendPending(reached), enc).sent
  {
    var rows := Pending(w.agent.wal, 100);
    var n := if reached < |rows| then reached else |rows|;
    assert rows[..n][i] == w.agent.wal[i];
  }

  /** A batch that arrives and is not refused is counted, and an answer to it that settles it is on its way. */
  lemma ArrivalCounts(w: World, b: TrafficBatch, enc: Encoding<TrafficBatch>)
    requires b in w.sent
    ensures var w' := Happens(w, ServerReceives(b, false), enc);
            && AlreadyCounted(w'.counted, b)
            && var status := if AlreadyCounted(w.counted, b) then AlreadyAccepted else Accepted;
               Answer(b.boot, b.sequence, b.sha256, status) in w'.answers
  {
    var counted := ServerStep(w, b, false).counted;
    if !AlreadyCounted(w.counted, b) {
      assert SameIdentity(counted[|w.counted|], b);
    }
  }

  /**
   Every answer that is not a refusal settles its batch, whether it was counted now or before: no row with that boot,
   number and hash stays, and nothing else changes. A refusal changes nothing at all.
   */
  lemma AnswerSettles(w: World, a: Answer, enc: Encoding<TrafficBatch>)
    requires a in w.answers
    ensures var w' := Happens(w, AgentReceives(a, false), enc);
            && w' == w.(agent := w'.agent) && w'.agent.acc == w.agent.acc
            && w'.agent.drained == w.agent.drained && w'.agent.accepted == w.agent.accepted
            && (a.status.Refused? ==> w' == w)
            && (!a.status.Refused? ==> forall r :: r in w'.agent.wal <==>
                                                     r in w.agent.wal && !Matches(r, a.boot, a.sequence, a.hash))
  {
    if !a.status.Refused? {
      forall r ensures r in Delete(w.agent.wal, a.boot, a.sequence, a.hash) <==>
                         r in w.agent.wal && !Matches(r, a.boot, a.sequence, a.hash) {
        DeleteMember(w.agent.wal, a.boot, a.sequence, a.hash, r);
      }
    }
  }

  /**
   A restart loses nothing durable: only the boot identity is new, and the next batch drained carries it with the next
   number of the same count.
   */
  lemma RestartNamesNextBatch(w: World, boot: string, configVersion: nat, now: StoredTime,
      enc: Encoding<TrafficBatch>)
    requires Valid(w.agent) && AllExact(w.agent.acc) && w.agent.acc != map[]
    ensures var w1 := Happens(w, Restart(boot), enc);
            var w2 := Happens(w1, DrainNow(configVersion, now, false), enc);
            var drained := w2.agent.drained;
            && w1 == w.(boot := w1.boot)
            && |drained| == |w.agent.drained| + 1 && drained[..|w.agent.drained|] == w.agent.drained
            && var b := drained[|w.agent.drained|];
               && b.boot == boot && b.configVersion == configVersion && b.sequence == |w.agent.drained| + 1
               && forall r :: r in w2.agent.wal && r !in w.agent.wal ==> r.batch == b
  {
    var w1 := Happens(w, Restart(boot), enc);
    var b := NextBatch(w1.agent, w1.boot, configVersion, now, enc.digest);
    forall r | r in Insert(w.agent.wal, RowOf(b, now, enc)) && r !in w.agent.wal ensures r.batch == b {
      InsertMember(w.agent.wal, RowOf(b, now, enc), r);
    }
  }

  lemma {:induction false} UnfoldInTwo(w: World, xs: seq<Event>, ys: seq<Event>, enc: Encoding<TrafficBatch>)
    ensures Unfold(w, xs + ys, enc) == Unfold(Unfold(w, xs, enc), ys, enc)
  {
    if ys == [] {
      assert xs + ys == xs;
    } else {
      var n := |ys| - 1;
      UnfoldInTwo(w, xs, ys[..n], enc);
      assert (xs + ys)[..|xs + ys| - 1] == xs + ys[..n];
    }
  }

  lemma UnfoldOne(w: World, e: Event, enc: Encoding<TrafficBatch>)
    ensures Unfold(w, [e], enc) == Happens(w, e, enc)
  {
    assert [e][..0] == [];
  }

  /**
   The oldest pending batch is sent, arrives, and its answer comes back: one row less, and nothing else in the tables.
   */
  lemma SettleOldest(w: World, enc: Encoding<TrafficBatch>) returns (more: seq<Event>)
    requires Sound(w) && w.agent.wal != []
    ensures var w' := Unfold(w, more, enc);
            && Sound(w') && |w'.agent.wal| < |w.agent.wal|
            && w'.agent.acc == w.agent.acc && w'.agent.accepted == w.agent.accepted
  {
    var b := w.agent.wal[0].batch;
    var status := if AlreadyCounted(w.counted, b) then AlreadyAccepted else Accepted;
    var send, arrive := SendPending(1), ServerReceives(b, false);
    var answer := AgentReceives(Answer(b.boot, b.sequence, b.sha256, status), false);
    var w1 := Happens(w, send, enc);
    var w2 := Happens(w1, arrive, enc);
    OldestTravel(w, 1, enc, 0);
    EventKeepsSound(w, send, enc);
    ArrivalCounts(w1, b, enc);
    EventKeepsSound(w1, arrive, enc);
    EventKeepsSound(w2, answer, enc);
    SettlesRow(w2, w.agent.wal[0], status, enc);
    more := [send] + [arrive] + [answer];
    UnfoldOne(w, send, enc);
    UnfoldOne(w1, arrive, enc);
    UnfoldOne(w2, answer, enc);
    UnfoldInTwo(w, [send], [arrive], enc);
    UnfoldInTwo(w, [send] + [arrive], [answer], enc);
  }

  lemma SettlesRow(w: World, r: Row<TrafficBatch>, status: Status, enc: Encoding<TrafficBatch>)
    requires r in w.agent.wal && r.boot == r.batch.boot && r.sequence == r.batch.sequence && r.hash == r.batch.sha256
    requires !status.Refused? && Answer(r.batch.boot, r.batch.sequence, r.batch.sha256, status) in w.answers
    ensures var a := Answer(r.batch.boot, r.batch.sequence, r.batch.sha256, status);
            var w' := Happens(w, AgentReceives(a, false), enc);
            && |w'.agent.wal| < |w.agent.wal|
            && w'.agent.acc == w.agent.acc && w'.agent.accepted == w.agent.accepted
  {
    assert Matches(r, r.boot, r.sequence, r.hash);
    DeleteShortens(w.agent.wal, r);
  }

  lemma {:induction false} DeleteShortens(wal: Wal<TrafficBatch>, r: Row<TrafficBatch>)
    ensures |Delete(wal, r.boot, r.sequence, r.hash)| <= |wal|
    ensures r in wal ==> |Delete(wal, r.boot, r.sequence, r.hash)| < |wal|
  {
    if wal != [] {
      DeleteShortens(wal[1..], r);
    }
  }

  lemma {:induction false} SettleAll(w: World, enc: Encoding<TrafficBatch>) returns (more: seq<Event>)
    requires Sound(w)
    ensures var w' := Unfold(w, more, enc);
            && Sound(w') && w'.agent.wal == []
            && w'.agent.acc == w.agent.acc && w'.agent.accepted == w.agent.accepted
    decreases |w.agent.wal|
  {
    more := [];
    if w.agent.wal != [] {
      var one := SettleOldest(w, enc);
      var rest := SettleAll(Unfold(w, one, enc), enc);
      UnfoldInTwo(w, one, rest, enc);
      more := one + rest;
    }
  }

  /** Everything under way is lost: no batch and no answer sent so far arrives any more. */
  function Silenced(w: World): World {
    w.(sent := {}, answers := {})
  }

  lemma SilencedKeeps(w: World)
    requires Sound(w) && forall k, dir :: Tallied(w, k, dir)
    ensures Sound(Silenced(w)) && forall k, dir :: Tallied(Silenced(w), k, dir)
  {
    forall k, dir ensures Tallied(Silenced(w), k, dir) {
      assert Tallied(w, k, dir);
    }
  }

  /**
   From every reachable world whose counters are exact, even with everything under way lost, the agent and the server
   can go on so that accumulator and log are empty and the server has every byte ever accepted.
   */
  lemma EveryByteCanArrive(boot: string, events: seq<Event>, now: StoredTime, enc: Encoding<TrafficBatch>)
    returns (more: seq<Event>)
    requires AllExact(Unfold(Start(boot), events, enc).agent.acc)
    ensures var w := Unfold(Silenced(Unfold(Start(boot), events, enc)), more, enc);
            && w.agent.acc == map[] && w.agent.wal == []
            && forall k, dir :: ServerTotal(w, k, dir) == DeltaTotal(w.agent.accepted, k, dir)
    ensures Unfold(Silenced(Unfold(Start(boot), events, enc)), more, enc).agent.accepted
         == Unfold(Start(boot), events, enc).agent.accepted
  {
    var w := Silenced(Unfold(Start(boot), events, enc));
    EveryRunIsSound(boot, events, enc);
    SilencedKeeps(Unfold(Start(boot), events, enc));
    var drain := DrainNow(0, now, false);
    var w1 := Happens(w, drain, enc);
    EventKeepsSound(w, drain, enc);
    var rest := SettleAll(w1, enc);
    more := [drain] + rest;
    UnfoldOne(w, drain, enc);
    UnfoldInTwo(w, [drain], rest, enc);
    UnfoldKeeps(w, more, enc);
    forall k, dir ensures ServerTotal(Unfold(w, more, enc), k, dir) == DeltaTotal(w.agent.accepted, k, dir) {
      EmptyTablesAgree(Unfold(w, more, enc), k, dir);
    }
  }
}
