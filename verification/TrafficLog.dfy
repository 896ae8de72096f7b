/**
 Traffic accounting in the state database: deltas are merged into an accumulator, drained into
 numbered batches, and kept until an exactly matching acknowledgement deletes them.
 */
module TrafficLog {
  import opened Ordering
  import opened Text
  import opened Stamps
  import opened WriteAheadLog
  import opened CanonicalForms

  datatype TrafficKey = TrafficKey(subscriber: int, inbound: int, generation: nat)

  datatype Delta = Delta(key: TrafficKey, upload: nat, download: nat)

  datatype Direction = Upload | Download

  /** An INTEGER column; a sum past int64 turns into a REAL, which no longer reads back as a count. */
  datatype Cell = Exact(bytes: nat) | Inexact

  datatype AccumulatorRow = AccumulatorRow(upload: Cell, download: Cell, startedAt: StoredTime, updatedAt: StoredTime)

  type Accumulator = map<TrafficKey, AccumulatorRow>

  datatype TrafficItem = TrafficItem(key: TrafficKey, upload: nat, download: nat)

  /** Interval bounds are instants, in nanoseconds since Go's zero time. */
  datatype TrafficBatch = TrafficBatch(boot: string, sequence: nat, configVersion: nat, intervalStart: int,
                                       intervalEnd: int, sha256: string, items: seq<TrafficItem>)

  function CellAdd(c: Cell, n: nat): Cell {
    if c.Exact? && c.bytes + n <= MAX_INT64 then Exact(c.bytes + n) else Inexact
  }

  /** INSERT ... ON CONFLICT DO UPDATE for one delta. */
  function Upsert(acc: Accumulator, d: Delta, startedAt: StoredTime, endedAt: StoredTime): Accumulator {
    if d.key in acc then
      var row := acc[d.key];
      acc[d.key := AccumulatorRow(CellAdd(row.upload, d.upload), CellAdd(row.download, d.download),
                                  TextMin(row.startedAt, startedAt), TextMax(row.updatedAt, endedAt))]
    else acc[d.key := AccumulatorRow(Exact(d.upload), Exact(d.download), startedAt, endedAt)]
  }

  /** The identity check, and the driver's refusal of unsigned values with the high bit set. */
  predicate Storable(d: Delta) {
    d.key.subscriber > 0 && d.key.inbound > 0
    && d.key.generation <= MAX_INT64 && d.upload <= MAX_INT64 && d.download <= MAX_INT64
  }

  predicate AllStorable(deltas: seq<Delta>) {
    forall i :: 0 <= i < |deltas| ==> Storable(deltas[i])
  }

  function UpsertAll(acc: Accumulator, deltas: seq<Delta>, startedAt: StoredTime, endedAt: StoredTime): Accumulator {
    if deltas == [] then acc
    else Upsert(UpsertAll(acc, deltas[..|deltas| - 1], startedAt, endedAt), deltas[|deltas| - 1], startedAt, endedAt)
  }

  // ----- What is counted

  function Amount(upload: nat, download: nat, dir: Direction): nat {
    if dir.Upload? then upload else download
  }

  function DeltaTotal(deltas: seq<Delta>, k: TrafficKey, dir: Direction): nat {
    if deltas == [] then 0
    else
      var d := deltas[|deltas| - 1];
      DeltaTotal(deltas[..|deltas| - 1], k, dir) + if d.key == k then Amount(d.upload, d.download, dir) else 0
  }

  function ItemTotal(items: seq<TrafficItem>, k: TrafficKey, dir: Direction): nat {
    if items == [] then 0
    else
      var d := items[|items| - 1];
      ItemTotal(items[..|items| - 1], k, dir) + if d.key == k then Amount(d.upload, d.download, dir) else 0
  }

  /** Bytes in the batches whose sequence number is in `chosen`. */
  function BatchTotal(batches: seq<TrafficBatch>, chosen: set<nat>, k: TrafficKey, dir: Direction): nat {
    if batches == [] then 0
    else
      var b := batches[|batches| - 1];
      BatchTotal(batches[..|batches| - 1], chosen, k, dir) + if b.sequence in chosen then ItemTotal(b.items, k, dir)
          else 0
  }

  function CellOf(acc: Accumulator, k: TrafficKey, dir: Direction): Cell {
    if k !in acc then Exact(0) else if dir.Upload? then acc[k].upload else acc[k].download
  }

  lemma {:induction false} DeltaTotalAppend(xs: seq<Delta>, ys: seq<Delta>, k: TrafficKey, dir: Direction)
    ensures DeltaTotal(xs + ys, k, dir) == DeltaTotal(xs, k, dir) + DeltaTotal(ys, k, dir)
  {
    if ys == [] {
      assert xs + ys == xs;
    } else {
      var n := |ys| - 1;
      DeltaTotalAppend(xs, ys[..n], k, dir);
      assert (xs + ys)[..|xs + ys| - 1] == xs + ys[..n] && (xs + ys)[|xs + ys| - 1] == ys[n];
    }
  }

  lemma {:induction false} UpsertAllAdds(acc: Accumulator, deltas: seq<Delta>, s: StoredTime, e: StoredTime,
      k: TrafficKey, dir: Direction)
    requires AllStorable(deltas)
    requires var c := CellOf(acc, k, dir); c.Exact? ==> c.bytes <= MAX_INT64
    ensures CellOf(UpsertAll(acc, deltas, s, e), k, dir) == CellAdd(CellOf(acc, k, dir), DeltaTotal(deltas, k, dir))
  {
    if deltas != [] {
      var n := |deltas| - 1;
      UpsertAllAdds(acc, deltas[..n], s, e, k, dir);
      assert Storable(deltas[n]);
    }
  }

  lemma {:induction false} BatchTotalAdd(batches: seq<TrafficBatch>, chosen: set<nat>, i: nat, k: TrafficKey,
      dir: Direction)
    requires i < |batches| && batches[i].sequence !in chosen
    requires forall j :: 0 <= j < |batches| && j != i ==> batches[j].sequence != batches[i].sequence
    ensures BatchTotal(batches, chosen + {batches[i].sequence}, k, dir)
         == BatchTotal(batches, chosen, k, dir) + ItemTotal(batches[i].items, k, dir)
  {
    var n := |batches| - 1;
    if i < n {
      BatchTotalAdd(batches[..n], chosen, i, k, dir);
    } else {
      BatchTotalSame(batches[..n], chosen, chosen + {batches[i].sequence}, k, dir);
    }
  }

  lemma {:induction false} BatchTotalSame(batches: seq<TrafficBatch>, s: set<nat>, t: set<nat>, k: TrafficKey,
      dir: Direction)
    requires forall i :: 0 <= i < |batches| ==> (batches[i].sequence in s <==> batches[i].sequence in t)
    ensures BatchTotal(batches, s, k, dir) == BatchTotal(batches, t, k, dir)
  {
    if batches != [] {
      BatchTotalSame(batches[..|batches| - 1], s, t, k, dir);
    }
  }

  lemma {:induction false} BatchTotalSplit(batches: seq<TrafficBatch>, s: set<nat>, t: set<nat>, k: TrafficKey,
      dir: Direction)
    requires s !! t
    ensures BatchTotal(batches, s + t, k, dir) == BatchTotal(batches, s, k, dir) + BatchTotal(batches, t, k, dir)
  {
    if batches != [] {
      BatchTotalSplit(batches[..|batches| - 1], s, t, k, dir);
    }
  }

  // ----- Draining

  function OrderKey(k: TrafficKey): Key {
    [k.subscriber, k.inbound, k.generation]
  }

  function ItemKey(i: TrafficItem): Key {
    OrderKey(i.key)
  }

  /** SELECT ... ORDER BY subscriber_id, inbound_id, quota_generation */
  ghost function SelectKeys(acc: Accumulator): (ks: seq<TrafficKey>)
    ensures forall i :: 0 <= i < |ks| ==> ks[i] in acc
  {
    OrderKeySeparates(acc.Keys);
    OrderedByCorrect(acc.Keys, OrderKey);
    OrderedBy(acc.Keys, OrderKey)
  }

  lemma OrderKeySeparates(ks: set<TrafficKey>)
    ensures Separates(ks, OrderKey)
  {
    forall x, y | x in ks && y in ks && OrderKey(x) == OrderKey(y) ensures x == y {
      assert OrderKey(x)[0] == OrderKey(y)[0] && OrderKey(x)[1] == OrderKey(y)[1] && OrderKey(x)[2] == OrderKey(y)[2];
    }
  }

  lemma SelectKeysCorrect(acc: Accumulator)
    ensures forall k :: k in SelectKeys(acc) <==> k in acc
    ensures Increasing(SelectKeys(acc), OrderKey)
  {
    OrderKeySeparates(acc.Keys);
    OrderedByCorrect(acc.Keys, OrderKey);
  }

  lemma NothingToSelect(acc: Accumulator)
    ensures SelectKeys(acc) == [] <==> acc == map[]
  {
    SelectKeysCorrect(acc);
    var ks := SelectKeys(acc);
    if ks == [] {
      assert forall k :: k in acc ==> k in ks;
    } else {
      assert ks[0] in ks;
    }
  }

  predicate AllExact(acc: Accumulator) {
    forall k :: k in acc ==> acc[k].upload.Exact? && acc[k].download.Exact?
  }

  function Items(acc: Accumulator, ks: seq<TrafficKey>): seq<TrafficItem>
    requires AllExact(acc) && forall i :: 0 <= i < |ks| ==> ks[i] in acc
  {
    seq(|ks|, i requires 0 <= i < |ks| => TrafficItem(ks[i], acc[ks[i]].upload.bytes, acc[ks[i]].download.bytes))
  }

  lemma LastKeyIsNew(ks: seq<TrafficKey>)
    requires ks != [] && Increasing(ks, OrderKey)
    ensures var n := |ks| - 1; ks[n] !in ks[..n] && Increasing(ks[..n], OrderKey)
    ensures forall k :: k in ks <==> k in ks[..|ks| - 1] || k == ks[|ks| - 1]
  {
    var n := |ks| - 1;
    forall i | 0 <= i < n ensures ks[i] != ks[n] {
      LessAsymmetric(OrderKey(ks[i]), OrderKey(ks[n]));
    }
    assert ks == ks[..n] + [ks[n]];
  }

  lemma {:induction false} ItemsTotal(acc: Accumulator, ks: seq<TrafficKey>, k: TrafficKey, dir: Direction)
    requires AllExact(acc) && forall i :: 0 <= i < |ks| ==> ks[i] in acc
    requires Increasing(ks, OrderKey)
    ensures ItemTotal(Items(acc, ks), k, dir) == if k in ks then CellOf(acc, k, dir).bytes else 0
  {
    if ks != [] {
      var n := |ks| - 1;
      LastKeyIsNew(ks);
      ItemsTotal(acc, ks[..n], k, dir);
      assert Items(acc, ks)[..n] == Items(acc, ks[..n]);
    }
  }

  function EarliestStart(acc: Accumulator, ks: seq<TrafficKey>): int
    requires forall i :: 0 <= i < |ks| ==> ks[i] in acc
  {
    if ks == [] then 0
    else
      var rest := EarliestStart(acc, ks[..|ks| - 1]);
      var t := acc[ks[|ks| - 1]].startedAt.instant;
      if rest == 0 || t < rest then t else rest
  }

  function LatestEnd(acc: Accumulator, ks: seq<TrafficKey>): int
    requires forall i :: 0 <= i < |ks| ==> ks[i] in acc
  {
    if ks == [] then 0
    else
      var rest := LatestEnd(acc, ks[..|ks| - 1]);
      var t := acc[ks[|ks| - 1]].updatedAt.instant;
      if t > rest then t else rest
  }

  /** TrafficPayloadSHA256 with any arrangement sort.Slice may produce. */
  ghost predicate IsPayloadHash(digest: TrafficBatch -> string, batch: TrafficBatch, sha256: string) {
    exists items :: SortResult(batch.items, items, ItemKey) && sha256 == digest(batch.(sha256 := "", items := items))
  }

  method TrafficPayloadSHA256(digest: TrafficBatch -> string, batch: TrafficBatch) returns (sha256: string)
    ensures IsPayloadHash(digest, batch, sha256)
  {
    var items := SortSlice(batch.items, ItemKey);
    sha256 := digest(batch.(sha256 := "", items := items));
  }

  /** The hash ignores item order whenever the (subscriber, inbound, generation) keys are distinct. */
  lemma PayloadHashIgnoresItemOrder(digest: TrafficBatch -> string, batch: TrafficBatch, items: seq<TrafficItem>,
      h1: string, h2: string)
    requires multiset(items) == multiset(batch.items) && KeysSeparate(batch.items, ItemKey)
    requires IsPayloadHash(digest, batch, h1) && IsPayloadHash(digest, batch.(items := items, sha256 := h1), h2)
    ensures h1 == h2
  {
    var xs :| SortResult(batch.items, xs, ItemKey) && h1 == digest(batch.(sha256 := "", items := xs));
    var ys :| SortResult(items, ys, ItemKey) && h2 == digest(batch.(sha256 := "", items := ys));
    SameMembers(batch.items, xs);
    SortResultUnique(xs, ys, ItemKey);
  }

  /** A drained batch is already in canonical order: its hash is the digest of the batch as it stands. */
  lemma DrainedHash(digest: TrafficBatch -> string, batch: TrafficBatch, acc: Accumulator, sha256: string)
    requires AllExact(acc) && batch.items == Items(acc, SelectKeys(acc)) && batch.sha256 == ""
    requires IsPayloadHash(digest, batch, sha256)
    ensures sha256 == digest(batch) && KeysSeparate(batch.items, ItemKey)
  {
    var ks, items := SelectKeys(acc), batch.items;
    SelectKeysCorrect(acc);
    forall i, j | 0 <= i < j < |items|
        ensures !Less(ItemKey(items[j]), ItemKey(items[i])) && ItemKey(items[i]) != ItemKey(items[j]) {
      LessAsymmetric(OrderKey(ks[i]), OrderKey(ks[j]));
    }
    var xs :| SortResult(items, xs, ItemKey) && sha256 == digest(batch.(sha256 := "", items := xs));
    SortResultUnique(items, xs, ItemKey);
  }

  // ----- The ledger

  /**
   The traffic tables, with the history they account for: every delta accepted, every batch drained, and the number
   of every acknowledgement that committed.
   */
  datatype Ledger = Ledger(acc: Accumulator, wal: Wal<TrafficBatch>, sequence: nat,
                           accepted: seq<Delta>, drained: seq<TrafficBatch>, acknowledged: set<nat>)

  const EMPTY := Ledger(map[], [], 0, [], [], {})

  predicate ValidWindow(startedAt: StoredTime, endedAt: StoredTime) {
    startedAt.instant != 0 && endedAt.instant != 0 && startedAt.instant < endedAt.instant
  }

  /** The next batch before its hash is filled in. */
  ghost function Unhashed(l: Ledger, boot: string, configVersion: nat, now: StoredTime): TrafficBatch
    requires AllExact(l.acc)
  {
    var ks := SelectKeys(l.acc);
    var last := LatestEnd(l.acc, ks);
    var end := if last == 0 then now.instant else last;
    TrafficBatch(boot, l.sequence + 1, configVersion, IntervalStart(EarliestStart(l.acc, ks), end), end, "",
                 Items(l.acc, ks))
  }

  ghost function NextBatch(l: Ledger, boot: string, configVersion: nat, now: StoredTime,
      digest: TrafficBatch -> string): TrafficBatch
    requires AllExact(l.acc)
  {
    var batch := Unhashed(l, boot, configVersion, now);
    batch.(sha256 := digest(batch))
  }

  function RowOf(b: TrafficBatch, now: StoredTime, enc: Encoding<TrafficBatch>): Row<TrafficBatch> {
    Row(b.boot, b.sequence, b.sha256, b, now.text, enc.jsonSize(b))
  }

  /** One transaction; `fails` is a database error at any point of it. */
  datatype Op =
    | AddWindow(deltas: seq<Delta>, startedAt: StoredTime, endedAt: StoredTime, fails: bool)
    | Drain(boot: string, configVersion: nat, now: StoredTime, fails: bool)
    | Acknowledge(boot: string, sequence: nat, hash: string, fails: bool)

  predicate Commits(l: Ledger, op: Op) {
    match op
    case AddWindow(deltas, s, e, fails) => ValidWindow(s, e) && (deltas == [] || (AllStorable(deltas) && !fails))
    case Drain(_, _, _, fails) => AllExact(l.acc) && !fails
    case Acknowledge(boot, sequence, hash, fails) =>
      !fails && exists r :: r in l.wal && Matches(r, boot, sequence, hash)
  }

  ghost function Step(l: Ledger, op: Op, enc: Encoding<TrafficBatch>): Ledger {
    if !Commits(l, op) then l else
      match op
      case AddWindow(deltas, s, e, _) => l.(acc := UpsertAll(l.acc, deltas, s, e), accepted := l.accepted + deltas)
      case Drain(boot, configVersion, now, _) =>
        if l.acc == map[] then l
        else
          var b := NextBatch(l, boot, configVersion, now, enc.digest);
          l.(acc := map[], wal := Insert(l.wal, RowOf(b, now, enc)), sequence := l.sequence + 1,
             drained := l.drained + [b])
      case Acknowledge(boot, sequence, hash, _) =>
        l.(wal := Delete(l.wal, boot, sequence, hash), acknowledged := l.acknowledged + {sequence})
  }

  ghost function Numbers(batches: seq<TrafficBatch>): set<nat> {
    set b | b in batches :: b.sequence
  }

  ghost predicate RowsAreDrained(l: Ledger) {
    && l.sequence == |l.drained|
    && (forall i :: 0 <= i < |l.drained| ==> l.drained[i].sequence == i + 1)
    && Sorted(l.wal) && DistinctSequences(l.wal)
    && (forall r :: r in l.wal ==> 1 <= r.sequence <= |l.drained| && r.batch == l.drained[r.sequence - 1]
                                   && r.boot == r.batch.boot && r.hash == r.batch.sha256)
  }

  /** Bytes accepted for a key and not yet in any batch. */
  ghost function Undrained(l: Ledger, k: TrafficKey, dir: Direction): int {
    DeltaTotal(l.accepted, k, dir) - BatchTotal(l.drained, Numbers(l.drained), k, dir)
  }

  /** The accumulator holds exactly the undrained bytes, or a REAL precisely when they exceed int64. */
  ghost predicate Balanced(l: Ledger, k: TrafficKey, dir: Direction) {
    var n := Undrained(l, k, dir);
    n >= 0 && CellOf(l.acc, k, dir) == if n <= MAX_INT64 then Exact(n) else Inexact
  }

  /** Every drained batch is either pending or was acknowledged, and none is both. */
  ghost predicate Settled(l: Ledger) {
    Sequences(l.wal) !! l.acknowledged && Sequences(l.wal) + l.acknowledged == Numbers(l.drained)
  }

  ghost predicate Valid(l: Ledger) {
    RowsAreDrained(l) && Settled(l) && forall k, dir :: Balanced(l, k, dir)
  }

  lemma AddKeepsBalance(l: Ledger, deltas: seq<Delta>, s: StoredTime, e: StoredTime, k: TrafficKey, dir: Direction)
    requires Balanced(l, k, dir) && AllStorable(deltas)
    ensures Balanced(l.(acc := UpsertAll(l.acc, deltas, s, e), accepted := l.accepted + deltas), k, dir)
  {
    UpsertAllAdds(l.acc, deltas, s, e, k, dir);
    DeltaTotalAppend(l.accepted, deltas, k, dir);
  }

  lemma AppendBatchTotal(batches: seq<TrafficBatch>, b: TrafficBatch, k: TrafficKey, dir: Direction)
    ensures BatchTotal(batches + [b], Numbers(batches + [b]), k, dir)
         == BatchTotal(batches, Numbers(batches), k, dir) + ItemTotal(b.items, k, dir)
  {
    var all := batches + [b];
    assert all[..|batches|] == batches && all[|batches|] == b && b in all;
    forall i | 0 <= i < |batches|
      ensures batches[i].sequence in Numbers(batches) && batches[i].sequence in Numbers(all)
    {
      assert all[i] == batches[i] && all[i] in all;
    }
    BatchTotalSame(batches, Numbers(batches), Numbers(all), k, dir);
  }

  lemma DrainedItemsTotal(acc: Accumulator, k: TrafficKey, dir: Direction)
    requires AllExact(acc)
    ensures CellOf(acc, k, dir).Exact? && ItemTotal(Items(acc, SelectKeys(acc)), k, dir) == CellOf(acc, k, dir).bytes
  {
    SelectKeysCorrect(acc);
    ItemsTotal(acc, SelectKeys(acc), k, dir);
  }

  lemma DrainKeepsBalance(l: Ledger, l': Ledger, b: TrafficBatch, k: TrafficKey, dir: Direction)
    requires Balanced(l, k, dir) && CellOf(l.acc, k, dir) == Exact(ItemTotal(b.items, k, dir))
    requires l'.acc == map[] && l'.accepted == l.accepted && l'.drained == l.drained + [b]
    ensures Balanced(l', k, dir)
  {
    AppendBatchTotal(l.drained, b, k, dir);
  }

  lemma DrainKeepsRows(l: Ledger, row: Row<TrafficBatch>, l': Ledger)
    requires RowsAreDrained(l)
    requires row.sequence == row.batch.sequence == |l.drained| + 1 && row.boot == row.batch.boot
             && row.hash == row.batch.sha256
    requires l'.wal == Insert(l.wal, row) && l'.sequence == row.sequence && l'.drained == l.drained + [row.batch]
    ensures RowsAreDrained(l')
  {
    InsertKeepsOrder(l.wal, row);
    InsertKeepsDistinct(l.wal, row);
    forall r | r in l'.wal ensures r == row || r in l.wal {
      InsertMember(l.wal, row, r);
    }
  }

  lemma NumbersAppend(batches: seq<TrafficBatch>, b: TrafficBatch)
    ensures Numbers(batches + [b]) == Numbers(batches) + {b.sequence}
  {
    var all := batches + [b];
    forall n ensures n in Numbers(all) <==> n in Numbers(batches) + {b.sequence} {
      if n in Numbers(batches) {
        var c :| c in batches && c.sequence == n;
        assert c in all;
      }
      assert b in all;
    }
  }

  /** A drain makes one new number pending, and an acknowledgement that commits moves one pending number over. */
  lemma StepKeepsSettled(l: Ledger, op: Op, enc: Encoding<TrafficBatch>)
    requires RowsAreDrained(l) && Settled(l)
    ensures Settled(Step(l, op, enc))
  {
    match op
    case AddWindow(_, _, _, _) =>
    case Drain(boot, configVersion, now, _) =>
      if Commits(l, op) && l.acc != map[] {
        var b := NextBatch(l, boot, configVersion, now, enc.digest);
        InsertAddsNumber(l.wal, RowOf(b, now, enc));
        NumbersAppend(l.drained, b);
        NumbersUpTo(l);
      }
    case Acknowledge(boot, sequence, hash, _) =>
      if Commits(l, op) {
        DeleteRemovesNumber(l.wal, boot, sequence, hash);
        var r :| r in l.wal && Matches(r, boot, sequence, hash);
        assert sequence in Sequences(l.wal);
      }
  }

  lemma NumbersUpTo(l: Ledger)
    requires RowsAreDrained(l)
    ensures |l.drained| + 1 !in Numbers(l.drained)
  {}

  lemma AcknowledgeKeepsRows(l: Ledger, boot: string, sequence: nat, hash: string)
    requires RowsAreDrained(l)
    ensures RowsAreDrained(l.(wal := Delete(l.wal, boot, sequence, hash)))
  {
    DeleteKeepsOrder(l.wal, boot, sequence, hash);
    DeleteKeepsDistinct(l.wal, boot, sequence, hash);
    forall r | r in Delete(l.wal, boot, sequence, hash) ensures r in l.wal {
      DeleteMember(l.wal, boot, sequence, hash, r);
    }
  }

  lemma StepKeepsRows(l: Ledger, op: Op, enc: Encoding<TrafficBatch>)
    requires RowsAreDrained(l)
    ensures RowsAreDrained(Step(l, op, enc))
  {
    match op
    case AddWindow(_, _, _, _) =>
    case Drain(boot, configVersion, now, _) =>
      if Commits(l, op) && l.acc != map[] {
        DrainKeepsRows(l, RowOf(NextBatch(l, boot, configVersion, now, enc.digest), now, enc), Step(l, op, enc));
      }
    case Acknowledge(boot, sequence, hash, _) =>
      AcknowledgeKeepsRows(l, boot, sequence, hash);
  }

  /** Every transaction, committed or rolled back, keeps the ledger balanced. */
  lemma StepKeepsValid(l: Ledger, op: Op, enc: Encoding<TrafficBatch>)
    requires Valid(l)
    ensures Valid(Step(l, op, enc))
  {
    var l' := Step(l, op, enc);
    StepKeepsRows(l, op, enc);
    StepKeepsSettled(l, op, enc);
    forall k, dir ensures Balanced(l', k, dir) {
      assert Balanced(l, k, dir);
      match op
      case AddWindow(deltas, s, e, _) =>
        if Commits(l, op) {
          assert AllStorable(deltas);
          AddKeepsBalance(l, deltas, s, e, k, dir);
        }
      case Drain(boot, configVersion, now, _) =>
        if Commits(l, op) && l.acc != map[] {
          DrainedItemsTotal(l.acc, k, dir);
          DrainKeepsBalance(l, l', NextBatch(l, boot, configVersion, now, enc.digest), k, dir);
        }
      case Acknowledge(_, _, _, _) =>
    }
  }

  ghost function Run(l: Ledger, ops: seq<Op>, enc: Encoding<TrafficBatch>): Ledger {
    if ops == [] then l else Step(Run(l, ops[..|ops| - 1], enc), ops[|ops| - 1], enc)
  }

  lemma {:induction false} RunKeepsValid(ops: seq<Op>, enc: Encoding<TrafficBatch>)
    ensures Valid(Run(EMPTY, ops, enc))
  {
    if ops == [] {
      assert forall k, dir :: Balanced(EMPTY, k, dir);
    } else {
      RunKeepsValid(ops[..|ops| - 1], enc);
      StepKeepsValid(Run(EMPTY, ops[..|ops| - 1], enc), ops[|ops| - 1], enc);
    }
  }

  /**
   In every reachable state, for every key and direction: bytes accepted are the accumulator plus the pending batches
   plus the batches whose acknowledgement committed, as long as the undrained bytes fit an INTEGER column; every
   drained batch is in exactly one of the two.
   */
  lemma TrafficLedger(ops: seq<Op>, enc: Encoding<TrafficBatch>, k: TrafficKey, dir: Direction)
    ensures var l := Run(EMPTY, ops, enc);
            var pending, acknowledged := Sequences(l.wal), l.acknowledged;
            var cell := CellOf(l.acc, k, dir);
            var held := BatchTotal(l.drained, pending, k, dir) + BatchTotal(l.drained, acknowledged, k, dir);
            && pending !! acknowledged && pending + acknowledged == Numbers(l.drained)
            && (cell.Exact? ==> DeltaTotal(l.accepted, k, dir) == cell.bytes + held)
            && (cell.Inexact? <==> DeltaTotal(l.accepted, k, dir) - held > MAX_INT64)
  {
    var l := Run(EMPTY, ops, enc);
    RunKeepsValid(ops, enc);
    assert Balanced(l, k, dir);
    BatchTotalSplit(l.drained, Sequences(l.wal), l.acknowledged, k, dir);
  }

  /** Rejected windows, faults, and mismatched or repeated acknowledgements change nothing. */
  lemma RejectedStepChangesNothing(l: Ledger, op: Op, enc: Encoding<TrafficBatch>)
    requires Valid(l)
    ensures !Commits(l, op) ==> Step(l, op, enc) == l
    ensures op.Acknowledge? ==> var l' := Step(l, op, enc); !Commits(l', op) && Step(l', op, enc) == l'
  {
    if op.Acknowledge? && Commits(l, op) {
      var l' := Step(l, op, enc);
      forall r | r in l'.wal ensures !Matches(r, op.boot, op.sequence, op.hash) {
        DeleteMember(l.wal, op.boot, op.sequence, op.hash, r);
      }
    }
  }

  /** A window commits exactly if it is one and, unless it is empty, every delta can be stored and nothing fails. */
  lemma WindowCommitsExactly(l: Ledger, deltas: seq<Delta>, s: StoredTime, e: StoredTime, fails: bool)
    ensures Commits(l, AddWindow(deltas, s, e, fails)) <==>
              && s.instant != 0 && e.instant != 0 && s.instant < e.instant
              && (deltas != [] ==>
                  && !fails
                  && forall d :: d in deltas ==>
                       && d.key.subscriber > 0 && d.key.inbound > 0
                       && d.key.generation <= MAX_INT64 && d.upload <= MAX_INT64 && d.download <= MAX_INT64)
  {
    if forall d :: d in deltas ==> Storable(d) {
      assert AllStorable(deltas);
    } else {
      var d :| d in deltas && !Storable(d);
      var i :| 0 <= i < |deltas| && deltas[i] == d;
    }
  }

  /** A window that commits adds each of its deltas to its own key, and touches neither log nor numbers. */
  lemma WindowAdds(l: Ledger, deltas: seq<Delta>, s: StoredTime, e: StoredTime, enc: Encoding<TrafficBatch>,
      k: TrafficKey, dir: Direction)
    requires Valid(l) && Commits(l, AddWindow(deltas, s, e, false))
    ensures var l' := Step(l, AddWindow(deltas, s, e, false), enc);
            && l'.accepted == l.accepted + deltas
            && CellOf(l'.acc, k, dir) == CellAdd(CellOf(l.acc, k, dir), DeltaTotal(deltas, k, dir))
            && l' == l.(acc := l'.acc, accepted := l'.accepted)
  {
    assert Balanced(l, k, dir);
    if deltas != [] {
      assert AllStorable(deltas);
    }
    UpsertAllAdds(l.acc, deltas, s, e, k, dir);
  }

  /** The batch has an item for exactly the keys with a row, and the item's bytes are the row's. */
  ghost predicate CarriesRows(b: TrafficBatch, acc: Accumulator) {
    && (forall k :: k in acc <==> exists i :: 0 <= i < |b.items| && b.items[i].key == k)
    && (forall k, dir :: CellOf(acc, k, dir) == Exact(ItemTotal(b.items, k, dir)))
  }

  /** What a row of the log says of its batch. */
  predicate Files(r: Row<TrafficBatch>, b: TrafficBatch, now: StoredTime, enc: Encoding<TrafficBatch>) {
    && r.batch == b && r.boot == b.boot && r.sequence == b.sequence && r.hash == b.sha256
    && r.createdAt == now.text && r.size == enc.jsonSize(b)
  }

  /**
   A drain that commits with rows to drain: they all move into one new batch under the next number, which carries its
   own hash, and one new row files it; every older row stays as it is.
   */
  lemma DrainMovesRows(l: Ledger, boot: string, configVersion: nat, now: StoredTime, enc: Encoding<TrafficBatch>)
    requires Valid(l) && AllExact(l.acc) && l.acc != map[]
    ensures Commits(l, Drain(boot, configVersion, now, false))
    ensures var l' := Step(l, Drain(boot, configVersion, now, false), enc);
            && l'.acc == map[] && l'.accepted == l.accepted && l'.acknowledged == l.acknowledged
            && |l'.drained| == |l.drained| + 1 && l'.drained[..|l.drained|] == l.drained
            && var b := l'.drained[|l.drained|];
            && b.boot == boot && b.sequence == |l.drained| + 1 == l'.sequence && b.configVersion == configVersion
            && b.sha256 == enc.digest(b.(sha256 := "")) && CarriesRows(b, l.acc)
            && forall r :: r in l'.wal <==> r in l.wal || (r in l'.wal && Files(r, b, now, enc))
    ensures var l' := Step(l, Drain(boot, configVersion, now, false), enc);
            exists r :: r in l'.wal && Files(r, l'.drained[|l.drained|], now, enc)
  {
    var b := NextBatch(l, boot, configVersion, now, enc.digest);
    var row := RowOf(b, now, enc);
    forall r ensures r in Insert(l.wal, row) <==> r == row || r in l.wal {
      InsertMember(l.wal, row, r);
    }
    assert b.(sha256 := "") == Unhashed(l, boot, configVersion, now);
    DrainCarriesRows(l.acc, b);
    assert row in Insert(l.wal, row) && Files(row, b, now, enc);
  }

  lemma DrainCarriesRows(acc: Accumulator, b: TrafficBatch)
    requires AllExact(acc) && b.items == Items(acc, SelectKeys(acc))
    ensures CarriesRows(b, acc)
  {
    var ks := SelectKeys(acc);
    SelectKeysCorrect(acc);
    forall k ensures k in acc <==> exists i :: 0 <= i < |b.items| && b.items[i].key == k {
      if k in acc {
        var i :| 0 <= i < |ks| && ks[i] == k;
        assert b.items[i].key == k;
      }
    }
    forall k, dir ensures CellOf(acc, k, dir) == Exact(ItemTotal(b.items, k, dir)) {
      DrainedItemsTotal(acc, k, dir);
    }
  }

  /** A drain fails exactly on a database error or an inexact counter; without rows it does nothing. */
  lemma DrainCommitsExactly(l: Ledger, boot: string, configVersion: nat, now: StoredTime, fails: bool,
      enc: Encoding<TrafficBatch>)
    ensures Commits(l, Drain(boot, configVersion, now, fails)) <==>
              !fails && forall k :: k in l.acc ==> l.acc[k].upload.Exact? && l.acc[k].download.Exact?
    ensures l.acc == map[] ==> Step(l, Drain(boot, configVersion, now, fails), enc) == l
  {}

  /** An acknowledgement takes exactly if a row has this boot, number and hash; it deletes such rows and no others. */
  lemma AcknowledgeSettlesExactly(l: Ledger, boot: string, sequence: nat, hash: string, fails: bool,
      enc: Encoding<TrafficBatch>)
    ensures Commits(l, Acknowledge(boot, sequence, hash, fails)) <==>
              !fails && exists r :: r in l.wal && r.boot == boot && r.sequence == sequence && r.hash == hash
    ensures var l' := Step(l, Acknowledge(boot, sequence, hash, false), enc);
            && l' == l.(wal := l'.wal, acknowledged := l'.acknowledged)
            && forall r :: r in l'.wal <==> r in l.wal && !(r.boot == boot && r.sequence == sequence && r.hash == hash)
  {
    forall r ensures r in Delete(l.wal, boot, sequence, hash) <==> r in l.wal && !Matches(r, boot, sequence, hash) {
      DeleteMember(l.wal, boot, sequence, hash, r);
    }
  }

  /** Once some key's undrained bytes pass int64, every later drain fails: nothing is lost, nothing leaves. */
  lemma {:induction false} OverflowBlocksDraining(l: Ledger, ops: seq<Op>, enc: Encoding<TrafficBatch>)
    requires !AllExact(l.acc)
    ensures var l' := Run(l, ops, enc); !AllExact(l'.acc) && l'.drained == l.drained
  {
    if ops != [] {
      var n := |ops| - 1;
      OverflowBlocksDraining(l, ops[..n], enc);
      var m, op := Run(l, ops[..n], enc), ops[n];
      if Commits(m, op) && op.AddWindow? {
        var k :| k in m.acc && !(m.acc[k].upload.Exact? && m.acc[k].download.Exact?);
        InexactStays(m.acc, op.deltas, op.startedAt, op.endedAt, k);
      }
    }
  }

  lemma {:induction false} InexactStays(acc: Accumulator, deltas: seq<Delta>, s: StoredTime, e: StoredTime,
      k: TrafficKey)
    requires k in acc && !(acc[k].upload.Exact? && acc[k].download.Exact?)
    ensures var r := UpsertAll(acc, deltas, s, e); k in r && !(r[k].upload.Exact? && r[k].download.Exact?)
  {
    if deltas != [] {
      InexactStays(acc, deltas[..|deltas| - 1], s, e, k);
    }
  }

  /** Every row has a window. */
  ghost predicate TimesSet(acc: Accumulator) {
    forall k :: k in acc ==> acc[k].startedAt.instant != 0 && acc[k].updatedAt.instant != 0
  }

  lemma {:induction false} UpsertAllSetsTimes(acc: Accumulator, deltas: seq<Delta>, s: StoredTime, e: StoredTime)
    requires TimesSet(acc) && ValidWindow(s, e)
    ensures TimesSet(UpsertAll(acc, deltas, s, e))
  {
    if deltas != [] {
      UpsertAllSetsTimes(acc, deltas[..|deltas| - 1], s, e);
    }
  }

  lemma {:induction false} RunSetsTimes(ops: seq<Op>, enc: Encoding<TrafficBatch>)
    ensures TimesSet(Run(EMPTY, ops, enc).acc)
  {
    if ops != [] {
      var l, op := Run(EMPTY, ops[..|ops| - 1], enc), ops[|ops| - 1];
      RunSetsTimes(ops[..|ops| - 1], enc);
      if op.AddWindow? && Commits(l, op) {
        UpsertAllSetsTimes(l.acc, op.deltas, op.startedAt, op.endedAt);
      }
    }
  }

  lemma {:induction false} ExtremesBoundRows(acc: Accumulator, ks: seq<TrafficKey>, i: nat)
    requires i < |ks| && TimesSet(acc) && forall j :: 0 <= j < |ks| ==> ks[j] in acc
    ensures EarliestStart(acc, ks) != 0 && EarliestStart(acc, ks) <= acc[ks[i]].startedAt.instant
    ensures acc[ks[i]].updatedAt.instant <= LatestEnd(acc, ks)
  {
    var n := |ks| - 1;
    if n > 0 {
      ExtremesBoundRows(acc, ks[..n], if i < n then i else 0);
    }
  }

  lemma {:induction false} LatestEndAfterZero(acc: Accumulator, ks: seq<TrafficKey>)
    requires forall j :: 0 <= j < |ks| ==> ks[j] in acc
    ensures LatestEnd(acc, ks) >= 0
    ensures LatestEnd(acc, ks) > 0 <==> exists i :: 0 <= i < |ks| && acc[ks[i]].updatedAt.instant > 0
  {
    if ks != [] {
      var n := |ks| - 1;
      LatestEndAfterZero(acc, ks[..n]);
      if i :| 0 <= i < n && acc[ks[..n][i]].updatedAt.instant > 0 {
        assert acc[ks[i]].updatedAt.instant > 0;
      }
    }
  }

  /**
   In every reachable state with rows to drain: the batch's interval is not empty and covers the start of every row's
   window; it covers every end exactly when one of them is after Go's zero time or the clock reading is at least as late
   as all of them.
   */
  lemma DrainedIntervalCoversRows(ops: seq<Op>, enc: Encoding<TrafficBatch>, boot: string, configVersion: nat,
      now: StoredTime)
    requires var l := Run(EMPTY, ops, enc); AllExact(l.acc) && l.acc != map[]
    ensures var l := Run(EMPTY, ops, enc);
            var b := NextBatch(l, boot, configVersion, now, enc.digest);
            && b.intervalStart < b.intervalEnd
            && (forall k :: k in l.acc ==> b.intervalStart <= l.acc[k].startedAt.instant)
            && ((forall k :: k in l.acc ==> l.acc[k].updatedAt.instant <= b.intervalEnd) <==>
                (exists k :: k in l.acc && l.acc[k].updatedAt.instant > 0)
                    || (forall k :: k in l.acc ==> l.acc[k].updatedAt.instant <= now.instant))
  {
    RunSetsTimes(ops, enc);
    RowsWithinExtremes(Run(EMPTY, ops, enc).acc);
  }

  lemma RowsWithinExtremes(acc: Accumulator)
    requires TimesSet(acc) && acc != map[]
    ensures var first, last := EarliestStart(acc, SelectKeys(acc)), LatestEnd(acc, SelectKeys(acc));
            && first != 0 && last >= 0
            && (forall k :: k in acc ==> first <= acc[k].startedAt.instant && acc[k].updatedAt.instant <= last)
            && (last > 0 <==> exists k :: k in acc && acc[k].updatedAt.instant > 0)
  {
    var ks := SelectKeys(acc);
    SelectKeysCorrect(acc);
    LatestEndAfterZero(acc, ks);
    forall k | k in acc
      ensures EarliestStart(acc, ks) != 0 && EarliestStart(acc, ks) <= acc[k].startedAt.instant
      ensures acc[k].updatedAt.instant <= LatestEnd(acc, ks)
    {
      var i :| 0 <= i < |ks| && ks[i] == k;
      ExtremesBoundRows(acc, ks, i);
    }
    if k :| k in acc && acc[k].updatedAt.instant > 0 {
      assert k in ks;
    }
    var k :| k in acc;
  }

  // ----- The store

  class TrafficStore {
    const enc: Encoding<TrafficBatch>
    var acc: Accumulator
    var wal: Wal<TrafficBatch>
    var sequence: nat
    ghost var accepted: seq<Delta>
    ghost var drained: seq<TrafficBatch>
    ghost var acknowledged: set<nat>

    ghost function Model(): Ledger
      reads this
    {
      Ledger(acc, wal, sequence, accepted, drained, acknowledged)
    }

    constructor (enc: Encoding<TrafficBatch>)
      ensures this.enc == enc && Model() == EMPTY
    {
      this.enc := enc;
      acc, wal, sequence, accepted, drained, acknowledged := map[], [], 0, [], [], {};
    }

    method AddTrafficWindow(deltas: seq<Delta>, startedAt: StoredTime, endedAt: StoredTime, fails: bool)
        returns (ok: bool)
      modifies this
      ensures ok == Commits(old(Model()), AddWindow(deltas, startedAt, endedAt, fails))
      ensures Model() == Step(old(Model()), AddWindow(deltas, startedAt, endedAt, fails), enc)
    {
      if startedAt.instant == 0 || endedAt.instant == 0 || !(endedAt.instant > startedAt.instant) {
        return false;
      }
      if |deltas| == 0 {
        assert accepted + deltas == accepted;
        return true;
      }
      var tx := acc;
      for i := 0 to |deltas|
        invariant tx == UpsertAll(acc, deltas[..i], startedAt, endedAt) && AllStorable(deltas[..i])
        invariant Model() == old(Model())
      {
        if !Storable(deltas[i]) {
          return false;
        }
        tx := Upsert(tx, deltas[i], startedAt, endedAt);
        assert deltas[..i + 1][..i] == deltas[..i];
      }
      assert deltas[..|deltas|] == deltas;
      if fails {
        return false;
      }
      acc, accepted := tx, accepted + deltas;
      return true;
    }

    /** The row loop of a drain: items and interval extremes, or a scan error on a REAL. */
    method ScanRows(ks: seq<TrafficKey>) returns (ok: bool, items: seq<TrafficItem>, first: int, last: int)
      requires forall k :: k in ks <==> k in acc
      ensures ok <==> AllExact(acc)
      ensures ok ==> items == Items(acc, ks) && first == EarliestStart(acc, ks) && last == LatestEnd(acc, ks)
    {
      items, first, last := [], 0, 0;
      for i := 0 to |ks|
        invariant forall j :: 0 <= j < i ==> acc[ks[j]].upload.Exact? && acc[ks[j]].download.Exact?
        invariant |items| == i && forall j :: 0 <= j < i ==>
                items[j] == TrafficItem(ks[j], acc[ks[j]].upload.bytes, acc[ks[j]].download.bytes)
        invariant first == EarliestStart(acc, ks[..i]) && last == LatestEnd(acc, ks[..i])
      {
        assert ks[i] in ks;
        var row := acc[ks[i]];
        if row.upload.Inexact? || row.download.Inexact? {
          return false, [], 0, 0;
        }
        assert ks[..i + 1][..i] == ks[..i];
        var started, ended := row.startedAt.instant, row.updatedAt.instant;
        if first == 0 || started < first {
          first := started;
        }
        if ended > last {
          last := ended;
        }
        items := items + [TrafficItem(ks[i], row.upload.bytes, row.download.bytes)];
      }
      assert ks[..|ks|] == ks;
      ok := true;
    }

    method SelectRows() returns (ok: bool, items: seq<TrafficItem>, first: int, last: int)
      ensures ok <==> AllExact(acc)
      ensures ok ==> var ks := SelectKeys(acc);
                     items == Items(acc, ks) && first == EarliestStart(acc, ks) && last == LatestEnd(acc, ks)
    {
      SelectKeysCorrect(acc);
      OrderKeySeparates(acc.Keys);
      var ks := SelectOrdered(acc.Keys, OrderKey);
      ok, items, first, last := ScanRows(ks);
    }

    /** The batch a drain would write: none when the accumulator is empty, an error on a REAL. */
    method BuildBatch(boot: string, configVersion: nat, now: StoredTime) returns (ok: bool, batch: Option<TrafficBatch>)
      ensures ok <==> AllExact(acc)
      ensures batch.Some? <==> ok && acc != map[]
      ensures batch.Some? ==> batch.value == NextBatch(Model(), boot, configVersion, now, enc.digest)
    {
      var scanned, items, first, last := SelectRows();
      if !scanned {
        return false, None;
      }
      NothingToSelect(acc);
      if |items| == 0 {
        return true, None;
      }
      if last == 0 {
        last := now.instant;
      }
      if first == 0 || !(last > first) {
        first := last - NANOS_PER_SECOND;
      }
      var b := TrafficBatch(boot, sequence + 1, configVersion, first, last, "", items);
      assert b == Unhashed(Model(), boot, configVersion, now);
      var sha256 := HashDrained(b);
      return true, Some(b.(sha256 := sha256));
    }

    method HashDrained(b: TrafficBatch) returns (sha256: string)
      requires AllExact(acc) && b.items == Items(acc, SelectKeys(acc)) && b.sha256 == ""
      ensures sha256 == enc.digest(b)
    {
      sha256 := TrafficPayloadSHA256(enc.digest, b);
      DrainedHash(enc.digest, b, acc, sha256);
    }

    method DrainTraffic(boot: string, configVersion: nat, now: StoredTime, fails: bool)
        returns (ok: bool, batch: Option<TrafficBatch>)
      modifies this
      ensures ok == Commits(old(Model()), Drain(boot, configVersion, now, fails))
      ensures Model() == Step(old(Model()), Drain(boot, configVersion, now, fails), enc)
      ensures batch.Some? <==> ok && old(acc) != map[]
      ensures batch.Some? ==> drained == old(drained) + [batch.value]
    {
      ok, batch := BuildBatch(boot, configVersion, now);
      if !ok || fails {
        return false, None;
      }
      if batch.Some? {
        wal := Insert(wal, RowOf(batch.value, now, enc));
        sequence := sequence + 1;
        drained := drained + [batch.value];
        acc := map[];
      }
    }

    method PendingTraffic(limit: int) returns (batches: seq<TrafficBatch>)
      ensures |batches| == |Pending(wal, limit)| && forall i :: 0 <= i < |batches| ==> batches[i] == wal[i].batch
    {
      var rows := Pending(wal, limit);
      batches := seq(|rows|, i requires 0 <= i < |rows| => rows[i].batch);
    }

    method AcknowledgeTraffic(boot: string, sequence: nat, hash: string, fails: bool) returns (ok: bool)
      modifies this`wal, this`acknowledged
      ensures ok == Commits(old(Model()), Acknowledge(boot, sequence, hash, fails))
      ensures Model() == Step(old(Model()), Acknowledge(boot, sequence, hash, fails), enc)
    {
      if fails {
        return false;
      }
      ok := exists i :: 0 <= i < |wal| && Matches(wal[i], boot, sequence, hash);
      if ok {
        wal, acknowledged := Delete(wal, boot, sequence, hash), acknowledged + {sequence};
      }
    }
  }
}
