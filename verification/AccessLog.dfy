/**
 Access-session accounting: observations merge into one row per session, rows are drained a thousand
 at a time into numbered batches, and batches wait for an acknowledgement unless they are pruned.
 */
module AccessLog {
  import opened Ordering
  import opened Text
  import opened Stamps
  import opened WriteAheadLog
  import opened CanonicalForms
  import opened AccessRows

  const MAX_BATCH_ITEMS := 1000
  const MAX_WAL_BATCHES := 1440
  const MAX_WAL_BYTES := 0x400_0000
  const MAX_INPUT_ITEMS := 20000

  type Accumulator = map<string, AccessItem>

  datatype AccessBatch = AccessBatch(boot: string, sequence: nat, configVersion: nat, intervalStart: int,
                                     intervalEnd: int, sha256: string, items: seq<AccessItem>)

  /** One row per session key, its counters within the columns' limits. */
  ghost predicate Keyed(acc: Accumulator) {
    forall k :: k in acc ==> acc[k].sessionKey == k && ValidCounters(acc[k])
  }

  predicate AllValid(items: seq<AccessItem>) {
    forall n :: 0 <= n < |items| ==> AccessRows.Valid(items[n])
  }

  function Upsert(acc: Accumulator, i: AccessItem): Accumulator
    requires ValidCounters(i) && (i.sessionKey in acc ==> ValidCounters(acc[i.sessionKey]))
  {
    acc[i.sessionKey := if i.sessionKey in acc then Merge(acc[i.sessionKey], i) else i]
  }

  ghost function UpsertAll(acc: Accumulator, items: seq<AccessItem>): (r: Accumulator)
    requires Keyed(acc) && AllValid(items)
    ensures Keyed(r)
  {
    if items == [] then acc else Upsert(UpsertAll(acc, items[..|items| - 1]), items[|items| - 1])
  }

  lemma UpsertOneMore(acc: Accumulator, items: seq<AccessItem>, n: nat)
    requires Keyed(acc) && n < |items| && AllValid(items[..n]) && AccessRows.Valid(items[n])
    ensures AllValid(items[..n + 1]) && UpsertAll(acc, items[..n + 1]) == Upsert(UpsertAll(acc, items[..n]), items[n])
  {
    assert items[..n + 1][..n] == items[..n];
  }

  function Lookup(acc: Accumulator, k: string): Option<AccessItem> {
    if k in acc then Some(acc[k]) else None
  }

  function OfSession(items: seq<AccessItem>, k: string): seq<AccessItem> {
    if items == [] then []
    else
      var rest := OfSession(items[..|items| - 1], k);
      if items[|items| - 1].sessionKey == k then rest + [items[|items| - 1]] else rest
  }

  lemma {:induction false} OfSessionInRange(items: seq<AccessItem>, k: string)
    requires AllValid(items)
    ensures CountersInRange(OfSession(items, k))
  {
    if items != [] {
      OfSessionInRange(items[..|items| - 1], k);
    }
  }

  /** Every session's row is the fold of its own observations, untouched by the other sessions'. */
  lemma {:induction false} RowsAreFolds(acc: Accumulator, items: seq<AccessItem>, k: string)
    requires Keyed(acc) && AllValid(items)
    ensures CountersInRange(OfSession(items, k))
    ensures Lookup(UpsertAll(acc, items), k) == Fold(Lookup(acc, k), OfSession(items, k))
  {
    OfSessionInRange(items, k);
    if items != [] {
      var n := |items| - 1;
      RowsAreFolds(acc, items[..n], k);
      var own := OfSession(items, k);
      if items[n].sessionKey == k {
        assert own[..|own| - 1] == OfSession(items[..n], k);
      }
    }
  }

  /** Whatever is added, in whatever order and grouping, a session's counters are its exact sums, capped. */
  lemma SessionCountersAreCappedSums(items: seq<AccessItem>, k: string)
    requires AllValid(items)
    ensures Keyed(map[]) && var r := Lookup(UpsertAll(map[], items), k);
            var own := OfSession(items, k);
            (r.None? <==> own == []) &&
            (r.Some? ==>
               && r.value.upload == Min(MAX_INT64, Sum(own, Uploads))
               && r.value.download == Min(MAX_INT64, Sum(own, Downloads))
               && r.value.connections == Min(MAX_INT32, Sum(own, Connections)))
  {
    RowsAreFolds(map[], items, k);
    FoldIsCappedSum(None, OfSession(items, k));
  }

  // ----- Draining

  ghost function SelectKeys(acc: Accumulator): (ks: seq<string>)
    ensures forall i :: 0 <= i < |ks| ==> ks[i] in acc
  {
    CodesSeparate(acc.Keys);
    OrderedByCorrect(acc.Keys, Codes);
    OrderedBy(acc.Keys, Codes)
  }

  lemma SelectKeysCorrect(acc: Accumulator)
    ensures Increasing(SelectKeys(acc), Codes) && |SelectKeys(acc)| == |acc|
    ensures forall k :: k in SelectKeys(acc) <==> k in acc
  {
    CodesSeparate(acc.Keys);
    OrderedByCorrect(acc.Keys, Codes);
    assert |acc.Keys| == |acc|;
  }

  function FirstOf(ks: seq<string>): seq<string> {
    if |ks| <= MAX_BATCH_ITEMS then ks else ks[..MAX_BATCH_ITEMS]
  }

  /** ORDER BY session_key LIMIT 1000 */
  ghost function DrainedKeys(acc: Accumulator): seq<string> {
    FirstOf(SelectKeys(acc))
  }

  ghost function Remaining(acc: Accumulator): Accumulator {
    acc - set k | k in DrainedKeys(acc)
  }

  function Items(acc: Accumulator, ks: seq<string>): seq<AccessItem>
    requires forall i :: 0 <= i < |ks| ==> ks[i] in acc
  {
    seq(|ks|, i requires 0 <= i < |ks| => acc[ks[i]])
  }

  /** A drain splits the rows: the batch takes the smallest keys, at most a thousand, and the rest stay as they were. */
  lemma DrainPartitions(acc: Accumulator)
    ensures var ks, rest := DrainedKeys(acc), Remaining(acc);
            && |ks| == Min(MAX_BATCH_ITEMS, |acc|) && |rest| == |acc| - |ks|
            && (forall k :: k in acc <==> k in ks || k in rest)
            && (forall k :: k in rest ==> k !in ks && rest[k] == acc[k])
            && (forall i, k :: 0 <= i < |ks| && k in rest ==> TextLess(ks[i], k))
  {
    SelectKeysCorrect(acc);
    var all, ks, rest := SelectKeys(acc), DrainedKeys(acc), Remaining(acc);
    var taken := set k | k in ks;
    assert rest.Keys == acc.Keys - taken;
    TakenCount(ks);
    assert taken <= acc.Keys;
    forall i, k | 0 <= i < |ks| && k in rest ensures TextLess(ks[i], k) {
      PrefixPrecedes(all, |ks|, i, k);
    }
  }

  lemma PrefixPrecedes(all: seq<string>, n: nat, i: nat, k: string)
    requires Increasing(all, Codes) && i < n <= |all| && k in all && k !in all[..n]
    ensures TextLess(all[i], k)
  {
    assert all == all[..n] + all[n..];
    var j :| 0 <= j < |all[n..]| && all[n..][j] == k;
    assert all[n + j] == k;
  }

  lemma {:induction false} TakenCount(ks: seq<string>)
    requires Increasing(ks, Codes)
    ensures |set k | k in ks| == |ks|
  {
    if ks != [] {
      var n := |ks| - 1;
      TakenCount(ks[..n]);
      if ks[n] in ks[..n] {
        var i :| 0 <= i < n && ks[..n][i] == ks[n];
        LessIrreflexive(Codes(ks[n]));
        assert false;
      }
      assert (set k | k in ks) == (set k | k in ks[..n]) + {ks[n]};
    }
  }

  /** The accumulator after each of a row of drains with nothing added in between. */
  ghost predicate DrainChain(chain: seq<Accumulator>) {
    chain != [] && forall t :: 0 <= t < |chain| - 1 ==> chain[t + 1] == Remaining(chain[t])
  }

  /** With nothing added, n rows are gone after exactly ceil(n / 1000) drains. */
  lemma DrainsToEmpty(chain: seq<Accumulator>, t: nat)
    requires DrainChain(chain) && t < |chain|
    ensures chain[t] == map[] <==> t >= CeilingDiv(|chain[0]|, MAX_BATCH_ITEMS)
  {
    RowsAfterDrains(chain, t);
    assert |chain[t]| == 0 <==> chain[t] == map[];
  }

  function CeilingDiv(n: nat, d: nat): nat
    requires d > 0
  {
    (n + d - 1) / d
  }

  lemma {:induction false} RowsAfterDrains(chain: seq<Accumulator>, t: nat)
    requires DrainChain(chain) && t < |chain|
    ensures |chain[t]| == if |chain[0]| <= t * MAX_BATCH_ITEMS then 0 else |chain[0]| - t * MAX_BATCH_ITEMS
  {
    if t > 0 {
      RowsAfterDrains(chain, t - 1);
      RemainingCount(chain[t - 1]);
      assert chain[(t - 1) + 1] == Remaining(chain[t - 1]);
    }
  }

  lemma RemainingCount(acc: Accumulator)
    ensures |Remaining(acc)| == if |acc| <= MAX_BATCH_ITEMS then 0 else |acc| - MAX_BATCH_ITEMS
  {
    DrainPartitions(acc);
  }

  // ----- Batches

  function EarliestStart(items: seq<AccessItem>): int {
    if items == [] then 0
    else
      var rest, t := EarliestStart(items[..|items| - 1]), items[|items| - 1].startedAt.instant;
      if rest == 0 || t < rest then t else rest
  }

  function LatestSeen(items: seq<AccessItem>): int {
    if items == [] then 0
    else
      var rest, t := LatestSeen(items[..|items| - 1]), items[|items| - 1].lastSeenAt.instant;
      if t > rest then t else rest
  }

  lemma {:induction false} ExtremesBoundItems(items: seq<AccessItem>, n: nat)
    requires n < |items| && forall m :: 0 <= m < |items| ==> ValidTimes(items[m])
    ensures EarliestStart(items) != 0 && EarliestStart(items) <= items[n].startedAt.instant
    ensures items[n].lastSeenAt.instant <= LatestSeen(items)
  {
    var last := |items| - 1;
    if last > 0 {
      ExtremesBoundItems(items[..last], if n < last then n else 0);
    }
  }

  lemma {:induction false} LatestSeenAfterZero(items: seq<AccessItem>)
    ensures LatestSeen(items) >= 0
    ensures LatestSeen(items) > 0 <==> exists n :: 0 <= n < |items| && items[n].lastSeenAt.instant > 0
  {
    if items != [] {
      var last := |items| - 1;
      LatestSeenAfterZero(items[..last]);
      if n :| 0 <= n < last && items[..last][n].lastSeenAt.instant > 0 {
        assert items[n].lastSeenAt.instant > 0;
      }
    }
  }

  function ItemKey(i: AccessItem): Key {
    Codes(i.sessionKey)
  }

  /** AccessPayloadSHA256 with any arrangement sort.Slice may produce. */
  ghost predicate IsPayloadHash(digest: AccessBatch -> string, batch: AccessBatch, sha256: string) {
    exists items :: SortResult(batch.items, items, ItemKey) && sha256 == digest(batch.(sha256 := "", items := items))
  }

  method AccessPayloadSHA256(digest: AccessBatch -> string, batch: AccessBatch) returns (sha256: string)
    ensures IsPayloadHash(digest, batch, sha256)
  {
    var items := SortSlice(batch.items, ItemKey);
    sha256 := digest(batch.(sha256 := "", items := items));
  }

  /** The hash ignores item order whenever no two different items share a session key. */
  lemma PayloadHashIgnoresItemOrder(digest: AccessBatch -> string, batch: AccessBatch, items: seq<AccessItem>,
      h1: string, h2: string)
    requires multiset(items) == multiset(batch.items) && KeysSeparate(batch.items, ItemKey)
    requires IsPayloadHash(digest, batch, h1) && IsPayloadHash(digest, batch.(items := items, sha256 := h1), h2)
    ensures h1 == h2
  {
    var xs :| SortResult(batch.items, xs, ItemKey) && h1 == digest(batch.(sha256 := "", items := xs));
    var ys :| SortResult(items, ys, ItemKey) && h2 == digest(batch.(sha256 := "", items := ys));
    SameMembers(batch.items, xs);
    SortResultUnique(xs, ys, ItemKey);
  }

  /** A drained batch is already in canonical order: its hash is the digest of the batch as it stands. */
  lemma DrainedHash(digest: AccessBatch -> string, batch: AccessBatch, acc: Accumulator, sha256: string)
    requires Keyed(acc) && batch.items == Items(acc, DrainedKeys(acc)) && batch.sha256 == ""
    requires IsPayloadHash(digest, batch, sha256)
    ensures sha256 == digest(batch) && KeysSeparate(batch.items, ItemKey)
  {
    var ks, items := DrainedKeys(acc), batch.items;
    SelectKeysCorrect(acc);
    forall i, j | 0 <= i < j < |items|
        ensures !Less(ItemKey(items[j]), ItemKey(items[i])) && ItemKey(items[i]) != ItemKey(items[j]) {
      assert items[i].sessionKey == ks[i] && items[j].sessionKey == ks[j];
      LessAsymmetric(Codes(ks[i]), Codes(ks[j]));
    }
    var xs :| SortResult(items, xs, ItemKey) && sha256 == digest(batch.(sha256 := "", items := xs));
    SortResultUnique(items, xs, ItemKey);
  }

  /** The access tables, with what became of every batch ever drained. */
  datatype Tables = Tables(acc: Accumulator, wal: Wal<AccessBatch>, sequence: nat,
                           drained: seq<AccessBatch>, acknowledged: set<nat>, pruned: set<nat>)

  const EMPTY := Tables(map[], [], 0, [], {}, {})

  datatype Op =
    | Add(items: seq<AccessItem>, fails: bool)
    | Drain(boot: string, configVersion: nat, now: StoredTime, fails: bool)
    | Acknowledge(boot: string, sequence: nat, hash: string, fails: bool)

  predicate Commits(s: Tables, op: Op) {
    match op
    case Add(items, fails) => items == [] || (|items| <= MAX_INPUT_ITEMS && AllValid(items) && !fails)
    case Drain(_, _, _, fails) => !fails
    case Acknowledge(boot, sequence, hash, fails) =>
      !fails && exists r :: r in s.wal && Matches(r, boot, sequence, hash)
  }

  ghost function Unhashed(s: Tables, boot: string, configVersion: nat, now: StoredTime): AccessBatch {
    var items := Items(s.acc, DrainedKeys(s.acc));
    var last := LatestSeen(items);
    var end := if last == 0 then now.instant else last;
    AccessBatch(boot, s.sequence + 1, configVersion, IntervalStart(EarliestStart(items), end), end, "", items)
  }

  ghost function NextBatch(s: Tables, boot: string, configVersion: nat, now: StoredTime,
      digest: AccessBatch -> string): AccessBatch {
    var batch := Unhashed(s, boot, configVersion, now);
    batch.(sha256 := digest(batch))
  }

  function RowOf(b: AccessBatch, now: StoredTime, enc: Encoding<AccessBatch>): Row<AccessBatch> {
    Row(b.boot, b.sequence, b.sha256, b, now.text, enc.jsonSize(b))
  }

  function Keep(wal: Wal<AccessBatch>): Wal<AccessBatch> {
    Newest(wal, MAX_WAL_BATCHES, MAX_WAL_BYTES)
  }

  ghost function Step(s: Tables, op: Op, enc: Encoding<AccessBatch>): Tables
    requires Keyed(s.acc)
  {
    if !Commits(s, op) then s else
      match op
      case Add(items, _) => s.(acc := UpsertAll(s.acc, items))
      case Drain(boot, configVersion, now, _) =>
        if s.acc == map[] then s
        else
          var b := NextBatch(s, boot, configVersion, now, enc.digest);
          var wal := Insert(s.wal, RowOf(b, now, enc));
          Tables(Remaining(s.acc), Keep(wal), s.sequence + 1, s.drained + [b], s.acknowledged,
                 s.pruned + (Sequences(wal) - Sequences(Keep(wal))))
      case Acknowledge(boot, sequence, hash, _) =>
        s.(wal := Delete(s.wal, boot, sequence, hash), acknowledged := s.acknowledged + {sequence})
  }

  /**
   A batch of valid items: its interval is never empty and covers every start; it covers every last sighting exactly
   when one of them is after Go's zero time or the clock reading is at least as late as all of them.
   */
  lemma DrainedIntervalCoversItems(s: Tables, boot: string, configVersion: nat, now: StoredTime)
    requires s.acc != map[] && forall k :: k in s.acc ==> ValidTimes(s.acc[k])
    ensures var b := Unhashed(s, boot, configVersion, now);
            && b.items != [] && b.intervalStart < b.intervalEnd
            && (forall n :: 0 <= n < |b.items| ==> b.intervalStart <= b.items[n].startedAt.instant)
            && ((forall n :: 0 <= n < |b.items| ==> b.items[n].lastSeenAt.instant <= b.intervalEnd) <==>
                (exists n :: 0 <= n < |b.items| && b.items[n].lastSeenAt.instant > 0)
                || (forall n :: 0 <= n < |b.items| ==> b.items[n].lastSeenAt.instant <= now.instant))
  {
    var b := Unhashed(s, boot, configVersion, now);
    DrainPartitions(s.acc);
    LatestSeenAfterZero(b.items);
    forall n | 0 <= n < |b.items| ensures b.intervalStart <= b.items[n].startedAt.instant
        && b.items[n].lastSeenAt.instant <= LatestSeen(b.items) {
      ExtremesBoundItems(b.items, n);
    }
  }

  ghost predicate IsEarliest(t: int, items: seq<AccessItem>) {
    && (exists n :: 0 <= n < |items| && items[n].startedAt.instant == t)
    && forall n :: 0 <= n < |items| ==> t <= items[n].startedAt.instant
  }

  ghost predicate IsLatest(t: int, items: seq<AccessItem>) {
    && (exists n :: 0 <= n < |items| && items[n].lastSeenAt.instant == t)
    && forall n :: 0 <= n < |items| ==> items[n].lastSeenAt.instant <= t
  }

  lemma {:induction false} EarliestAttained(items: seq<AccessItem>) returns (n: nat)
    requires items != [] && forall m :: 0 <= m < |items| ==> ValidTimes(items[m])
    ensures n < |items| && EarliestStart(items) == items[n].startedAt.instant
  {
    n := |items| - 1;
    if |items| > 1 && EarliestStart(items) != items[n].startedAt.instant {
      n := EarliestAttained(items[..n]);
    }
  }

  lemma {:induction false} LatestAttained(items: seq<AccessItem>) returns (n: nat)
    requires LatestSeen(items) > 0
    ensures n < |items| && LatestSeen(items) == items[n].lastSeenAt.instant
  {
    n := |items| - 1;
    if LatestSeen(items) != items[n].lastSeenAt.instant {
      n := LatestAttained(items[..n]);
    }
  }

  lemma ExtremesOfItems(items: seq<AccessItem>, first: int, last: int)
    requires forall m :: 0 <= m < |items| ==> ValidTimes(items[m])
    requires IsEarliest(first, items) && IsLatest(last, items)
    ensures EarliestStart(items) == first && LatestSeen(items) == if last > 0 then last else 0
  {
    var a :| 0 <= a < |items| && items[a].startedAt.instant == first;
    var b :| 0 <= b < |items| && items[b].lastSeenAt.instant == last;
    ExtremesBoundItems(items, a);
    ExtremesBoundItems(items, b);
    LatestSeenAfterZero(items);
    var x := EarliestAttained(items);
    if LatestSeen(items) > 0 {
      var y := LatestAttained(items);
    }
  }

  /**
   A batch of valid items ends exactly at their last sighting, or at the clock reading if that is not after Go's zero
   time, and starts exactly at their earliest start, or a second before its end if that would leave it empty.
   */
  lemma DrainedIntervalExactly(s: Tables, boot: string, configVersion: nat, now: StoredTime, first: int, last: int)
    requires forall k :: k in s.acc ==> ValidTimes(s.acc[k])
    requires var items := Items(s.acc, DrainedKeys(s.acc)); IsEarliest(first, items) && IsLatest(last, items)
    ensures var b := Unhashed(s, boot, configVersion, now);
            && b.intervalEnd == (if last > 0 then last else now.instant)
            && b.intervalStart == (if first < b.intervalEnd then first else b.intervalEnd - NANOS_PER_SECOND)
  {
    ExtremesOfItems(Items(s.acc, DrainedKeys(s.acc)), first, last);
    var x := EarliestAttained(Items(s.acc, DrainedKeys(s.acc)));
  }

  // ----- What every run keeps

  /** The numbers 1 to n, each in exactly one of the three sets. */
  ghost predicate Fates(n: nat, pending: set<nat>, acknowledged: set<nat>, pruned: set<nat>) {
    && pending !! acknowledged && pending !! pruned && acknowledged !! pruned
    && forall m: nat :: m in pending + acknowledged + pruned <==> 1 <= m <= n
  }

  ghost predicate RowsAreDrained(wal: Wal<AccessBatch>, drained: seq<AccessBatch>) {
    && (forall n :: 0 <= n < |drained| ==> drained[n].sequence == n + 1)
    && Sorted(wal) && DistinctSequences(wal)
    && (forall r :: r in wal ==> 1 <= r.sequence <= |drained| && r.batch == drained[r.sequence - 1])
  }

  /** Each drained batch is in exactly one of pending, acknowledged and pruned, and the log is within both bounds. */
  ghost predicate Accounted(s: Tables) {
    && s.sequence == |s.drained|
    && RowsAreDrained(s.wal, s.drained)
    && Fits(s.wal, MAX_WAL_BATCHES, MAX_WAL_BYTES)
    && Fates(|s.drained|, Sequences(s.wal), s.acknowledged, s.pruned)
  }

  lemma SuffixOfWal(wal: Wal<AccessBatch>, k: nat)
    requires k <= |wal| && Sorted(wal) && DistinctSequences(wal)
    ensures Sorted(wal[k..]) && DistinctSequences(wal[k..]) && Sequences(wal[k..]) <= Sequences(wal)
    ensures forall r :: r in wal[k..] ==> r in wal
  {
    assert forall r :: r in wal[k..] ==> r in wal;
  }

  lemma InsertKeepsRows(wal: Wal<AccessBatch>, drained: seq<AccessBatch>, row: Row<AccessBatch>)
    requires RowsAreDrained(wal, drained) && row.sequence == row.batch.sequence == |drained| + 1
    ensures RowsAreDrained(Insert(wal, row), drained + [row.batch])
  {
    InsertKeepsOrder(wal, row);
    InsertKeepsDistinct(wal, row);
    forall r | r in Insert(wal, row) ensures r == row || r in wal {
      InsertMember(wal, row, r);
    }
  }

  lemma DrainKeepsAccounted(s: Tables, row: Row<AccessBatch>, s': Tables)
    requires Accounted(s) && row.sequence == row.batch.sequence == |s.drained| + 1
    requires var wal := Insert(s.wal, row);
             s'.wal == Keep(wal) && s'.sequence == row.sequence && s'.drained == s.drained + [row.batch]
             && s'.acknowledged == s.acknowledged && s'.pruned == s.pruned + (Sequences(wal) - Sequences(Keep(wal)))
    ensures Accounted(s')
  {
    var wal := Insert(s.wal, row);
    InsertKeepsRows(s.wal, s.drained, row);
    InsertAddsNumber(s.wal, row);
    NewestIsLongestFit(wal, MAX_WAL_BATCHES, MAX_WAL_BYTES);
    SuffixOfWal(wal, |wal| - |Keep(wal)|);
    FatesAfterDrain(|s.drained|, Sequences(s.wal), s.acknowledged, s.pruned, Sequences(Keep(wal)));
  }

  lemma FatesAfterDrain(n: nat, pending: set<nat>, acknowledged: set<nat>, pruned: set<nat>, kept: set<nat>)
    requires Fates(n, pending, acknowledged, pruned) && kept <= pending + {n + 1}
    ensures Fates(n + 1, kept, acknowledged, pruned + (pending + {n + 1} - kept))
  {
    assert n + 1 !in pending + acknowledged + pruned;
    var pruned' := pruned + (pending + {n + 1} - kept);
    forall m: nat ensures m in kept + acknowledged + pruned' <==> 1 <= m <= n + 1 {
      assert m in pending + acknowledged + pruned <==> 1 <= m <= n;
    }
  }

  lemma AcknowledgeKeepsAccounted(s: Tables, boot: string, sequence: nat, hash: string)
    requires Accounted(s) && exists r :: r in s.wal && Matches(r, boot, sequence, hash)
    ensures Accounted(s.(wal := Delete(s.wal, boot, sequence, hash), acknowledged := s.acknowledged + {sequence}))
  {
    DeleteKeepsOrder(s.wal, boot, sequence, hash);
    DeleteKeepsDistinct(s.wal, boot, sequence, hash);
    DeleteRemovesNumber(s.wal, boot, sequence, hash);
    FatesAfterAcknowledge(|s.drained|, Sequences(s.wal), s.acknowledged, s.pruned, sequence);
    DeleteFits(s.wal, boot, sequence, hash);
    forall r | r in Delete(s.wal, boot, sequence, hash) ensures r in s.wal {
      DeleteMember(s.wal, boot, sequence, hash, r);
    }
  }

  lemma FatesAfterAcknowledge(n: nat, pending: set<nat>, acknowledged: set<nat>, pruned: set<nat>, k: nat)
    requires Fates(n, pending, acknowledged, pruned) && k in pending
    ensures Fates(n, pending - {k}, acknowledged + {k}, pruned)
  {
    forall m: nat ensures m in (pending - {k}) + (acknowledged + {k}) + pruned <==> 1 <= m <= n {
      assert m in pending + acknowledged + pruned <==> 1 <= m <= n;
    }
  }

  lemma {:induction false} DeleteFits(wal: Wal<AccessBatch>, boot: string, sequence: nat, hash: string)
    ensures var rest := Delete(wal, boot, sequence, hash); |rest| <= |wal| && Bytes(rest) <= Bytes(wal)
  {
    if wal != [] {
      DeleteFits(wal[1..], boot, sequence, hash);
    }
  }

  lemma StepKeepsAccounted(s: Tables, op: Op, enc: Encoding<AccessBatch>)
    requires Keyed(s.acc) && Accounted(s)
    ensures Keyed(Step(s, op, enc).acc) && Accounted(Step(s, op, enc))
  {
    match op
    case Add(_, _) =>
    case Drain(boot, configVersion, now, _) =>
      if Commits(s, op) && s.acc != map[] {
        DrainKeepsAccounted(s, RowOf(NextBatch(s, boot, configVersion, now, enc.digest), now, enc), Step(s, op, enc));
      }
    case Acknowledge(boot, sequence, hash, _) =>
      if Commits(s, op) {
        AcknowledgeKeepsAccounted(s, boot, sequence, hash);
      }
  }

  // ----- What each step does

  /** Adding commits exactly if there is nothing to add, or not too much, every item is valid and nothing fails. */
  lemma AddCommitsExactly(s: Tables, items: seq<AccessItem>, fails: bool, enc: Encoding<AccessBatch>)
    requires Keyed(s.acc)
    ensures Commits(s, Add(items, fails)) <==>
              items == [] || (!fails && |items| <= MAX_INPUT_ITEMS && forall i :: i in items ==> AccessRows.Valid(i))
    ensures var s' := Step(s, Add(items, fails), enc); s' == s.(acc := s'.acc)
  {
    if forall i :: i in items ==> AccessRows.Valid(i) {
      assert AllValid(items);
    } else {
      var i :| i in items && !AccessRows.Valid(i);
      var n :| 0 <= n < |items| && items[n] == i;
    }
  }

  /** The row of the log that files a batch. */
  predicate Files(r: Row<AccessBatch>, b: AccessBatch, now: StoredTime, enc: Encoding<AccessBatch>) {
    && r.batch == b && r.boot == b.boot && r.sequence == b.sequence && r.hash == b.sha256
    && r.createdAt == now.text && r.size == enc.jsonSize(b)
  }

  /**
   A drain that commits with rows to drain: the first thousand rows, as they are, become one new batch under the next
   number with its own hash; one row that files it joins the log; and of the log then the newest rows that fit are kept.
   */
  lemma DrainMovesFirstRows(s: Tables, boot: string, configVersion: nat, now: StoredTime, enc: Encoding<AccessBatch>)
    requires Keyed(s.acc) && s.acc != map[]
    ensures Commits(s, Drain(boot, configVersion, now, false)) && !Commits(s, Drain(boot, configVersion, now, true))
    ensures var s' := Step(s, Drain(boot, configVersion, now, false), enc);
            && |s'.drained| == |s.drained| + 1 && s'.drained[..|s.drained|] == s.drained
            && var b := s'.drained[|s.drained|];
            && b.boot == boot && b.sequence == s.sequence + 1 == s'.sequence && b.configVersion == configVersion
            && b.sha256 == enc.digest(b.(sha256 := ""))
            && (forall i :: i in b.items ==> i.sessionKey in s.acc && s.acc[i.sessionKey] == i)
            && (forall k :: k in s.acc <==> k in s'.acc || exists i :: i in b.items && i.sessionKey == k)
            && (forall k :: k in s'.acc ==> s'.acc[k] == s.acc[k])
            && |s'.acc| == |s.acc| - |b.items| && |b.items| == Min(MAX_BATCH_ITEMS, |s.acc|)
            && (forall r :: r in s'.wal ==> r in s.wal || Files(r, b, now, enc))
            && exists row :: Files(row, b, now, enc) && s'.wal == Keep(Insert(s.wal, row))
  {
    var b := NextBatch(s, boot, configVersion, now, enc.digest);
    var row := RowOf(b, now, enc);
    assert b.(sha256 := "") == Unhashed(s, boot, configVersion, now);
    DrainPartitions(s.acc);
    KeptRows(Insert(s.wal, row));
    forall r | r in Keep(Insert(s.wal, row)) ensures r in s.wal || r == row {
      InsertMember(s.wal, row, r);
    }
    DrainedItems(s.acc, b.items);
    assert Files(row, b, now, enc);
  }

  lemma KeptRows(wal: Wal<AccessBatch>)
    ensures forall r :: r in Keep(wal) ==> r in wal
  {
    NewestIsLongestFit(wal, MAX_WAL_BATCHES, MAX_WAL_BYTES);
  }

  lemma DrainedItems(acc: Accumulator, items: seq<AccessItem>)
    requires Keyed(acc) && items == Items(acc, DrainedKeys(acc))
    ensures forall i :: i in items ==> i.sessionKey in acc && acc[i.sessionKey] == i
    ensures forall k :: k in acc <==> k in Remaining(acc) || exists i :: i in items && i.sessionKey == k
  {
    DrainPartitions(acc);
    ItemsAreRows(acc, DrainedKeys(acc), items);
  }

  lemma ItemsAreRows(acc: Accumulator, ks: seq<string>, items: seq<AccessItem>)
    requires Keyed(acc) && (forall n :: 0 <= n < |ks| ==> ks[n] in acc) && items == Items(acc, ks)
    ensures forall i :: i in items ==> i.sessionKey in acc && acc[i.sessionKey] == i
    ensures forall k :: k in ks <==> exists i :: i in items && i.sessionKey == k
  {
    forall n | 0 <= n < |ks| ensures items[n] in items && items[n] == acc[ks[n]] && items[n].sessionKey == ks[n] {}
    forall k | k in ks ensures exists i :: i in items && i.sessionKey == k {
      var n :| 0 <= n < |ks| && ks[n] == k;
      assert items[n] in items;
    }
  }

  /** An acknowledgement takes exactly if a row has this boot, number and hash; it deletes such rows and no others. */
  lemma AcknowledgeSettlesExactly(s: Tables, boot: string, sequence: nat, hash: string, fails: bool,
      enc: Encoding<AccessBatch>)
    requires Keyed(s.acc)
    ensures Commits(s, Acknowledge(boot, sequence, hash, fails)) <==>
              !fails && exists r :: r in s.wal && r.boot == boot && r.sequence == sequence && r.hash == hash
    ensures var s' := Step(s, Acknowledge(boot, sequence, hash, false), enc);
            && s' == s.(wal := s'.wal, acknowledged := s'.acknowledged)
            && forall r :: r in s'.wal <==> r in s.wal && !(r.boot == boot && r.sequence == sequence && r.hash == hash)
  {
    forall r ensures r in Delete(s.wal, boot, sequence, hash) <==> r in s.wal && !Matches(r, boot, sequence, hash) {
      DeleteMember(s.wal, boot, sequence, hash, r);
    }
  }

  /** Every pending row is measured by the batch it holds. */
  ghost predicate Measured(wal: Wal<AccessBatch>, enc: Encoding<AccessBatch>) {
    forall r :: r in wal ==>
      && r.size == enc.jsonSize(r.batch) && r.boot == r.batch.boot && r.hash == r.batch.sha256
      && r.hash == enc.digest(r.batch.(sha256 := ""))
  }

  function PayloadBytes(wal: Wal<AccessBatch>, enc: Encoding<AccessBatch>): nat {
    if wal == [] then 0 else enc.jsonSize(wal[0].batch) + PayloadBytes(wal[1..], enc)
  }

  lemma {:induction false} MeasuredBytes(wal: Wal<AccessBatch>, enc: Encoding<AccessBatch>)
    requires Measured(wal, enc)
    ensures Bytes(wal) == PayloadBytes(wal, enc)
  {
    if wal != [] {
      MeasuredBytes(wal[1..], enc);
    }
  }

  lemma {:induction false} RunMeasured(ops: seq<Op>, enc: Encoding<AccessBatch>)
    ensures Measured(Run(ops, enc).wal, enc)
  {
    if ops != [] {
      var n := |ops| - 1;
      var s, op := Run(ops[..n], enc), ops[n];
      RunMeasured(ops[..n], enc);
      StepMeasured(s, op, enc);
    }
  }

  lemma StepMeasured(s: Tables, op: Op, enc: Encoding<AccessBatch>)
    requires Keyed(s.acc) && Measured(s.wal, enc)
    ensures Measured(Step(s, op, enc).wal, enc)
  {
    match op
    case Add(_, _) =>
    case Drain(boot, configVersion, now, fails) =>
      if !fails && s.acc != map[] {
        DrainMovesFirstRows(s, boot, configVersion, now, enc);
      }
    case Acknowledge(boot, sequence, hash, fails) =>
      if Commits(s, op) {
        AcknowledgeSettlesExactly(s, boot, sequence, hash, fails, enc);
      }
  }

  /** Over every run: the pending batches, as they are encoded, are within the byte limit and the count limit. */
  lemma EveryLogWithinLimits(ops: seq<Op>, enc: Encoding<AccessBatch>)
    ensures var wal := Run(ops, enc).wal;
            |wal| <= MAX_WAL_BATCHES && PayloadBytes(wal, enc) <= MAX_WAL_BYTES && Measured(wal, enc)
  {
    EveryBatchAccounted(ops, enc);
    RunMeasured(ops, enc);
    MeasuredBytes(Run(ops, enc).wal, enc);
  }

  ghost function Run(ops: seq<Op>, enc: Encoding<AccessBatch>): (s: Tables)
    ensures Keyed(s.acc)
  {
    if ops == [] then EMPTY else Step(Run(ops[..|ops| - 1], enc), ops[|ops| - 1], enc)
  }

  /** Over every run of adds, drains and acknowledgements, successful or not. */
  lemma {:induction false} EveryBatchAccounted(ops: seq<Op>, enc: Encoding<AccessBatch>)
    ensures Accounted(Run(ops, enc))
  {
    if ops != [] {
      EveryBatchAccounted(ops[..|ops| - 1], enc);
      StepKeepsAccounted(Run(ops[..|ops| - 1], enc), ops[|ops| - 1], enc);
    }
  }

  // ----- Validity while stamps compare by time

  ghost predicate InTimeOrder(times: set<StoredTime>) {
    forall a, b :: a in times && b in times ==> Comparable(a, b) && !OutOfOrder(a, b)
  }

  ghost predicate ItemIn(i: AccessItem, times: set<StoredTime>) {
    AccessRows.Valid(i) && i.startedAt in times && i.lastSeenAt in times
        && (i.endedAt.Some? ==> i.endedAt.value in times)
  }

  ghost predicate OpIn(op: Op, times: set<StoredTime>) {
    op.Add? && AllValid(op.items) ==> forall n :: 0 <= n < |op.items| ==> ItemIn(op.items[n], times)
  }

  /** The interval covers the items, last sightings included unless the clock read a time before Go's zero time. */
  predicate Covers(b: AccessBatch) {
    && b.intervalStart < b.intervalEnd
    && forall m :: 0 <= m < |b.items| ==>
         b.intervalStart <= b.items[m].startedAt.instant
             && (b.intervalEnd >= 0 ==> b.items[m].lastSeenAt.instant <= b.intervalEnd)
  }

  lemma DrainCovers(s: Tables, boot: string, configVersion: nat, now: StoredTime, digest: AccessBatch -> string)
    requires s.acc != map[] && forall k :: k in s.acc ==> ValidTimes(s.acc[k])
    ensures Covers(NextBatch(s, boot, configVersion, now, digest))
  {
    DrainedIntervalCoversItems(s, boot, configVersion, now);
  }

  ghost predicate TablesIn(s: Tables, times: set<StoredTime>) {
    && (forall k :: k in s.acc ==> ItemIn(s.acc[k], times))
    && (forall n, m :: 0 <= n < |s.drained| && 0 <= m < |s.drained[n].items| ==> ItemIn(s.drained[n].items[m], times))
    && (forall n :: 0 <= n < |s.drained| ==> Covers(s.drained[n]))
  }

  lemma MergeStaysIn(row: AccessItem, i: AccessItem, times: set<StoredTime>)
    requires InTimeOrder(times) && ItemIn(row, times) && ItemIn(i, times)
    ensures ItemIn(Merge(row, i), times)
  {
    MergeInTimeOrder(row, i);
    TextExtremes(row.startedAt, i.startedAt);
    TextExtremes(row.lastSeenAt, i.lastSeenAt);
    if row.endedAt.Some? && i.endedAt.Some? {
      TextExtremes(row.endedAt.value, i.endedAt.value);
    }
    if i.endedAt.Some? {
      LessIrreflexive(i.endedAt.value.text);
    }
  }

  lemma {:induction false} UpsertAllStaysIn(acc: Accumulator, items: seq<AccessItem>, times: set<StoredTime>, k: string)
    requires Keyed(acc) && AllValid(items) && InTimeOrder(times)
    requires forall n :: 0 <= n < |items| ==> ItemIn(items[n], times)
    requires forall j :: j in acc ==> ItemIn(acc[j], times)
    ensures k in UpsertAll(acc, items) ==> ItemIn(UpsertAll(acc, items)[k], times)
  {
    if items != [] {
      var n := |items| - 1;
      UpsertAllStaysIn(acc, items[..n], times, k);
      var before := UpsertAll(acc, items[..n]);
      if k == items[n].sessionKey && k in before {
        MergeStaysIn(before[k], items[n], times);
      }
    }
  }

  lemma MoveStaysIn(s: Tables, s': Tables, b: AccessBatch, times: set<StoredTime>)
    requires TablesIn(s, times) && b.items == Items(s.acc, DrainedKeys(s.acc)) && Covers(b)
    requires s'.acc == Remaining(s.acc) && s'.drained == s.drained + [b]
    ensures TablesIn(s', times)
  {
    assert forall m :: 0 <= m < |b.items| ==> ItemIn(b.items[m], times);
  }

  lemma StepStaysIn(s: Tables, op: Op, enc: Encoding<AccessBatch>, times: set<StoredTime>)
    requires Keyed(s.acc) && TablesIn(s, times) && InTimeOrder(times) && OpIn(op, times)
    ensures TablesIn(Step(s, op, enc), times)
  {
    if Commits(s, op) {
      match op
      case Add(items, _) =>
        assert AllValid(items);
        forall k | k in UpsertAll(s.acc, items) ensures ItemIn(UpsertAll(s.acc, items)[k], times) {
          UpsertAllStaysIn(s.acc, items, times, k);
        }
      case Drain(boot, configVersion, now, _) =>
        if s.acc != map[] {
          var b := NextBatch(s, boot, configVersion, now, enc.digest);
          DrainCovers(s, boot, configVersion, now, enc.digest);
          MoveStaysIn(s, Step(s, op, enc), b, times);
        }
      case Acknowledge(_, _, _, _) =>
    }
  }

  /**
   While all stamps ever added compare by time, every accumulator row and every drained item stays valid, and every
   drained batch's interval covers its items.
   */
  lemma {:induction false} EveryRowValid(ops: seq<Op>, enc: Encoding<AccessBatch>, times: set<StoredTime>)
    requires InTimeOrder(times) && forall n :: 0 <= n < |ops| ==> OpIn(ops[n], times)
    ensures TablesIn(Run(ops, enc), times)
  {
    if ops != [] {
      EveryRowValid(ops[..|ops| - 1], enc, times);
      StepStaysIn(Run(ops[..|ops| - 1], enc), ops[|ops| - 1], enc, times);
    }
  }

  // ----- The store

  class AccessStore {
    const enc: Encoding<AccessBatch>
    var acc: Accumulator
    var wal: Wal<AccessBatch>
    var sequence: nat
    ghost var drained: seq<AccessBatch>
    ghost var acknowledged: set<nat>
    ghost var pruned: set<nat>

    ghost function Model(): Tables
      reads this
    {
      Tables(acc, wal, sequence, drained, acknowledged, pruned)
    }

    constructor (enc: Encoding<AccessBatch>)
      ensures this.enc == enc && Model() == EMPTY
    {
      this.enc := enc;
      acc, wal, sequence, drained, acknowledged, pruned := map[], [], 0, [], {}, {};
    }

    /** The transaction's loop: every observation is checked and merged, or the first bad one ends it. */
    method MergeAll(items: seq<AccessItem>) returns (ok: bool, tx: Accumulator)
      requires Keyed(acc)
      ensures ok <==> AllValid(items)
      ensures ok ==> tx == UpsertAll(acc, items)
    {
      tx := acc;
      for n := 0 to |items|
        invariant acc == old(acc) && AllValid(items[..n]) && tx == UpsertAll(acc, items[..n])
      {
        if !AccessRows.Valid(items[n]) {
          return false, tx;
        }
        UpsertOneMore(acc, items, n);
        tx := Upsert(tx, items[n]);
      }
      assert items[..|items|] == items;
      return true, tx;
    }

    method AddAccess(items: seq<AccessItem>, fails: bool) returns (ok: bool)
      requires Keyed(acc)
      modifies this
      ensures ok == Commits(old(Model()), Add(items, fails))
      ensures Model() == Step(old(Model()), Add(items, fails), enc)
    {
      if |items| == 0 {
        return true;
      }
      if |items| > MAX_INPUT_ITEMS {
        return false;
      }
      var merged, tx := MergeAll(items);
      if !merged || fails {
        return false;
      }
      acc := tx;
      return true;
    }

    /** The row loop of a drain. */
    method ScanRows(ks: seq<string>) returns (items: seq<AccessItem>, first: int, last: int)
      requires forall i :: 0 <= i < |ks| ==> ks[i] in acc
      ensures items == Items(acc, ks) && first == EarliestStart(items) && last == LatestSeen(items)
    {
      items, first, last := [], 0, 0;
      for n := 0 to |ks|
        invariant items == Items(acc, ks[..n]) && first == EarliestStart(items) && last == LatestSeen(items)
      {
        var item := acc[ks[n]];
        if first == 0 || item.startedAt.instant < first {
          first := item.startedAt.instant;
        }
        if item.lastSeenAt.instant > last {
          last := item.lastSeenAt.instant;
        }
        assert (items + [item])[..n] == items;
        items := items + [item];
      }
      assert ks[..|ks|] == ks;
    }

    method SelectRows() returns (ks: seq<string>, items: seq<AccessItem>, first: int, last: int)
      ensures ks == DrainedKeys(acc) && items == Items(acc, ks) && first == EarliestStart(items)
              && last == LatestSeen(items)
      ensures ks == [] <==> acc == map[]
    {
      CodesSeparate(acc.Keys);
      SelectKeysCorrect(acc);
      var all := SelectOrdered(acc.Keys, Codes);
      ks := FirstOf(all);
      items, first, last := ScanRows(ks);
      assert |acc| == 0 <==> acc == map[];
    }

    method HashDrained(b: AccessBatch) returns (sha256: string)
      requires Keyed(acc) && b.items == Items(acc, DrainedKeys(acc)) && b.sha256 == ""
      ensures sha256 == enc.digest(b)
    {
      sha256 := AccessPayloadSHA256(enc.digest, b);
      DrainedHash(enc.digest, b, acc, sha256);
    }

    method BuildBatch(boot: string, configVersion: nat, now: StoredTime)
        returns (ks: seq<string>, batch: Option<AccessBatch>)
      requires Keyed(acc)
      ensures ks == DrainedKeys(acc) && (batch.Some? <==> acc != map[])
      ensures batch.Some? ==> batch.value == NextBatch(Model(), boot, configVersion, now, enc.digest)
    {
      var items, first, last;
      ks, items, first, last := SelectRows();
      if |items| == 0 {
        return ks, None;
      }
      if last == 0 {
        last := now.instant;
      }
      if first == 0 || !(last > first) {
        first := last - NANOS_PER_SECOND;
      }
      var b := AccessBatch(boot, sequence + 1, configVersion, first, last, "", items);
      assert b == Unhashed(Model(), boot, configVersion, now);
      var sha256 := HashDrained(b);
      return ks, Some(b.(sha256 := sha256));
    }

    method DrainAccess(boot: string, configVersion: nat, now: StoredTime, fails: bool)
        returns (ok: bool, batch: Option<AccessBatch>)
      requires Keyed(acc)
      modifies this
      ensures ok == Commits(old(Model()), Drain(boot, configVersion, now, fails))
      ensures Model() == Step(old(Model()), Drain(boot, configVersion, now, fails), enc)
      ensures batch.Some? <==> ok && old(acc) != map[]
      ensures batch.Some? ==> drained == old(drained) + [batch.value]
    {
      var ks;
      ks, batch := BuildBatch(boot, configVersion, now);
      if fails {
        return false, None;
      }
      if batch.Some? {
        wal := Insert(wal, RowOf(batch.value, now, enc));
        ghost var grown := wal;
        sequence := sequence + 1;
        drained := drained + [batch.value];
        acc := acc - set k | k in ks;
        var valid := Prune(MAX_WAL_BATCHES, MAX_WAL_BYTES);
        pruned := pruned + (Sequences(grown) - Sequences(wal));
      }
      return true, batch;
    }

    /** pruneAccessWALTx: drop the excess count at once, then the oldest rows until the bytes fit. */
    method Prune(maxBatches: int, maxBytes: int) returns (ok: bool)
      modifies this`wal
      ensures ok <==> maxBatches > 0 && maxBytes > 0
      ensures wal == if ok then Newest(old(wal), maxBatches, maxBytes) else old(wal)
    {
      if maxBatches <= 0 || maxBytes <= 0 {
        return false;
      }
      var batches, bytes := |wal|, Bytes(wal);
      var excess := batches - maxBatches;
      if excess > 0 {
        DropExcess(wal, maxBatches, maxBytes);
        wal := wal[excess..];
        batches := maxBatches;
        bytes := Bytes(wal);
      }
      while batches > 0 && bytes > maxBytes
        invariant batches == |wal| <= maxBatches && bytes == Bytes(wal)
        invariant Newest(wal, maxBatches, maxBytes) == Newest(old(wal), maxBatches, maxBytes)
      {
        var oldest := wal[0];
        wal := wal[1..];
        batches := batches - 1;
        bytes := bytes - oldest.size;
      }
      return true;
    }

    method AcknowledgeAccess(boot: string, sequence: nat, hash: string, fails: bool) returns (ok: bool)
      requires Keyed(acc)
      modifies this
      ensures ok == Commits(old(Model()), Acknowledge(boot, sequence, hash, fails))
      ensures Model() == Step(old(Model()), Acknowledge(boot, sequence, hash, fails), enc)
    {
      if fails {
        return false;
      }
      ok := exists i :: 0 <= i < |wal| && Matches(wal[i], boot, sequence, hash);
      if ok {
        wal := Delete(wal, boot, sequence, hash);
        acknowledged := acknowledged + {sequence};
      }
    }
  }

  lemma {:induction false} DropExcess(wal: Wal<AccessBatch>, maxBatches: nat, maxBytes: int)
    requires |wal| > maxBatches
    ensures Newest(wal, maxBatches, maxBytes) == Newest(wal[|wal| - maxBatches..], maxBatches, maxBytes)
    decreases |wal|
  {
    if |wal| - 1 > maxBatches {
      DropExcess(wal[1..], maxBatches, maxBytes);
      assert wal[1..][|wal| - 1 - maxBatches..] == wal[|wal| - maxBatches..];
    }
  }
}
