/**
 One access session's row: what the local validator admits, and how the upsert merges a new
 observation into it. Stamps merge as text; counters saturate.
 */
module AccessRows {
  import opened Ordering
  import opened Text
  import opened Stamps

  const MAX_INT32 := 0x7FFF_FFFF

  datatype AccessItem = AccessItem(sessionKey: string, subscriber: int, inbound: int, host: string, network: string,
                                   protocol: string, port: nat, startedAt: StoredTime, lastSeenAt: StoredTime,
                                   endedAt: Option<StoredTime>, upload: nat, download: nat, connections: nat,
                                       active: bool)

  predicate IsHex(c: char) {
    IsDigit(c) || 'a' <= c <= 'f'
  }

  predicate IsProtocolHead(c: char) {
    IsLower(c) || IsDigit(c)
  }

  predicate IsProtocolChar(c: char) {
    IsProtocolHead(c) || c in "+._-"
  }

  /** The checks on identity and labels, which merging takes over unchanged from the new observation. */
  predicate ValidLabels(i: AccessItem) {
    && |i.sessionKey| == 64 && (forall n :: 0 <= n < 64 ==> IsHex(i.sessionKey[n]))
    && i.subscriber > 0 && i.inbound > 0
    && i.host == TrimSpace(i.host) && i.host != "" && Utf8Length(i.host) <= 253
    && (i.network == "tcp" || i.network == "udp")
    && 1 <= |i.protocol| <= 32 && IsProtocolHead(i.protocol[0])
    && (forall n :: 0 <= n < |i.protocol| ==> IsProtocolChar(i.protocol[n]))
    && i.port != 0
  }

  predicate ValidTimes(i: AccessItem) {
    && i.startedAt.instant != 0 && i.lastSeenAt.instant >= i.startedAt.instant
    && (i.active <==> i.endedAt.None?)
    && (i.endedAt.Some? ==> i.startedAt.instant <= i.endedAt.value.instant <= i.lastSeenAt.instant + NANOS_PER_SECOND)
  }

  predicate ValidCounters(i: AccessItem) {
    i.upload <= MAX_INT64 && i.download <= MAX_INT64 && i.connections <= MAX_INT32
  }

  /** validateLocalAccessItem */
  predicate Valid(i: AccessItem) {
    ValidLabels(i) && ValidTimes(i) && ValidCounters(i)
  }

  /** What every observation must be, field by field. */
  lemma ValidExactly(i: AccessItem)
    ensures Valid(i) <==>
              && |i.sessionKey| == 64 && (forall c :: c in i.sessionKey ==> '0' <= c <= '9' || 'a' <= c <= 'f')
              && i.subscriber > 0 && i.inbound > 0 && i.port != 0 && i.network in {"tcp", "udp"}
              && TrimSpace(i.host) == i.host && 0 < |i.host| && Utf8Length(i.host) <= 253
              && 0 < |i.protocol| <= 32 && i.protocol[0] !in "+._-"
              && (forall c :: c in i.protocol ==> IsLower(c) || IsDigit(c) || c in "+._-")
              && i.startedAt.instant != 0 && i.startedAt.instant <= i.lastSeenAt.instant
              && (if i.active then i.endedAt.None?
                  else i.endedAt.Some? && i.startedAt.instant <= i.endedAt.value.instant
                       && i.endedAt.value.instant <= i.lastSeenAt.instant + 1_000_000_000)
              && i.upload < 0x8000_0000_0000_0000 && i.download < 0x8000_0000_0000_0000
              && i.connections < 0x8000_0000
  {
    LabelsExactly(i);
  }

  lemma LabelsExactly(i: AccessItem)
    ensures (forall n :: 0 <= n < |i.sessionKey| ==> IsHex(i.sessionKey[n])) <==>
              forall c :: c in i.sessionKey ==> '0' <= c <= '9' || 'a' <= c <= 'f'
    ensures i.protocol != "" && IsProtocolHead(i.protocol[0])
              && (forall n :: 0 <= n < |i.protocol| ==> IsProtocolChar(i.protocol[n])) <==>
            i.protocol != "" && i.protocol[0] !in "+._-"
              && forall c :: c in i.protocol ==> IsLower(c) || IsDigit(c) || c in "+._-"
  {
    if i.protocol != "" {
      assert i.protocol[0] in i.protocol;
      assert IsProtocolHead(i.protocol[0]) ==> i.protocol[0] !in "+._-";
    }
    forall c | c in i.protocol ensures exists n :: 0 <= n < |i.protocol| && i.protocol[n] == c {}
    forall c | c in i.sessionKey ensures exists n :: 0 <= n < |i.sessionKey| && i.sessionKey[n] == c {}
    assert forall n :: 0 <= n < |i.sessionKey| ==> i.sessionKey[n] in i.sessionKey;
  }

  /** CASE WHEN a > MAX - b THEN MAX ELSE a + b END; neither subtraction nor addition leaves int64. */
  function SaturatingAdd(a: nat, b: nat): (r: nat)
    requires a <= MAX_INT64 && b <= MAX_INT64
    ensures r <= MAX_INT64 && 0 <= MAX_INT64 - b <= MAX_INT64
    ensures r == Min(MAX_INT64, a + b)
  {
    if a > MAX_INT64 - b then MAX_INT64 else a + b
  }

  function Min(a: nat, b: nat): nat {
    if a <= b then a else b
  }

  function MergedEnd(row: AccessItem, i: AccessItem): Option<StoredTime> {
    if i.active then None
    else if i.endedAt.None? then None
    else Some(TextMax(row.endedAt.GetOr(i.endedAt.value), i.endedAt.value))
  }

  /** The upsert of one observation onto the session's row. */
  function Merge(row: AccessItem, i: AccessItem): AccessItem
    requires ValidCounters(row) && ValidCounters(i)
  {
    i.(startedAt := TextMin(row.startedAt, i.startedAt),
       lastSeenAt := TextMax(row.lastSeenAt, i.lastSeenAt),
       endedAt := MergedEnd(row, i),
       upload := SaturatingAdd(row.upload, i.upload),
       download := SaturatingAdd(row.download, i.download),
       connections := Min(MAX_INT32, row.connections + i.connections))
  }

  // ----- Validity under merging

  predicate PairsComparable(row: AccessItem, i: AccessItem) {
    && Comparable(row.startedAt, i.startedAt) && Comparable(row.lastSeenAt, i.lastSeenAt)
    && (row.endedAt.Some? && i.endedAt.Some? ==> Comparable(row.endedAt.value, i.endedAt.value))
  }

  predicate EndsTurned(row: AccessItem, i: AccessItem) {
    row.endedAt.Some? && i.endedAt.Some? && OutOfOrder(row.endedAt.value, i.endedAt.value)
  }

  function Earlier(a: int, b: int): int { if a <= b then a else b }

  function Later(a: int, b: int): int { if a <= b then b else a }

  /** The end a merged inactive row gets, as an instant. */
  function EndInstant(row: AccessItem, i: AccessItem): int
    requires i.endedAt.Some?
  {
    var e := i.endedAt.value.instant;
    if row.endedAt.None? then e
    else if EndsTurned(row, i) then Earlier(row.endedAt.value.instant, e)
    else Later(row.endedAt.value.instant, e)
  }

  /**
   Merging two valid observations gives a valid row exactly when none of three things happens: both time
   columns are turned and the two observations do not overlap; the starts are turned and the later one lies
   past the merged end; the last-seen times are turned and the merged end lies over a second past the earlier one.
   */
  lemma MergeValidExactly(row: AccessItem, i: AccessItem)
    requires Valid(row) && Valid(i) && PairsComparable(row, i)
    ensures var startsTurned, seenTurned := OutOfOrder(row.startedAt, i.startedAt),
            OutOfOrder(row.lastSeenAt, i.lastSeenAt);
            var lateStart, earlySeen := Later(row.startedAt.instant, i.startedAt.instant),
                Earlier(row.lastSeenAt.instant, i.lastSeenAt.instant);
            Valid(Merge(row, i)) <==>
              && !(startsTurned && seenTurned && earlySeen < lateStart)
              && !(!i.active && startsTurned && EndInstant(row, i) < lateStart)
              && !(!i.active && seenTurned && earlySeen + NANOS_PER_SECOND < EndInstant(row, i))
  {
    var m := Merge(row, i);
    TextExtremes(row.startedAt, i.startedAt);
    TextExtremes(row.lastSeenAt, i.lastSeenAt);
    if row.endedAt.Some? && i.endedAt.Some? {
      TextExtremes(row.endedAt.value, i.endedAt.value);
    }
    assert ValidLabels(m) && ValidCounters(m);
  }

  lemma TextExtremes(a: StoredTime, b: StoredTime)
    requires Comparable(a, b)
    ensures TextMin(a, b) in {a, b} && TextMax(a, b) in {a, b}
    ensures TextMin(a, b).instant == if OutOfOrder(a, b) then Later(a.instant, b.instant)
            else Earlier(a.instant, b.instant)
    ensures TextMax(a, b).instant == if OutOfOrder(a, b) then Earlier(a.instant, b.instant)
            else Later(a.instant, b.instant)
  {
    if Less(a.text, b.text) {
      LessAsymmetric(a.text, b.text);
    } else {
      LessTrichotomy(a.text, b.text);
    }
  }

  /** While stamps compare by time the merged row is valid, spans both observations and ends with the later end. */
  lemma MergeInTimeOrder(row: AccessItem, i: AccessItem)
    requires Valid(row) && Valid(i) && PairsComparable(row, i)
    requires !OutOfOrder(row.startedAt, i.startedAt) && !OutOfOrder(row.lastSeenAt, i.lastSeenAt) && !EndsTurned(row, i)
    ensures var m := Merge(row, i);
            && Valid(m) && (m.active <==> m.endedAt.None?)
            && m.startedAt.instant == Earlier(row.startedAt.instant, i.startedAt.instant)
            && m.lastSeenAt.instant == Later(row.lastSeenAt.instant, i.lastSeenAt.instant)
  {
    MergeValidExactly(row, i);
    TextExtremes(row.startedAt, i.startedAt);
    TextExtremes(row.lastSeenAt, i.lastSeenAt);
  }

  /** The item as a connection that ends the moment it starts. */
  function Momentary(i: AccessItem, t: StoredTime): AccessItem {
    i.(startedAt := t, lastSeenAt := t, endedAt := Some(t))
  }

  /**
   It does happen: a connection opened and closed on a whole second, and another of its session within that second,
   merge into a row that was last seen before it started.
   */
  lemma MergeCanBreak(i: AccessItem, t: Stamp)
    requires Valid(i) && !i.active && t.nanos > 0 && t.Instant() != 0 && t.(nanos := 0).Instant() != 0
    ensures var whole := Stored(t.(nanos := 0));
            var row, next := Momentary(i, whole), Momentary(i, Stored(t));
            Valid(row) && Valid(next) && !Valid(Merge(row, next))
  {
    var w: Stamp := t.(nanos := 0);
    WholeSecondSortsLast(t);
    StoredOrder(w, t);
    var row, next := Momentary(i, Stored(w)), Momentary(i, Stored(t));
    MergeValidExactly(row, next);
  }

  // ----- Folding observations of one session

  predicate CountersInRange(items: seq<AccessItem>) {
    forall n :: 0 <= n < |items| ==> ValidCounters(items[n])
  }

  /** The row left by upserting the observations in order, the first of them inserting it. */
  function Fold(row: Option<AccessItem>, items: seq<AccessItem>): (r: Option<AccessItem>)
    requires CountersInRange(items) && (row.Some? ==> ValidCounters(row.value))
    ensures r.Some? ==> ValidCounters(r.value)
  {
    if items == [] then row
    else
      var before := Fold(row, items[..|items| - 1]);
      var last := items[|items| - 1];
      Some(if before.None? then last else Merge(before.value, last))
  }

  ghost function StartsOf(items: seq<AccessItem>): set<StoredTime> {
    set i | i in items :: i.startedAt
  }

  ghost function SightingsOf(items: seq<AccessItem>): set<StoredTime> {
    set i | i in items :: i.lastSeenAt
  }

  ghost function EndsOf(items: seq<AccessItem>): set<StoredTime> {
    set i | i in items && i.endedAt.Some? :: i.endedAt.value
  }

  /** Who, where, over what, and whether still open. */
  predicate SameLabels(a: AccessItem, b: AccessItem) {
    && a.sessionKey == b.sessionKey && a.subscriber == b.subscriber && a.inbound == b.inbound
    && a.host == b.host && a.network == b.network && a.protocol == b.protocol && a.port == b.port
    && a.active == b.active
  }

  lemma OneMoreItem(items: seq<AccessItem>)
    requires items != []
    ensures var last, rest := items[|items| - 1], items[..|items| - 1];
            && StartsOf(items) == StartsOf(rest) + {last.startedAt}
            && SightingsOf(items) == SightingsOf(rest) + {last.lastSeenAt}
            && (last.endedAt.Some? ==> EndsOf(items) == EndsOf(rest) + {last.endedAt.value})
  {
    assert items == items[..|items| - 1] + [items[|items| - 1]];
  }

  /** A row says who and where as the last observation does, and runs from the first start to the last sighting. */
  lemma {:induction false} FoldSpans(items: seq<AccessItem>)
    requires CountersInRange(items) && items != []
    ensures var r := Fold(None, items);
            && r.Some? && SameLabels(r.value, items[|items| - 1])
            && IsTextMin(r.value.startedAt, StartsOf(items)) && IsTextMax(r.value.lastSeenAt, SightingsOf(items))
  {
    var n := |items| - 1;
    OneMoreItem(items);
    if n == 0 {
      OnlyTime(items[0].startedAt);
      OnlyTime(items[0].lastSeenAt);
    } else {
      FoldSpans(items[..n]);
      var before := Fold(None, items[..n]).value;
      TextMinMoves(before.startedAt, items[n].startedAt, StartsOf(items[..n]));
      TextMaxMoves(before.lastSeenAt, items[n].lastSeenAt, SightingsOf(items[..n]));
    }
  }

  /** An open row has no end; a closed one ends at the last of the ends reported since it was last open. */
  lemma {:induction false} FoldEnds(items: seq<AccessItem>, m: nat)
    requires CountersInRange(items) && m <= |items| && items != []
    requires forall j :: 0 <= j < |items| ==> (items[j].active <==> items[j].endedAt.None?)
    requires (m == 0 || items[m - 1].active) && forall j :: m <= j < |items| ==> !items[j].active
    ensures var r := Fold(None, items);
            r.Some? && if m == |items| then r.value.endedAt.None?
                       else r.value.endedAt.Some? && IsTextMax(r.value.endedAt.value, EndsOf(items[m..]))
  {
    var n := |items| - 1;
    if m < n {
      FoldEnds(items[..n], m);
      LaterEnd(items, m);
    } else if m == n {
      FirstEnd(items, m);
    }
  }

  lemma LaterEnd(items: seq<AccessItem>, m: nat)
    requires CountersInRange(items) && m < |items| - 1
    requires var last := items[|items| - 1]; !last.active && last.endedAt.Some?
    requires var n := |items| - 1;
             var before := Fold(None, items[..n]);
             before.Some? && before.value.endedAt.Some?
                 && IsTextMax(before.value.endedAt.value, EndsOf(items[..n][m..]))
    ensures var r := Fold(None, items);
            r.Some? && r.value.endedAt.Some? && IsTextMax(r.value.endedAt.value, EndsOf(items[m..]))
  {
    var n := |items| - 1;
    EndsGrow(items, m);
    TextMaxMoves(Fold(None, items[..n]).value.endedAt.value, items[n].endedAt.value, EndsOf(items[..n][m..]));
  }

  lemma EndsGrow(items: seq<AccessItem>, m: nat)
    requires m < |items| - 1 && items[|items| - 1].endedAt.Some?
    ensures var n := |items| - 1; EndsOf(items[m..]) == EndsOf(items[..n][m..]) + {items[n].endedAt.value}
  {
    var n := |items| - 1;
    TailSlices(items, m);
    OneMoreItem(items[m..]);
  }

  lemma TailSlices<T>(xs: seq<T>, m: nat)
    requires m < |xs| - 1
    ensures var n := |xs| - 1; xs[m..][..|xs[m..]| - 1] == xs[..n][m..] && xs[m..][|xs[m..]| - 1] == xs[n]
  {}

  lemma FirstEnd(items: seq<AccessItem>, m: nat)
    requires CountersInRange(items) && m == |items| - 1 && !items[m].active && items[m].endedAt.Some?
    requires forall j :: 0 <= j < |items| ==> (items[j].active <==> items[j].endedAt.None?)
    requires m == 0 || items[m - 1].active
    ensures var r := Fold(None, items);
            r.Some? && r.value.endedAt.Some? && IsTextMax(r.value.endedAt.value, EndsOf(items[m..]))
  {
    OnlyTime(items[m].endedAt.value);
    assert items[m..] == [items[m]] && EndsOf([items[m]]) == {items[m].endedAt.value};
    LessIrreflexive(items[m].endedAt.value.text);
    if m > 0 {
      var before := Fold(None, items[..m]);
      assert before.Some? && before.value.endedAt == None by {
        assert items[..m][|items[..m]| - 1] == items[m - 1];
      }
    }
  }

  function Uploads(i: AccessItem): nat { i.upload }

  function Downloads(i: AccessItem): nat { i.download }

  function Connections(i: AccessItem): nat { i.connections }

  function Sum(items: seq<AccessItem>, counter: AccessItem -> nat): nat {
    if items == [] then 0 else Sum(items[..|items| - 1], counter) + counter(items[|items| - 1])
  }

  /** Saturating merges lose nothing but the excess: each counter is the exact sum, capped once. */
  lemma {:induction false} FoldIsCappedSum(row: Option<AccessItem>, items: seq<AccessItem>)
    requires CountersInRange(items) && (row.Some? ==> ValidCounters(row.value))
    ensures Fold(row, items).None? <==> row.None? && items == []
    ensures var r := Fold(row, items);
            r.Some? ==>
              && r.value.upload == Min(MAX_INT64, (if row.Some? then row.value.upload else 0) + Sum(items, Uploads))
              && r.value.download == Min(MAX_INT64,
                                         (if row.Some? then row.value.download else 0) + Sum(items, Downloads))
              && r.value.connections == Min(MAX_INT32,
                                            (if row.Some? then row.value.connections else 0) + Sum(items, Connections))
  {
    if items != [] {
      var n := |items| - 1;
      FoldIsCappedSum(row, items[..n]);
      var before := Fold(row, items[..n]);
      if before.Some? {
        MergeAddsCapped(before.value, items[n]);
      }
    }
  }

  lemma MergeAddsCapped(row: AccessItem, i: AccessItem)
    requires ValidCounters(row) && ValidCounters(i)
    ensures var m := Merge(row, i);
            && m.upload == Min(MAX_INT64, row.upload + i.upload)
            && m.download == Min(MAX_INT64, row.download + i.download)
            && m.connections == Min(MAX_INT32, row.connections + i.connections)
  {}

  /** The sums see only the multiset of observations. */
  lemma {:induction false} SumIgnoresOrder(xs: seq<AccessItem>, ys: seq<AccessItem>, counter: AccessItem -> nat)
    requires multiset(xs) == multiset(ys)
    ensures Sum(xs, counter) == Sum(ys, counter)
    decreases |xs|
  {
    if xs == [] {
      assert |multiset(ys)| == 0;
    } else {
      var n := |xs| - 1;
      var j := Elsewhere(xs, ys);
      SumWithout(ys, j, counter);
      SumIgnoresOrder(xs[..n], ys[..j] + ys[j + 1..], counter);
    }
  }

  lemma Elsewhere(xs: seq<AccessItem>, ys: seq<AccessItem>) returns (j: nat)
    requires xs != [] && multiset(xs) == multiset(ys)
    ensures j < |ys| && ys[j] == xs[|xs| - 1]
    ensures multiset(xs[..|xs| - 1]) == multiset(ys[..j] + ys[j + 1..])
  {
    var n := |xs| - 1;
    assert xs == xs[..n] + [xs[n]];
    assert xs[n] in multiset(ys);
    j :| 0 <= j < |ys| && ys[j] == xs[n];
    assert ys == ys[..j] + [ys[j]] + ys[j + 1..];
    assert multiset(ys[..j] + ys[j + 1..]) == multiset(ys) - multiset{xs[n]};
    assert multiset(xs[..n]) == multiset(xs) - multiset{xs[n]};
  }

  lemma {:induction false} SumWithout(ys: seq<AccessItem>, j: nat, counter: AccessItem -> nat)
    requires j < |ys|
    ensures Sum(ys, counter) == Sum(ys[..j] + ys[j + 1..], counter) + counter(ys[j])
  {
    var n := |ys| - 1;
    if j < n {
      SumWithout(ys[..n], j, counter);
      var rest := ys[..j] + ys[j + 1..];
      assert rest[..|rest| - 1] == ys[..n][..j] + ys[..n][j + 1..] && rest[|rest| - 1] == ys[n];
    } else {
      assert ys[..j] + ys[j + 1..] == ys[..n];
    }
  }

  /** Counters do not depend on the order or the grouping in which a session's observations arrive. */
  lemma FoldIgnoresOrderAndGrouping(xs: seq<AccessItem>, ys: seq<AccessItem>, cut: nat)
    requires CountersInRange(xs) && multiset(xs) == multiset(ys) && cut <= |ys| && xs != []
    ensures CountersInRange(ys[..cut]) && CountersInRange(ys[cut..])
    ensures var a, b := Fold(None, xs), Fold(Fold(None, ys[..cut]), ys[cut..]);
            && a.Some? && b.Some?
            && a.value.upload == b.value.upload == Min(MAX_INT64, Sum(xs, Uploads))
            && a.value.download == b.value.download == Min(MAX_INT64, Sum(xs, Downloads))
            && a.value.connections == b.value.connections == Min(MAX_INT32, Sum(xs, Connections))
  {
    assert |xs| == |multiset(xs)| == |multiset(ys)| == |ys|;
    forall n | 0 <= n < |ys| ensures ValidCounters(ys[n]) {
      assert ys[n] in multiset(xs);
    }
    SumIgnoresOrder(xs, ys, Uploads);
    SumIgnoresOrder(xs, ys, Downloads);
    SumIgnoresOrder(xs, ys, Connections);
    FoldIsCappedSum(None, xs);
    FoldIsCappedSum(None, ys);
    FoldInParts(None, ys, cut);
  }

  lemma {:induction false} FoldInParts(row: Option<AccessItem>, ys: seq<AccessItem>, cut: nat)
    requires CountersInRange(ys) && (row.Some? ==> ValidCounters(row.value)) && cut <= |ys|
    ensures Fold(Fold(row, ys[..cut]), ys[cut..]) == Fold(row, ys)
  {
    if cut < |ys| {
      var n := |ys| - 1;
      FoldInParts(row, ys[..n], cut);
      assert ys[..n][..cut] == ys[..cut] && ys[cut..][..|ys[cut..]| - 1] == ys[..n][cut..]
          && ys[cut..][|ys[cut..]| - 1] == ys[n];
    } else {
      assert ys[..cut] == ys && ys[cut..] == [];
    }
  }
}
