/**
 The windows behind a traffic row: which of the collection windows of its key a row begins and ends with, and which
 interval a drained batch reports.
 */
module TrafficWindows {
  import opened Ordering
  import opened Text
  import opened Stamps
  import opened WriteAheadLog
  import opened TrafficLog

  datatype Window = Window(startedAt: StoredTime, endedAt: StoredTime)

  predicate Mentions(deltas: seq<Delta>, k: TrafficKey) {
    exists i :: 0 <= i < |deltas| && deltas[i].key == k
  }

  /** The windows committed with bytes for the key since the last drain. */
  ghost function WindowsOf(ops: seq<Op>, enc: Encoding<TrafficBatch>, k: TrafficKey): set<Window> {
    if ops == [] then {}
    else
      var n := |ops| - 1;
      var before, l := WindowsOf(ops[..n], enc, k), Run(EMPTY, ops[..n], enc);
      if !Commits(l, ops[n]) then before
      else
        match ops[n]
        case AddWindow(deltas, s, e, _) => if Mentions(deltas, k) then before + {Window(s, e)} else before
        case Drain(_, _, _, _) => {}
        case Acknowledge(_, _, _, _) => before
  }

  ghost function Starts(ws: set<Window>): set<StoredTime> {
    set w | w in ws :: w.startedAt
  }

  ghost function Ends(ws: set<Window>): set<StoredTime> {
    set w | w in ws :: w.endedAt
  }

  /** There is a row exactly if there is a window, and it runs from the first start to the last end. */
  ghost predicate RowSpans(acc: Accumulator, ws: set<Window>, k: TrafficKey) {
    && (k in acc <==> ws != {})
    && (k in acc ==> IsTextMin(acc[k].startedAt, Starts(ws)) && IsTextMax(acc[k].updatedAt, Ends(ws)))
  }

  lemma OneMoreWindow(ws: set<Window>, w: Window)
    ensures Starts(ws + {w}) == Starts(ws) + {w.startedAt} && Ends(ws + {w}) == Ends(ws) + {w.endedAt}
  {
    assert w in ws + {w};
  }

  lemma UpsertSpans(acc: Accumulator, d: Delta, w: Window, ws: set<Window>)
    requires RowSpans(acc, ws, d.key)
    ensures RowSpans(Upsert(acc, d, w.startedAt, w.endedAt), ws + {w}, d.key)
  {
    OneMoreWindow(ws, w);
    if d.key in acc {
      TextMinMoves(acc[d.key].startedAt, w.startedAt, Starts(ws));
      TextMaxMoves(acc[d.key].updatedAt, w.endedAt, Ends(ws));
    } else {
      OnlyTime(w.startedAt);
      OnlyTime(w.endedAt);
    }
  }

  lemma {:induction false} UpsertAllSpans(acc: Accumulator, deltas: seq<Delta>, w: Window, ws: set<Window>,
      k: TrafficKey)
    requires RowSpans(acc, ws, k)
    ensures RowSpans(UpsertAll(acc, deltas, w.startedAt, w.endedAt), if Mentions(deltas, k) then ws + {w} else ws, k)
  {
    if deltas != [] {
      var n := |deltas| - 1;
      var before := if Mentions(deltas[..n], k) then ws + {w} else ws;
      UpsertAllSpans(acc, deltas[..n], w, ws, k);
      MentionsStep(deltas, k);
      if deltas[n].key == k {
        UpsertSpans(UpsertAll(acc, deltas[..n], w.startedAt, w.endedAt), deltas[n], w, before);
        assert before + {w} == ws + {w};
      }
    }
  }

  lemma MentionsStep(deltas: seq<Delta>, k: TrafficKey)
    requires deltas != []
    ensures Mentions(deltas, k) <==> Mentions(deltas[..|deltas| - 1], k) || deltas[|deltas| - 1].key == k
  {
    var n := |deltas| - 1;
    if Mentions(deltas[..n], k) {
      var i :| 0 <= i < n && deltas[..n][i].key == k;
      assert deltas[i].key == k;
    }
    if Mentions(deltas, k) && deltas[n].key != k {
      var i :| 0 <= i < |deltas| && deltas[i].key == k;
      assert deltas[..n][i].key == k;
    }
  }

  /**
   In every reachable state: a key has a row exactly if a window with bytes for it was committed since the last drain,
   and the row runs from the first start to the last end of these windows, in text order.
   */
  lemma {:induction false} EveryRowSpansItsWindows(ops: seq<Op>, enc: Encoding<TrafficBatch>, k: TrafficKey)
    ensures RowSpans(Run(EMPTY, ops, enc).acc, WindowsOf(ops, enc, k), k)
  {
    if ops != [] {
      var n := |ops| - 1;
      var l, op := Run(EMPTY, ops[..n], enc), ops[n];
      EveryRowSpansItsWindows(ops[..n], enc, k);
      if Commits(l, op) && op.AddWindow? {
        UpsertAllSpans(l.acc, op.deltas, Window(op.startedAt, op.endedAt), WindowsOf(ops[..n], enc, k), k);
      }
    }
  }

  ghost predicate InTimeOrder(a: StoredTime, b: StoredTime) {
    Comparable(a, b) && !OutOfOrder(a, b)
  }

  /** While the windows' stamps compare by time, the row covers each of them. */
  lemma RowCoversItsWindows(ops: seq<Op>, enc: Encoding<TrafficBatch>, k: TrafficKey, w: Window)
    requires var ws := WindowsOf(ops, enc, k);
             && w in ws
             && forall v :: v in ws ==>
                  InTimeOrder(v.startedAt, w.startedAt) && InTimeOrder(v.endedAt, w.endedAt)
    ensures var acc := Run(EMPTY, ops, enc).acc;
            k in acc && acc[k].startedAt.instant <= w.startedAt.instant && w.endedAt.instant <= acc[k].updatedAt.instant
  {
    EveryRowSpansItsWindows(ops, enc, k);
    var row := Run(EMPTY, ops, enc).acc[k];
    assert w.startedAt in Starts(WindowsOf(ops, enc, k)) && w.endedAt in Ends(WindowsOf(ops, enc, k));
    LessTrichotomy(row.startedAt.text, w.startedAt.text);
    LessTrichotomy(row.updatedAt.text, w.endedAt.text);
  }

  // ----- The interval of a batch

  ghost predicate IsEarliest(t: int, acc: Accumulator) {
    (exists k :: k in acc && acc[k].startedAt.instant == t) && forall k :: k in acc ==> t <= acc[k].startedAt.instant
  }

  ghost predicate IsLatest(t: int, acc: Accumulator) {
    (exists k :: k in acc && acc[k].updatedAt.instant == t) && forall k :: k in acc ==> acc[k].updatedAt.instant <= t
  }

  lemma {:induction false} EarliestAttained(acc: Accumulator, ks: seq<TrafficKey>) returns (i: nat)
    requires ks != [] && TimesSet(acc) && forall j :: 0 <= j < |ks| ==> ks[j] in acc
    ensures i < |ks| && EarliestStart(acc, ks) == acc[ks[i]].startedAt.instant
  {
    i := |ks| - 1;
    if |ks| > 1 {
      var j := EarliestAttained(acc, ks[..|ks| - 1]);
      i := if EarliestStart(acc, ks) == acc[ks[j]].startedAt.instant then j else i;
    }
  }

  lemma {:induction false} LatestAttained(acc: Accumulator, ks: seq<TrafficKey>) returns (i: nat)
    requires (forall j :: 0 <= j < |ks| ==> ks[j] in acc) && LatestEnd(acc, ks) > 0
    ensures i < |ks| && LatestEnd(acc, ks) == acc[ks[i]].updatedAt.instant
  {
    i := |ks| - 1;
    if LatestEnd(acc, ks) != acc[ks[i]].updatedAt.instant {
      i := LatestAttained(acc, ks[..|ks| - 1]);
    }
  }

  /** The extremes of the row loop are the extremes of the rows; ends before Go's zero time leave the clock reading. */
  lemma ExtremesOfRows(acc: Accumulator, first: int, last: int)
    requires TimesSet(acc) && IsEarliest(first, acc) && IsLatest(last, acc)
    ensures EarliestStart(acc, SelectKeys(acc)) == first
            && LatestEnd(acc, SelectKeys(acc)) == if last > 0 then last else 0
  {
    var ks := SelectKeys(acc);
    SelectKeysCorrect(acc);
    var a :| a in acc && acc[a].startedAt.instant == first;
    var b :| b in acc && acc[b].updatedAt.instant == last;
    var i :| 0 <= i < |ks| && ks[i] == a;
    var j :| 0 <= j < |ks| && ks[j] == b;
    ExtremesBoundRows(acc, ks, i);
    ExtremesBoundRows(acc, ks, j);
    var x := EarliestAttained(acc, ks);
    LatestEndAfterZero(acc, ks);
    if LatestEnd(acc, ks) > 0 {
      var y := LatestAttained(acc, ks);
    }
  }

  /**
   In every reachable state with rows to drain: the batch ends exactly at the latest end of its rows, or at the clock
   reading if that end is not after Go's zero time, and starts exactly at their earliest start, or a second before its
   end if that would leave it empty.
   */
  lemma DrainedIntervalExactly(ops: seq<Op>, enc: Encoding<TrafficBatch>, boot: string, configVersion: nat,
      now: StoredTime,
      first: int, last: int)
    requires var l := Run(EMPTY, ops, enc); AllExact(l.acc) && IsEarliest(first, l.acc) && IsLatest(last, l.acc)
    ensures var b := NextBatch(Run(EMPTY, ops, enc), boot, configVersion, now, enc.digest);
            && b.intervalEnd == (if last > 0 then last else now.instant)
            && b.intervalStart == (if first < b.intervalEnd then first else b.intervalEnd - NANOS_PER_SECOND)
  {
    RunSetsTimes(ops, enc);
    ExtremesOfRows(Run(EMPTY, ops, enc).acc, first, last);
  }
}
