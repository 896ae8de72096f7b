/**
 The access ledger: what every session added is in the drained batches, in its accumulator row, or was cut off by a
 counter that ran into its limit.
 */
module AccessLedger {
  import opened Ordering
  import opened Text
  import opened Stamps
  import opened WriteAheadLog
  import opened AccessRows
  import opened AccessLog

  datatype Counter = Uploaded | Downloaded | Opened

  function Of(c: Counter): AccessItem -> nat {
    match c
    case Uploaded => Uploads
    case Downloaded => Downloads
    case Opened => Connections
  }

  function Cap(c: Counter): nat {
    if c == Opened then MAX_INT32 else MAX_INT64
  }

  /** What a session's items add up to. */
  function Total(items: seq<AccessItem>, k: string, c: Counter): nat {
    Sum(OfSession(items, k), Of(c))
  }

  function DrainedTotal(batches: seq<AccessBatch>, k: string, c: Counter): nat {
    if batches == [] then 0
    else DrainedTotal(batches[..|batches| - 1], k, c) + Total(batches[|batches| - 1].items, k, c)
  }

  function Accumulated(acc: Accumulator, k: string, c: Counter): nat {
    if k in acc then Of(c)(acc[k]) else 0
  }

  function WithKeys(items: seq<AccessItem>, ks: set<string>): seq<AccessItem> {
    if items == [] then []
    else
      var rest, i := WithKeys(items[..|items| - 1], ks), items[|items| - 1];
      if i.sessionKey in ks then rest + [i] else rest
  }

  // ----- History of a run

  /** Every item a committed call added. */
  ghost function Added(ops: seq<Op>, enc: Encoding<AccessBatch>): seq<AccessItem> {
    if ops == [] then []
    else
      var n := |ops| - 1;
      var before := Added(ops[..n], enc);
      if ops[n].Add? && Commits(Run(ops[..n], enc), ops[n]) then before + ops[n].items else before
  }

  /** The items added since their session was last drained. */
  ghost function Undrained(ops: seq<Op>, enc: Encoding<AccessBatch>): seq<AccessItem> {
    if ops == [] then []
    else
      var n := |ops| - 1;
      var before, s := Undrained(ops[..n], enc), Run(ops[..n], enc);
      if !Commits(s, ops[n]) then before
      else
        match ops[n]
        case Add(items, _) => before + items
        case Drain(_, _, _, _) => WithKeys(before, Remaining(s.acc).Keys)
        case Acknowledge(_, _, _, _) => before
  }

  function Over(n: nat, cap: nat): nat {
    if n <= cap then 0 else n - cap
  }

  /** What drained rows had lost to their limit by the time they were drained. */
  ghost function Lost(ops: seq<Op>, enc: Encoding<AccessBatch>, k: string, c: Counter): nat {
    if ops == [] then 0
    else
      var n := |ops| - 1;
      var before, s := Lost(ops[..n], enc, k, c), Run(ops[..n], enc);
      if ops[n].Drain? && Commits(s, ops[n]) && k in DrainedKeys(s.acc)
      then before + Over(Total(Undrained(ops[..n], enc), k, c), Cap(c)) else before
  }

  // ----- Sums by session

  lemma {:induction false} OfSessionAppend(xs: seq<AccessItem>, ys: seq<AccessItem>, k: string)
    ensures OfSession(xs + ys, k) == OfSession(xs, k) + OfSession(ys, k)
  {
    if ys == [] {
      assert xs + ys == xs;
    } else {
      var n := |ys| - 1;
      OfSessionAppend(xs, ys[..n], k);
      assert (xs + ys)[..|xs + ys| - 1] == xs + ys[..n];
    }
  }

  lemma {:induction false} SumAppend(xs: seq<AccessItem>, ys: seq<AccessItem>, counter: AccessItem -> nat)
    ensures Sum(xs + ys, counter) == Sum(xs, counter) + Sum(ys, counter)
  {
    if ys == [] {
      assert xs + ys == xs;
    } else {
      var n := |ys| - 1;
      SumAppend(xs, ys[..n], counter);
      assert (xs + ys)[..|xs + ys| - 1] == xs + ys[..n];
    }
  }

  lemma TotalAppend(xs: seq<AccessItem>, ys: seq<AccessItem>, k: string, c: Counter)
    ensures Total(xs + ys, k, c) == Total(xs, k, c) + Total(ys, k, c)
  {
    OfSessionAppend(xs, ys, k);
    SumAppend(OfSession(xs, k), OfSession(ys, k), Of(c));
  }

  lemma {:induction false} WithKeysOfSession(items: seq<AccessItem>, ks: set<string>, k: string)
    ensures OfSession(WithKeys(items, ks), k) == if k in ks then OfSession(items, k) else []
  {
    if items != [] {
      var n := |items| - 1;
      var rest := WithKeys(items[..n], ks);
      WithKeysOfSession(items[..n], ks, k);
      assert (rest + [items[n]])[..|rest|] == rest;
    }
  }

  lemma {:induction false} WithKeysValid(items: seq<AccessItem>, ks: set<string>)
    requires AllValid(items)
    ensures AllValid(WithKeys(items, ks))
  {
    if items != [] {
      WithKeysValid(items[..|items| - 1], ks);
    }
  }

  /** The drained items hold one item per drained key, the row itself. */
  lemma {:induction false} ItemsOfSession(acc: Accumulator, ks: seq<string>, k: string)
    requires Keyed(acc) && Increasing(ks, Codes) && forall i :: 0 <= i < |ks| ==> ks[i] in acc
    ensures OfSession(Items(acc, ks), k) == if k in ks then [acc[k]] else []
  {
    if ks != [] {
      var n := |ks| - 1;
      ItemsOfSession(acc, ks[..n], k);
      assert Items(acc, ks)[..n] == Items(acc, ks[..n]);
      assert acc[ks[n]].sessionKey == ks[n];
      LastIsNew(ks);
    }
  }

  lemma LastIsNew(ks: seq<string>)
    requires ks != [] && Increasing(ks, Codes)
    ensures ks[|ks| - 1] !in ks[..|ks| - 1]
  {
    LessIrreflexive(Codes(ks[|ks| - 1]));
  }

  // ----- Rows are the capped sums of what was added since the last drain

  ghost predicate Tracked(acc: Accumulator, undrained: seq<AccessItem>, k: string) {
    && AllValid(undrained) && CountersInRange(OfSession(undrained, k))
    && Lookup(acc, k) == Fold(None, OfSession(undrained, k))
  }

  lemma AddTracked(acc: Accumulator, undrained: seq<AccessItem>, items: seq<AccessItem>, k: string)
    requires Keyed(acc) && AllValid(items) && Tracked(acc, undrained, k)
    ensures Tracked(UpsertAll(acc, items), undrained + items, k)
  {
    var xs, ys := OfSession(undrained, k), OfSession(items, k);
    RowsAreFolds(acc, items, k);
    OfSessionAppend(undrained, items, k);
    OfSessionInRange(undrained + items, k);
    FoldInParts(None, xs + ys, |xs|);
    assert (xs + ys)[..|xs|] == xs && (xs + ys)[|xs|..] == ys;
  }

  lemma DrainTracked(acc: Accumulator, undrained: seq<AccessItem>, k: string)
    requires Tracked(acc, undrained, k)
    ensures Tracked(Remaining(acc), WithKeys(undrained, Remaining(acc).Keys), k)
  {
    WithKeysValid(undrained, Remaining(acc).Keys);
    WithKeysOfSession(undrained, Remaining(acc).Keys, k);
  }

  lemma {:induction false} RunTracked(ops: seq<Op>, enc: Encoding<AccessBatch>, k: string)
    ensures Tracked(Run(ops, enc).acc, Undrained(ops, enc), k)
  {
    if ops != [] {
      var n := |ops| - 1;
      var s, op := Run(ops[..n], enc), ops[n];
      RunTracked(ops[..n], enc, k);
      if Commits(s, op) && op.Add? {
        AddTracked(s.acc, Undrained(ops[..n], enc), op.items, k);
      } else if Commits(s, op) && op.Drain? {
        DrainTracked(s.acc, Undrained(ops[..n], enc), k);
        NothingRemains(s.acc);
      }
    }
  }

  lemma NothingRemains(acc: Accumulator)
    ensures acc == map[] ==> Remaining(acc) == map[]
  {}

  lemma TrackedCounter(acc: Accumulator, undrained: seq<AccessItem>, k: string, c: Counter)
    requires Tracked(acc, undrained, k)
    ensures Accumulated(acc, k, c) == Min(Cap(c), Total(undrained, k, c))
    ensures k !in acc ==> OfSession(undrained, k) == []
  {
    FoldIsCappedSum(None, OfSession(undrained, k));
  }

  /**
   In every reachable state: a session has a row exactly if something was added since its last drain; the row says who
   and where as the last item does, runs from the first start to the last sighting in text order, and, if it is
   closed, ends at the last of the ends since it was last open.
   */
  lemma EveryRowSpansItsItems(ops: seq<Op>, enc: Encoding<AccessBatch>, k: string)
    ensures var acc, items := Run(ops, enc).acc, OfSession(Undrained(ops, enc), k);
            && (k in acc <==> items != [])
            && (k in acc ==>
                && SameLabels(acc[k], items[|items| - 1])
                && IsTextMin(acc[k].startedAt, StartsOf(items)) && IsTextMax(acc[k].lastSeenAt, SightingsOf(items)))
  {
    RunTracked(ops, enc, k);
    var items := OfSession(Undrained(ops, enc), k);
    FoldIsCappedSum(None, items);
    if items != [] {
      FoldSpans(items);
    }
  }

  lemma EveryRowEndsLast(ops: seq<Op>, enc: Encoding<AccessBatch>, k: string, m: nat)
    requires var items := OfSession(Undrained(ops, enc), k);
             && m <= |items| && items != [] && (m == 0 || items[m - 1].active)
             && forall j :: m <= j < |items| ==> !items[j].active
    ensures var acc, items := Run(ops, enc).acc, OfSession(Undrained(ops, enc), k);
            && k in acc
            && if m == |items| then acc[k].endedAt.None?
               else acc[k].endedAt.Some? && IsTextMax(acc[k].endedAt.value, EndsOf(items[m..]))
  {
    RunTracked(ops, enc, k);
    OfSessionValid(Undrained(ops, enc), k);
    FoldEnds(OfSession(Undrained(ops, enc), k), m);
  }

  lemma {:induction false} OfSessionValid(items: seq<AccessItem>, k: string)
    requires AllValid(items)
    ensures AllValid(OfSession(items, k))
  {
    if items != [] {
      OfSessionValid(items[..|items| - 1], k);
    }
  }

  // ----- The ledger

  ghost predicate Balanced(ops: seq<Op>, enc: Encoding<AccessBatch>, k: string, c: Counter) {
    var s := Run(ops, enc);
    Total(Added(ops, enc), k, c)
    == DrainedTotal(s.drained, k, c) + Accumulated(s.acc, k, c) + Lost(ops, enc, k, c)
        + Over(Total(Undrained(ops, enc), k, c), Cap(c))
  }

  lemma DrainedItemsTotal(acc: Accumulator, k: string, c: Counter)
    requires Keyed(acc)
    ensures Total(Items(acc, DrainedKeys(acc)), k, c) == if k in DrainedKeys(acc) then Accumulated(acc, k, c) else 0
  {
    var ks := DrainedKeys(acc);
    SelectKeysCorrect(acc);
    ItemsOfSession(acc, ks, k);
    if k in ks {
      assert [acc[k]][..0] == [] && Sum([acc[k]], Of(c)) == Of(c)(acc[k]);
    }
  }

  lemma RemainingTotals(acc: Accumulator, undrained: seq<AccessItem>, k: string, c: Counter)
    requires Tracked(acc, undrained, k)
    ensures var drained := k in DrainedKeys(acc);
            && Accumulated(Remaining(acc), k, c) == (if drained then 0 else Accumulated(acc, k, c))
            && Total(WithKeys(undrained, Remaining(acc).Keys), k, c) == (if drained then 0 else Total(undrained, k, c))
  {
    DrainPartitions(acc);
    WithKeysOfSession(undrained, Remaining(acc).Keys, k);
    TrackedCounter(acc, undrained, k, c);
  }

  lemma AddBalanced(ops: seq<Op>, enc: Encoding<AccessBatch>, k: string, c: Counter)
    requires ops != [] && Balanced(ops[..|ops| - 1], enc, k, c)
    requires var s, op := Run(ops[..|ops| - 1], enc), ops[|ops| - 1]; op.Add? && Commits(s, op)
    ensures Balanced(ops, enc, k, c)
  {
    var n := |ops| - 1;
    TotalAppend(Added(ops[..n], enc), ops[n].items, k, c);
    TotalAppend(Undrained(ops[..n], enc), ops[n].items, k, c);
    RunTracked(ops[..n], enc, k);
    RunTracked(ops, enc, k);
    TrackedCounter(Run(ops[..n], enc).acc, Undrained(ops[..n], enc), k, c);
    TrackedCounter(Run(ops, enc).acc, Undrained(ops, enc), k, c);
  }

  lemma DrainBalanced(ops: seq<Op>, enc: Encoding<AccessBatch>, k: string, c: Counter)
    requires ops != [] && Balanced(ops[..|ops| - 1], enc, k, c)
    requires var s, op := Run(ops[..|ops| - 1], enc), ops[|ops| - 1]; op.Drain? && Commits(s, op)
    ensures Balanced(ops, enc, k, c)
  {
    var n := |ops| - 1;
    var s, undrained := Run(ops[..n], enc), Undrained(ops[..n], enc);
    RunTracked(ops[..n], enc, k);
    TrackedCounter(s.acc, undrained, k, c);
    DrainedItemsTotal(s.acc, k, c);
    RemainingTotals(s.acc, undrained, k, c);
    NothingRemains(s.acc);
    if s.acc != map[] {
      DrainedTotalAppend(s.drained, NextBatch(s, ops[n].boot, ops[n].configVersion, ops[n].now, enc.digest), k, c);
    } else {
      NothingDrained(s.acc);
    }
  }

  lemma DrainedTotalAppend(batches: seq<AccessBatch>, b: AccessBatch, k: string, c: Counter)
    ensures DrainedTotal(batches + [b], k, c) == DrainedTotal(batches, k, c) + Total(b.items, k, c)
  {
    assert (batches + [b])[..|batches|] == batches;
  }

  lemma NothingDrained(acc: Accumulator)
    ensures acc == map[] ==> DrainedKeys(acc) == []
  {
    SelectKeysCorrect(acc);
  }

  /** Over every run: what a session added is drained, accumulated, or was cut off by its limit. */
  lemma {:induction false} EveryRunBalanced(ops: seq<Op>, enc: Encoding<AccessBatch>, k: string, c: Counter)
    ensures Balanced(ops, enc, k, c)
  {
    if ops != [] {
      var n := |ops| - 1;
      var s, op := Run(ops[..n], enc), ops[n];
      EveryRunBalanced(ops[..n], enc, k, c);
      if Commits(s, op) && op.Add? {
        AddBalanced(ops, enc, k, c);
      } else if Commits(s, op) && op.Drain? {
        DrainBalanced(ops, enc, k, c);
      }
    }
  }

  /** After every step so far, what was added since the last drain fits the counter. */
  ghost predicate NeverOver(ops: seq<Op>, enc: Encoding<AccessBatch>, k: string, c: Counter) {
    ops == [] || (Total(Undrained(ops, enc), k, c) <= Cap(c) && NeverOver(ops[..|ops| - 1], enc, k, c))
  }

  /**
   The access ledger: after any run, the drained batches and the accumulator hold no more of a counter than was added
   for the session, and hold exactly that if and only if the counter never ran into its limit between two drains.
   */
  lemma AccessBytesLedger(ops: seq<Op>, enc: Encoding<AccessBatch>, k: string, c: Counter)
    ensures var s := Run(ops, enc);
            var held, added := DrainedTotal(s.drained, k, c) + Accumulated(s.acc, k, c), Total(Added(ops, enc), k, c);
            held <= added && (held == added <==> NeverOver(ops, enc, k, c))
  {
    EveryRunBalanced(ops, enc, k, c);
    OverIsLost(ops, enc, k, c);
  }

  lemma {:induction false} OverIsLost(ops: seq<Op>, enc: Encoding<AccessBatch>, k: string, c: Counter)
    ensures NeverOver(ops, enc, k, c) <==> Lost(ops, enc, k, c) + Over(Total(Undrained(ops, enc), k, c), Cap(c)) == 0
  {
    if ops != [] {
      OverIsLost(ops[..|ops| - 1], enc, k, c);
      UndrainedGrows(ops, enc, k, c);
    }
  }

  /** Until it is drained, what a session added stays. */
  lemma UndrainedGrows(ops: seq<Op>, enc: Encoding<AccessBatch>, k: string, c: Counter)
    requires ops != []
    ensures var n := |ops| - 1;
            var s, before, after := Run(ops[..n], enc), Total(Undrained(ops[..n], enc), k, c),
                Total(Undrained(ops, enc), k, c);
            if ops[n].Drain? && Commits(s, ops[n]) && k in DrainedKeys(s.acc) then after == 0 else after >= before
  {
    var n := |ops| - 1;
    var s, op, undrained := Run(ops[..n], enc), ops[n], Undrained(ops[..n], enc);
    if Commits(s, op) && op.Add? {
      TotalAppend(undrained, op.items, k, c);
    } else if Commits(s, op) && op.Drain? {
      RunTracked(ops[..n], enc, k);
      RemainingTotals(s.acc, undrained, k, c);
    }
  }
}
