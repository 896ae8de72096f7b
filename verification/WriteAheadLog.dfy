/**
 The shape shared by the traffic_wal and access_wal tables: numbered batches waiting for an
 acknowledgement. Every query over them reads `ORDER BY created_at, sequence`, so a table is a
 sequence of rows kept in that order.
 */
module WriteAheadLog {
  import opened Ordering

  /** `createdAt` is the stored stamp text, `size` the length of the stored JSON. */
  datatype Row<B> = Row(boot: string, sequence: nat, hash: string, batch: B, createdAt: Key, size: nat)

  type Wal<B> = seq<Row<B>>

  /** How a batch is written out: the SHA-256 of its canonical JSON and the length of the stored JSON. */
  datatype Encoding<!B> = Encoding(digest: B -> string, jsonSize: B -> nat)

  ghost function Sequences<B>(wal: Wal<B>): set<nat> {
    set r | r in wal :: r.sequence
  }

  predicate DistinctSequences<B>(wal: Wal<B>) {
    forall i, j :: 0 <= i < j < |wal| ==> wal[i].sequence != wal[j].sequence
  }

  /** ORDER BY created_at, sequence, with created_at compared as text. */
  predicate Before<B>(a: Row<B>, b: Row<B>) {
    Less(a.createdAt, b.createdAt) || (a.createdAt == b.createdAt && a.sequence < b.sequence)
  }

  predicate Sorted<B>(wal: Wal<B>) {
    forall i, j :: 0 <= i < j < |wal| ==> Before(wal[i], wal[j])
  }

  lemma BeforeTransitive<B>(a: Row<B>, b: Row<B>, c: Row<B>)
    requires Before(a, b) && Before(b, c)
    ensures Before(a, c)
  {
    if Less(a.createdAt, b.createdAt) && Less(b.createdAt, c.createdAt) {
      LessTransitive(a.createdAt, b.createdAt, c.createdAt);
    }
  }

  /** A row is sent before another exactly if its time has the smaller text, or the same and it was drained before. */
  lemma BeforeExactly<B>(a: Row<B>, b: Row<B>)
    ensures Before(a, b) <==>
              !Less(b.createdAt, a.createdAt) && (a.createdAt == b.createdAt ==> a.sequence < b.sequence)
  {
    LessTrichotomy(a.createdAt, b.createdAt);
    LessIrreflexive(a.createdAt);
    if Less(a.createdAt, b.createdAt) {
      LessAsymmetric(a.createdAt, b.createdAt);
    }
  }

  lemma BeforeTotal<B>(a: Row<B>, b: Row<B>)
    requires a.sequence != b.sequence
    ensures Before(a, b) || Before(b, a)
  {
    LessTrichotomy(a.createdAt, b.createdAt);
  }

  /** INSERT: the row takes its place in query order. */
  function Insert<B>(wal: Wal<B>, r: Row<B>): Wal<B> {
    if wal == [] || Before(r, wal[0]) then [r] + wal else [wal[0]] + Insert(wal[1..], r)
  }

  lemma {:induction false} InsertMember<B>(wal: Wal<B>, r: Row<B>, x: Row<B>)
    ensures x in Insert(wal, r) <==> x == r || x in wal
  {
    if wal != [] && !Before(r, wal[0]) {
      InsertMember(wal[1..], r, x);
      assert wal == [wal[0]] + wal[1..];
    }
  }

  lemma InsertAddsNumber<B>(wal: Wal<B>, row: Row<B>)
    ensures Sequences(Insert(wal, row)) == Sequences(wal) + {row.sequence}
  {
    forall n ensures n in Sequences(Insert(wal, row)) <==> n in Sequences(wal) + {row.sequence} {
      InsertMember(wal, row, row);
      if n in Sequences(wal) {
        var r :| r in wal && r.sequence == n;
        InsertMember(wal, row, r);
      }
      if n in Sequences(Insert(wal, row)) {
        var r :| r in Insert(wal, row) && r.sequence == n;
        InsertMember(wal, row, r);
      }
    }
  }

  lemma {:induction false} InsertKeepsOrder<B>(wal: Wal<B>, r: Row<B>)
    requires Sorted(wal) && forall x :: x in wal ==> x.sequence != r.sequence
    ensures Sorted(Insert(wal, r)) && |Insert(wal, r)| == |wal| + 1
  {
    if wal != [] {
      var head := wal[0];
      if Before(r, head) {
        forall j | 0 <= j < |wal| ensures Before(r, wal[j]) {
          if j > 0 { BeforeTransitive(r, head, wal[j]); }
        }
      } else {
        BeforeTotal(r, head);
        InsertKeepsOrder(wal[1..], r);
        var rest := Insert(wal[1..], r);
        forall j | 0 <= j < |rest| ensures Before(head, rest[j]) {
          InsertMember(wal[1..], r, rest[j]);
        }
      }
    }
  }

  lemma {:induction false} InsertKeepsDistinct<B>(wal: Wal<B>, r: Row<B>)
    requires DistinctSequences(wal) && forall x :: x in wal ==> x.sequence != r.sequence
    ensures DistinctSequences(Insert(wal, r))
  {
    if wal != [] && !Before(r, wal[0]) {
      InsertKeepsDistinct(wal[1..], r);
      var rest := Insert(wal[1..], r);
      forall j | 0 <= j < |rest| ensures wal[0].sequence != rest[j].sequence {
        InsertMember(wal[1..], r, rest[j]);
      }
    }
  }

  predicate Matches<B>(r: Row<B>, boot: string, sequence: nat, hash: string) {
    r.boot == boot && r.sequence == sequence && r.hash == hash
  }

  /** DELETE ... WHERE boot_id = ? AND sequence = ? AND payload_sha256 = ? */
  function Delete<B>(wal: Wal<B>, boot: string, sequence: nat, hash: string): Wal<B> {
    if wal == [] then []
    else if Matches(wal[0], boot, sequence, hash) then Delete(wal[1..], boot, sequence, hash)
    else [wal[0]] + Delete(wal[1..], boot, sequence, hash)
  }

  lemma {:induction false} DeleteMember<B>(wal: Wal<B>, boot: string, sequence: nat, hash: string, x: Row<B>)
    ensures x in Delete(wal, boot, sequence, hash) <==> x in wal && !Matches(x, boot, sequence, hash)
  {
    if wal != [] {
      DeleteMember(wal[1..], boot, sequence, hash, x);
      assert wal == [wal[0]] + wal[1..];
    }
  }

  /** With one row per number, deleting a matching row removes exactly its number. */
  lemma DeleteRemovesNumber<B>(wal: Wal<B>, boot: string, sequence: nat, hash: string)
    requires DistinctSequences(wal)
    ensures Sequences(Delete(wal, boot, sequence, hash))
         == if exists r :: r in wal && Matches(r, boot, sequence, hash) then Sequences(wal) - {sequence}
             else Sequences(wal)
  {
    var rest := Delete(wal, boot, sequence, hash);
    forall n | n in Sequences(wal) && n != sequence ensures n in Sequences(rest) {
      var r :| r in wal && r.sequence == n;
      DeleteMember(wal, boot, sequence, hash, r);
    }
    forall r | r in rest ensures r in wal && !Matches(r, boot, sequence, hash) {
      DeleteMember(wal, boot, sequence, hash, r);
    }
    if exists r :: r in wal && Matches(r, boot, sequence, hash) {
      var m :| m in wal && Matches(m, boot, sequence, hash);
      forall r | r in rest ensures r.sequence != sequence {
        assert r in wal && m in wal;
        var i :| 0 <= i < |wal| && wal[i] == r;
        var j :| 0 <= j < |wal| && wal[j] == m;
      }
    } else {
      forall n | n in Sequences(wal) ensures n in Sequences(rest) {
        var r :| r in wal && r.sequence == n;
        DeleteMember(wal, boot, sequence, hash, r);
      }
    }
  }

  lemma {:induction false} DeleteKeepsOrder<B>(wal: Wal<B>, boot: string, sequence: nat, hash: string)
    requires Sorted(wal)
    ensures Sorted(Delete(wal, boot, sequence, hash))
    ensures (forall x :: x in wal ==> !Matches(x, boot, sequence, hash)) ==> Delete(wal, boot, sequence, hash) == wal
  {
    if wal != [] {
      DeleteKeepsOrder(wal[1..], boot, sequence, hash);
      var rest := Delete(wal[1..], boot, sequence, hash);
      assert wal == [wal[0]] + wal[1..];
      forall j | 0 <= j < |rest| ensures Before(wal[0], rest[j]) {
        DeleteMember(wal[1..], boot, sequence, hash, rest[j]);
      }
    }
  }

  lemma {:induction false} DeleteKeepsDistinct<B>(wal: Wal<B>, boot: string, sequence: nat, hash: string)
    requires DistinctSequences(wal)
    ensures DistinctSequences(Delete(wal, boot, sequence, hash))
  {
    if wal != [] {
      DeleteKeepsDistinct(wal[1..], boot, sequence, hash);
      var rest := Delete(wal[1..], boot, sequence, hash);
      forall j | 0 <= j < |rest| ensures wal[0].sequence != rest[j].sequence {
        DeleteMember(wal[1..], boot, sequence, hash, rest[j]);
      }
    }
  }

  /** SELECT ... LIMIT ?, with an out-of-range limit replaced by 100. */
  function Pending<B>(wal: Wal<B>, limit: int): (rows: seq<Row<B>>)
    ensures rows <= wal && |rows| <= 1000
    ensures var n := if 1 <= limit <= 1000 then limit else 100; |rows| == if |wal| < n then |wal| else n
  {
    var n := if limit <= 0 || limit > 1000 then 100 else limit;
    if |wal| <= n then wal else wal[..n]
  }

  /** COALESCE(SUM(LENGTH(payload_json)), 0) */
  function Bytes<B>(wal: Wal<B>): nat {
    if wal == [] then 0 else wal[0].size + Bytes(wal[1..])
  }

  predicate Fits<B>(wal: Wal<B>, maxBatches: int, maxBytes: int) {
    |wal| <= maxBatches && Bytes(wal) <= maxBytes
  }

  /** The rows left once the oldest are dropped until both limits hold. */
  function Newest<B>(wal: Wal<B>, maxBatches: int, maxBytes: int): Wal<B> {
    if wal == [] || Fits(wal, maxBatches, maxBytes) then wal else Newest(wal[1..], maxBatches, maxBytes)
  }

  lemma {:induction false} BytesOfSuffix<B>(wal: Wal<B>, k: nat)
    requires k <= |wal|
    ensures Bytes(wal[k..]) <= Bytes(wal)
  {
    if k > 0 {
      BytesOfSuffix(wal[1..], k - 1);
      assert wal[1..][k - 1..] == wal[k..];
    }
  }

  /** Exactly the longest suffix within both limits: it fits, and every suffix that fits is no longer. */
  lemma {:induction false} NewestIsLongestFit<B>(wal: Wal<B>, maxBatches: int, maxBytes: int)
    requires maxBatches >= 0 && maxBytes >= 0
    ensures var kept := Newest(wal, maxBatches, maxBytes);
            |kept| <= |wal| && kept == wal[|wal| - |kept|..] && Fits(kept, maxBatches, maxBytes)
    ensures forall k :: 0 <= k <= |wal| ==>
              (Fits(wal[k..], maxBatches, maxBytes) <==> |wal| - k <= |Newest(wal, maxBatches, maxBytes)|)
  {
    if wal != [] {
      assert wal[0..] == wal;
      if Fits(wal, maxBatches, maxBytes) {
        forall k | 0 <= k <= |wal| ensures Fits(wal[k..], maxBatches, maxBytes) {
          BytesOfSuffix(wal, k);
        }
      } else {
        NewestIsLongestFit(wal[1..], maxBatches, maxBytes);
        var kept := Newest(wal[1..], maxBatches, maxBytes);
        assert wal[1..][|wal| - 1 - |kept|..] == wal[|wal| - |kept|..];
        forall k | 1 <= k <= |wal|
          ensures Fits(wal[k..], maxBatches, maxBytes) <==> |wal| - k <= |kept|
        {
          assert wal[1..][k - 1..] == wal[k..];
        }
      }
    }
  }
}
