/**
 Durable user snapshots: credentials go into the secret store one file at a time under a reference that names
 the revision, then one transaction replaces the user rows by rows pointing at those references. Restoring
 reads the rows back through the secret store.
 */
module UserSnapshots {
  import opened Ordering
  import opened Text
  import opened Selections
  import opened CanonicalForms
  import opened AccessRows
  import opened XrayRuntime

  // ----- Secret references

  function KeepNameChars(s: string): (r: string)
    ensures forall i :: 0 <= i < |r| ==> IsNameChar(r[i])
  {
    if s == "" then ""
    else
      var rest, c := KeepNameChars(s[..|s| - 1]), s[|s| - 1];
      if IsNameChar(c) then rest + [c] else rest
  }

  /** normalizedCredentialKind, with strings.ToLower as `lower`. */
  function NormalizedKind(kind: string, lower: string -> string): (r: string)
    ensures r != "" && forall i :: 0 <= i < |r| ==> IsNameChar(r[i])
  {
    var kept := KeepNameChars(lower(TrimSpace(kind)));
    if kept == "" then "credential" else kept
  }

  /** What is kept are exactly the name characters, in order. */
  lemma {:induction false} KeptNameChars(s: string)
    ensures KeepNameChars(s) == Select(s, NameCharacter())
    ensures IsSelection(KeepNameChars(s), s, NameCharacter())
  {
    KeptIsSelect(s);
    SelectIsSelection(s, NameCharacter());
  }

  function NameCharacter(): char -> bool {
    c => IsNameChar(c)
  }

  lemma {:induction false} KeptIsSelect(s: string)
    ensures KeepNameChars(s) == Select(s, NameCharacter())
  {
    if s != "" {
      KeptIsSelect(s[..|s| - 1]);
    }
  }

  /** The normalized kind is the kept characters of the lowered, trimmed kind, or a stand-in if there are none. */
  lemma NormalizedKindExactly(kind: string, lower: string -> string)
    ensures var text := lower(TrimSpace(kind));
            if exists c :: c in text && IsNameChar(c)
                then IsSelection(NormalizedKind(kind, lower), text, NameCharacter())
            else NormalizedKind(kind, lower) == "credential"
  {
    var text := lower(TrimSpace(kind));
    KeptNameChars(text);
    SelectionMembers(KeepNameChars(text), text, NameCharacter());
    if KeepNameChars(text) != "" {
      assert KeepNameChars(text)[0] in KeepNameChars(text);
    }
    if c :| c in text && IsNameChar(c) {
      assert c in KeepNameChars(text);
    }
  }

  method NormalizeCredentialKind(kind: string, lower: string -> string) returns (r: string)
    ensures r == NormalizedKind(kind, lower)
  {
    var value := lower(TrimSpace(kind));
    r := "";
    for n := 0 to |value|
      invariant r == KeepNameChars(value[..n])
    {
      assert value[..n + 1][..n] == value[..n];
      if IsNameChar(value[n]) {
        r := r + [value[n]];
      }
    }
    assert value[..|value|] == value;
    if |r| == 0 {
      r := "credential";
    }
  }

  /** user-secret:<kind>_<inbound>:<subscriber>:<revision> */
  function Ref(kind: string, inbound: int, subscriber: int, revision: nat): string {
    "user-secret" + [':'] + (kind + ['_'] + Signed(inbound) + [':'] + (Signed(subscriber) + [':'] + Decimal(revision)))
  }

  ghost predicate NameChars(s: string) {
    s != "" && forall i :: 0 <= i < |s| ==> IsNameChar(s[i])
  }

  lemma RefParts(kind: string, inbound: int, subscriber: int, revision: nat)
    requires NameChars(kind)
    ensures Split(Ref(kind, inbound, subscriber, revision), ':')
         == ["user-secret", kind + ['_'] + Signed(inbound), Signed(subscriber), Decimal(revision)]
  {
    var middle, tail := kind + ['_'] + Signed(inbound), Signed(subscriber) + [':'] + Decimal(revision);
    assert ':' !in middle && ':' !in Signed(subscriber) && ':' !in Decimal(revision);
    SplitNone(Decimal(revision), ':');
    SplitFirst(Signed(subscriber), ':', Decimal(revision));
    SplitFirst(middle, ':', tail);
    SplitFirst("user-secret", ':', middle + [':'] + tail);
  }

  lemma LastUnderscoreSplits(a: string, x: string, b: string, y: string)
    requires '_' !in x && '_' !in y && a + ['_'] + x == b + ['_'] + y
    ensures a == b && x == y
  {
    var s := a + ['_'] + x;
    LastUnderscore(s, a, x);
    LastUnderscore(s, b, y);
  }

  lemma LastUnderscore(s: string, a: string, x: string)
    requires s == a + ['_'] + x && '_' !in x
    ensures |a| < |s| && s[..|a|] == a && s[|a| + 1..] == x
    ensures s[|a|] == '_' && forall j :: |a| < j < |s| ==> s[j] != '_'
  {
    forall j | |a| < j < |s| ensures s[j] != '_' {
      assert s[j] == x[j - |a| - 1];
    }
  }

  /** The reference tells kind, inbound, subscriber and revision apart. */
  lemma RefInjective(k1: string, i1: int, s1: int, r1: nat, k2: string, i2: int, s2: int, r2: nat)
    requires NameChars(k1) && NameChars(k2) && Ref(k1, i1, s1, r1) == Ref(k2, i2, s2, r2)
    ensures k1 == k2 && i1 == i2 && s1 == s2 && r1 == r2
  {
    RefParts(k1, i1, s1, r1);
    RefParts(k2, i2, s2, r2);
    var p, q := Split(Ref(k1, i1, s1, r1), ':'), Split(Ref(k2, i2, s2, r2), ':');
    assert p[1] == q[1] && p[2] == q[2] && p[3] == q[3];
    LastUnderscoreSplits(k1, Signed(i1), k2, Signed(i2));
    SignedInjective(i1, i2);
    SignedInjective(s1, s2);
    DecimalInjective(r1, r2);
  }

  /**
   The secret store's grammar admits the reference exactly when the kind starts with a letter and the subscriber is
   not negative.
   */
  lemma RefAdmittedExactly(kind: string, inbound: int, subscriber: int, revision: nat)
    requires NameChars(kind)
    ensures IsSecretRef(Ref(kind, inbound, subscriber, revision)) <==> IsLower(kind[0]) && subscriber >= 0
  {
    RefParts(kind, inbound, subscriber, revision);
    var parts := Split(Ref(kind, inbound, subscriber, revision), ':');
    assert parts[0] == "user-secret" && IsName(parts[0]);
    assert parts[1][0] == kind[0];
    if subscriber < 0 {
      assert parts[2][0] == '-';
    }
  }

  function RefOf(u: User, revision: nat, lower: string -> string): string {
    Ref(NormalizedKind(u.kind, lower), u.inbound, u.subscriber, revision)
  }

  /** The references of one revision. */
  function RefAt(revision: nat, lower: string -> string): User -> string {
    u => RefOf(u, revision, lower)
  }

  // ----- What is on disk

  type UserKey = (int, int)

  datatype Row = Row(revision: nat, user: User)

  /** The secret files by reference, and the users table by (subscriber, inbound) with the applied revision. */
  datatype Disk = Disk(secrets: map<string, string>, rows: map<UserKey, Row>, applied: nat)

  datatype Snapshot = Snapshot(revision: nat, users: seq<User>)

  const BLANK := Disk(map[], map[], 0)

  function KeyOf(u: User): UserKey {
    (u.subscriber, u.inbound)
  }

  /** secretstore.Put refuses references outside the grammar and empty or oversized material. */
  predicate CanPut(u: User, revision: nat, lower: string -> string) {
    IsSecretRef(RefOf(u, revision, lower)) && 0 < Utf8Length(u.value) <= 1_048_576
  }

  /**
   A credential can be stored exactly if it is neither empty nor over a mebibyte and its kind starts with a letter.
   */
  lemma CanPutExactly(u: User, revision: nat, lower: string -> string)
    ensures CanPut(u, revision, lower) <==>
              IsLower(NormalizedKind(u.kind, lower)[0]) && u.subscriber >= 0
              && u.value != "" && Utf8Length(u.value) <= 1024 * 1024
  {
    RefAdmittedExactly(NormalizedKind(u.kind, lower), u.inbound, u.subscriber, revision);
  }

  function PutAll(secrets: map<string, string>, users: seq<User>, ref: User -> string): map<string, string> {
    if users == [] then secrets
    else PutAll(secrets, users[..|users| - 1], ref)[ref(users[|users| - 1]) := users[|users| - 1].value]
  }

  function PutCheck(revision: nat, lower: string -> string): User -> bool {
    u => CanPut(u, revision, lower)
  }

  /** How many users are put before the process stops or one is refused. */
  function Reached(users: seq<User>, canPut: User -> bool, stopAfter: nat): (n: nat)
    ensures n <= |users|
  {
    if users == [] then 0
    else
      var n := |users| - 1;
      var before := Reached(users[..n], canPut, stopAfter);
      if before == n && n < stopAfter && canPut(users[n]) then n + 1 else before
  }

  function Pointing(users: seq<User>, ref: User -> string): seq<User> {
    seq(|users|, i requires 0 <= i < |users| => users[i].(value := ref(users[i])))
  }

  /** The INSERT loop. */
  function RowsOf(users: seq<User>, revision: nat): map<UserKey, Row> {
    if users == [] then map[]
    else RowsOf(users[..|users| - 1], revision)[KeyOf(users[|users| - 1]) := Row(revision, users[|users| - 1])]
  }

  predicate Insertable(u: User) {
    u.subscriber > 0 && u.inbound > 0 && u.kind != "" && u.value != "" && u.speedLimit <= MAX_INT64
        && u.generation <= MAX_INT64
  }

  predicate DistinctKeys(users: seq<User>) {
    forall i, j :: 0 <= i < j < |users| ==> KeyOf(users[i]) != KeyOf(users[j])
  }

  /** Every row can be inserted: valid fields, and no primary-key conflict. */
  predicate AllInsertable(users: seq<User>) {
    DistinctKeys(users) && forall i :: 0 <= i < |users| ==> Insertable(users[i])
  }

  predicate ReplaceSucceeds(d: Disk, s: Snapshot, fails: bool) {
    !fails && 0 < s.revision <= MAX_INT64 && |s.users| <= 100000 && s.revision >= d.applied
        && (s.revision == d.applied || AllInsertable(s.users))
  }

  /** ReplaceUsers as one transaction. */
  function AfterReplace(d: Disk, s: Snapshot, fails: bool): Disk {
    if !ReplaceSucceeds(d, s, fails) || s.revision == d.applied then d
    else d.(rows := RowsOf(s.users, s.revision), applied := s.revision)
  }

  /**
   One handled snapshot: the runtime's verdict, how many secrets are put before the process dies, and whether the
   replacing transaction fails.
   */
  datatype Attempt = Attempt(snapshot: Snapshot, runtimeAccepts: bool, stopAfter: nat, replaceFails: bool)

  function AfterAttempt(d: Disk, a: Attempt, lower: string -> string): Disk {
    var s := a.snapshot;
    if !a.runtimeAccepts then d
    else
      var n := Reached(s.users, PutCheck(s.revision, lower), a.stopAfter);
      var put := d.(secrets := PutAll(d.secrets, s.users[..n], RefAt(s.revision, lower)));
      if n < |s.users| then put else AfterReplace(put,
                                                  Snapshot(s.revision, Pointing(s.users, RefAt(s.revision, lower))),
                                                      a.replaceFails)
  }

  predicate Commits(d: Disk, a: Attempt, lower: string -> string) {
    a.runtimeAccepts && Reached(a.snapshot.users, PutCheck(a.snapshot.revision, lower), a.stopAfter)
        == |a.snapshot.users|
    && a.snapshot.revision > d.applied
    && ReplaceSucceeds(d, Snapshot(a.snapshot.revision, Pointing(a.snapshot.users, RefAt(a.snapshot.revision, lower))),
                       a.replaceFails)
  }

  /** Handling the snapshot ends in the report of a success. */
  predicate Succeeds(d: Disk, a: Attempt, lower: string -> string) {
    && a.runtimeAccepts
    && Reached(a.snapshot.users, PutCheck(a.snapshot.revision, lower), a.stopAfter) == |a.snapshot.users|
    && ReplaceSucceeds(d, Snapshot(a.snapshot.revision, Pointing(a.snapshot.users, RefAt(a.snapshot.revision, lower))),
                       a.replaceFails)
  }

  /** Every put is made exactly if each is admitted and the process does not stop before the last. */
  lemma {:induction false} AllPutExactly(users: seq<User>, canPut: User -> bool, stopAfter: nat)
    ensures Reached(users, canPut, stopAfter) == |users| <==>
              |users| <= stopAfter && forall u :: u in users ==> canPut(u)
  {
    if users != [] {
      var n := |users| - 1;
      AllPutExactly(users[..n], canPut, stopAfter);
      assert users == users[..n] + [users[n]];
    }
  }

  /**
   A snapshot is reported as a success exactly if the runtime takes it, every credential can be stored, nothing fails,
   it is within the limits, and its revision is either the applied one, or newer with rows that can all be inserted. So
   a resend of the applied revision succeeds whatever its rows, and a stale revision never does.
   */
  lemma SnapshotSucceedsExactly(d: Disk, a: Attempt, lower: string -> string)
    ensures Succeeds(d, a, lower) <==>
              && a.runtimeAccepts && !a.replaceFails && |a.snapshot.users| <= a.stopAfter
              && (forall u :: u in a.snapshot.users ==>
                    && IsLower(NormalizedKind(u.kind, lower)[0]) && u.subscriber >= 0
                    && u.value != "" && Utf8Length(u.value) <= 1024 * 1024)
              && 0 < a.snapshot.revision <= MAX_INT64 && |a.snapshot.users| <= 100000
              && (a.snapshot.revision != d.applied ==>
                  && a.snapshot.revision > d.applied && DistinctKeys(a.snapshot.users)
                  && forall u :: u in a.snapshot.users ==>
                       && u.subscriber > 0 && u.inbound > 0 && u.kind != ""
                       && u.speedLimit <= MAX_INT64 && u.generation <= MAX_INT64)
    ensures a.snapshot.revision > d.applied ==> (Succeeds(d, a, lower) <==> Commits(d, a, lower))
  {
    forall u | u in a.snapshot.users
      ensures PutCheck(a.snapshot.revision, lower)(u) <==>
                IsLower(NormalizedKind(u.kind, lower)[0]) && u.subscriber >= 0
                && u.value != "" && Utf8Length(u.value) <= 1024 * 1024
    {
      CanPutExactly(u, a.snapshot.revision, lower);
    }
    AllPutExactly(a.snapshot.users, PutCheck(a.snapshot.revision, lower), a.stopAfter);
    PointingInsertable(a.snapshot.users, RefAt(a.snapshot.revision, lower));
  }

  lemma PointingInsertable(users: seq<User>, ref: User -> string)
    requires forall u :: ref(u) != ""
    ensures AllInsertable(Pointing(users, ref)) <==>
              && DistinctKeys(users)
              && forall u :: u in users ==>
                   && u.subscriber > 0 && u.inbound > 0 && u.kind != ""
                   && u.speedLimit <= MAX_INT64 && u.generation <= MAX_INT64
  {
    var p := Pointing(users, ref);
    PointingKeepsKeys(users, ref);
    forall i | 0 <= i < |users|
      ensures Insertable(p[i]) <==> && users[i].subscriber > 0 && users[i].inbound > 0 && users[i].kind != ""
                                    && users[i].speedLimit <= MAX_INT64 && users[i].generation <= MAX_INT64
    {
      assert p[i] == users[i].(value := ref(users[i]));
    }
    if AllInsertable(p) {
      forall u | u in users
        ensures u.subscriber > 0 && u.inbound > 0 && u.kind != "" && u.speedLimit <= MAX_INT64
                && u.generation <= MAX_INT64
      {
        var i :| 0 <= i < |users| && users[i] == u;
        assert Insertable(p[i]);
      }
    }
  }

  // ----- What the disk means

  predicate Resolves(d: Disk) {
    forall k :: k in d.rows ==> d.rows[k].user.value in d.secrets
  }

  /** The users a restore would see. */
  function View(d: Disk): map<UserKey, User>
    requires Resolves(d)
  {
    map k | k in d.rows :: d.rows[k].user.(value := d.secrets[d.rows[k].user.value])
  }

  function ViewOf(users: seq<User>): map<UserKey, User> {
    if users == [] then map[] else ViewOf(users[..|users| - 1])[KeyOf(users[|users| - 1]) := users[|users| - 1]]
  }

  /** Each row points at the reference made of its own fields and revision. */
  predicate OwnRefs(d: Disk, lower: string -> string) {
    forall k :: k in d.rows ==> d.rows[k].user.value == RefAt(d.rows[k].revision, lower)(d.rows[k].user)
  }

  /** No user of the snapshot would overwrite, with another value, a secret that a stored row points at. */
  predicate NoClobber(d: Disk, users: seq<User>, ref: User -> string)
    requires Resolves(d)
  {
    forall i, k :: 0 <= i < |users| && k in d.rows && d.rows[k].user.value == ref(users[i]) ==>
                     users[i].value == d.secrets[d.rows[k].user.value]
  }

  /** The disk after the first `j` secrets of a snapshot. */
  function Putting(d: Disk, users: seq<User>, ref: User -> string, j: nat): Disk
    requires j <= |users|
  {
    d.(secrets := PutAll(d.secrets, users[..j], ref))
  }

  lemma {:induction false} PutAllKeepsOthers(secrets: map<string, string>, users: seq<User>, ref: User -> string,
      r: string)
    requires r in secrets && forall i :: 0 <= i < |users| && ref(users[i]) == r ==> users[i].value == secrets[r]
    ensures r in PutAll(secrets, users, ref) && PutAll(secrets, users, ref)[r] == secrets[r]
  {
    if users != [] {
      PutAllKeepsOthers(secrets, users[..|users| - 1], ref, r);
    }
  }

  lemma UnclobberedView(d: Disk, users: seq<User>, ref: User -> string, j: nat)
    requires Resolves(d) && NoClobber(d, users, ref) && j <= |users|
    ensures Resolves(Putting(d, users, ref, j)) && View(Putting(d, users, ref, j)) == View(d)
  {
    var after := PutAll(d.secrets, users[..j], ref);
    forall k | k in d.rows ensures d.rows[k].user.value in after
        && after[d.rows[k].user.value] == d.secrets[d.rows[k].user.value] {
      PutAllKeepsOthers(d.secrets, users[..j], ref, d.rows[k].user.value);
    }
  }

  /**
   Until the rows are replaced, the disk keeps meaning the old snapshot at every crash point exactly when no secret
   a stored row points at is overwritten with another value.
   */
  lemma OldSnapshotSurvivesPutsExactly(d: Disk, users: seq<User>, ref: User -> string)
    requires Resolves(d)
    ensures NoClobber(d, users, ref) <==>
              forall j: nat :: j <= |users| ==>
                Resolves(Putting(d, users, ref, j)) && View(Putting(d, users, ref, j)) == View(d)
  {
    if NoClobber(d, users, ref) {
      forall j: nat | j <= |users| ensures Resolves(Putting(d, users, ref, j))
          && View(Putting(d, users, ref, j)) == View(d) {
        UnclobberedView(d, users, ref, j);
      }
    } else {
      var i, k :| 0 <= i < |users| && k in d.rows && d.rows[k].user.value == ref(users[i])
          && users[i].value != d.secrets[d.rows[k].user.value];
      var put := Putting(d, users, ref, i + 1);
      assert users[..i + 1][..i] == users[..i];
      assert put.secrets[d.rows[k].user.value] == users[i].value;
      if Resolves(put) {
        assert View(put)[k].value != View(d)[k].value;
      }
    }
  }

  /**
   The process may stop after any put of an attempt: the stored snapshot survives all of these stops exactly when no
   put the loop can reach overwrites, with another value, a secret a stored row points at.
   */
  lemma StopsKeepViewExactly(d: Disk, s: Snapshot, lower: string -> string)
    requires Resolves(d)
    ensures var ref, check := RefAt(s.revision, lower), PutCheck(s.revision, lower);
            NoClobber(d, s.users[..Reached(s.users, check, |s.users|)], ref) <==>
              forall stopAfter: nat :: KeepsView(d, AfterAttempt(d, Attempt(s, true, stopAfter, true), lower))
  {
    var ref, check := RefAt(s.revision, lower), PutCheck(s.revision, lower);
    var reach := Reached(s.users, check, |s.users|);
    var users := s.users[..reach];
    forall stopAfter: nat
      ensures AfterAttempt(d, Attempt(s, true, stopAfter, true), lower)
              == Putting(d, users, ref, if stopAfter < reach then stopAfter else reach)
    {
      ReachedEarlier(s.users, check, stopAfter);
      var n := Reached(s.users, check, stopAfter);
      assert users[..n] == s.users[..n];
    }
    OldSnapshotSurvivesPutsExactly(d, users, ref);
    if forall stopAfter: nat :: KeepsView(d, AfterAttempt(d, Attempt(s, true, stopAfter, true), lower)) {
      forall j: nat | j <= |users| ensures Resolves(Putting(d, users, ref, j))
          && View(Putting(d, users, ref, j)) == View(d) {
        assert KeepsView(d, AfterAttempt(d, Attempt(s, true, j, true), lower));
      }
    }
  }

  predicate KeepsView(d: Disk, d': Disk)
    requires Resolves(d)
  {
    Resolves(d') && View(d') == View(d)
  }

  lemma {:induction false} ReachedEarlier(users: seq<User>, canPut: User -> bool, stopAfter: nat)
    ensures var reach := Reached(users, canPut, |users|);
            Reached(users, canPut, stopAfter) == if stopAfter < reach then stopAfter else reach
  {
    if users != [] {
      var n := |users| - 1;
      ReachedEarlier(users[..n], canPut, stopAfter);
      ReachedAhead(users[..n], canPut, |users|);
    }
  }

  lemma {:induction false} ReachedAhead(users: seq<User>, canPut: User -> bool, stopAfter: nat)
    requires stopAfter >= |users|
    ensures Reached(users, canPut, stopAfter) == Reached(users, canPut, |users|)
  {
    if users != [] {
      var n := |users| - 1;
      ReachedAhead(users[..n], canPut, stopAfter);
      ReachedAhead(users[..n], canPut, |users|);
    }
  }

  /** A revision no stored row carries clobbers nothing: the references cannot coincide. */
  lemma FreshRevisionClobbersNothing(d: Disk, users: seq<User>, revision: nat, lower: string -> string)
    requires Resolves(d) && OwnRefs(d, lower) && forall k :: k in d.rows ==> d.rows[k].revision != revision
    ensures NoClobber(d, users, RefAt(revision, lower))
  {
    var ref := RefAt(revision, lower);
    forall i, k | 0 <= i < |users| && k in d.rows ensures d.rows[k].user.value != ref(users[i]) {
      if d.rows[k].user.value == ref(users[i]) {
        SameRefSameUser(users[i], revision, d.rows[k].user, d.rows[k].revision, lower);
      }
    }
  }

  /** Neither does sending the stored snapshot again: every put writes the value already there. */
  lemma ResendClobbersNothing(d: Disk, s: Snapshot, lower: string -> string)
    requires Resolves(d) && FiledUnder(d, s.revision, lower) && DistinctKeys(s.users) && View(d) == ViewOf(s.users)
    ensures NoClobber(d, s.users, RefAt(s.revision, lower))
  {
    var ref := RefAt(s.revision, lower);
    forall i, k | 0 <= i < |s.users| && k in d.rows && d.rows[k].user.value == ref(s.users[i])
      ensures s.users[i].value == d.secrets[d.rows[k].user.value]
    {
      assert RowFiled(d.rows[k], k, s.revision, ref);
      SameRefSameUser(s.users[i], s.revision, d.rows[k].user, s.revision, lower);
      ViewHoldsUsers(s.users, s.users[i]);
      assert View(d)[k] == s.users[i];
    }
  }

  // ----- Committing

  lemma SameRefSameUser(u: User, r: nat, v: User, q: nat, lower: string -> string)
    requires RefAt(r, lower)(u) == RefAt(q, lower)(v)
    ensures KeyOf(u) == KeyOf(v) && r == q
  {
    RefInjective(NormalizedKind(u.kind, lower), u.inbound, u.subscriber, r, NormalizedKind(v.kind, lower), v.inbound,
                 v.subscriber, q);
  }

  ghost predicate DistinctRefs(users: seq<User>, ref: User -> string) {
    forall i, j :: 0 <= i < j < |users| ==> ref(users[i]) != ref(users[j])
  }

  lemma DistinctKeysDistinctRefs(users: seq<User>, revision: nat, lower: string -> string)
    requires DistinctKeys(users)
    ensures DistinctRefs(users, RefAt(revision, lower))
  {
    var ref := RefAt(revision, lower);
    forall i, j | 0 <= i < j < |users| ensures ref(users[i]) != ref(users[j]) {
      if ref(users[i]) == ref(users[j]) {
        SameRefSameUser(users[i], revision, users[j], revision, lower);
      }
    }
  }

  lemma {:induction false} PutAllWrites(secrets: map<string, string>, users: seq<User>, ref: User -> string, i: nat)
    requires i < |users| && DistinctRefs(users, ref)
    ensures ref(users[i]) in PutAll(secrets, users, ref) && PutAll(secrets, users, ref)[ref(users[i])] == users[i].value
  {
    if i < |users| - 1 {
      PutAllWrites(secrets, users[..|users| - 1], ref, i);
    }
  }

  lemma {:induction false} RowsAndViewMatch(users: seq<User>, revision: nat, ref: User -> string, k: UserKey)
    requires DistinctKeys(users)
    ensures var rows, view := RowsOf(Pointing(users, ref), revision), ViewOf(users);
            && (k in rows <==> k in view)
            && (k in rows ==>
                k == KeyOf(view[k]) && view[k] in users && rows[k] == Row(revision, view[k].(value := ref(view[k]))))
  {
    if users != [] {
      var n := |users| - 1;
      RowsAndViewMatch(users[..n], revision, ref, k);
      assert Pointing(users, ref)[..n] == Pointing(users[..n], ref);
    }
  }

  function Committed(secrets: map<string, string>, s: Snapshot, lower: string -> string): Disk {
    var ref := RefAt(s.revision, lower);
    Disk(PutAll(secrets, s.users, ref), RowsOf(Pointing(s.users, ref), s.revision), s.revision)
  }

  /** Every row carries one revision, sits under its user's key and points at the reference of both. */
  ghost predicate FiledUnder(d: Disk, revision: nat, lower: string -> string) {
    forall k :: k in d.rows ==> RowFiled(d.rows[k], k, revision, RefAt(revision, lower))
  }

  predicate RowFiled(row: Row, k: UserKey, revision: nat, ref: User -> string) {
    row.revision == revision && KeyOf(row.user) == k && row.user.value == ref(row.user)
  }

  /** After the transaction the disk means exactly the new snapshot. */
  lemma CommittedView(secrets: map<string, string>, s: Snapshot, lower: string -> string)
    requires DistinctKeys(s.users)
    ensures var d := Committed(secrets, s, lower);
            Resolves(d) && View(d) == ViewOf(s.users) && FiledUnder(d, s.revision, lower)
  {
    var d, view := Committed(secrets, s, lower), ViewOf(s.users);
    DistinctKeysDistinctRefs(s.users, s.revision, lower);
    forall k ensures k in d.rows <==> k in view {
      RowsAndViewMatch(s.users, s.revision, RefAt(s.revision, lower), k);
    }
    forall k | k in d.rows
      ensures RowFiled(d.rows[k], k, s.revision, RefAt(s.revision, lower))
      ensures d.rows[k].user.value in d.secrets && d.rows[k].user.(value := d.secrets[d.rows[k].user.value]) == view[k]
    {
      CommittedRow(secrets, s, lower, k);
    }
  }

  lemma CommittedRow(secrets: map<string, string>, s: Snapshot, lower: string -> string, k: UserKey)
    requires DistinctKeys(s.users) && DistinctRefs(s.users, RefAt(s.revision, lower)) && k in ViewOf(s.users)
    ensures var d := Committed(secrets, s, lower);
            && k in d.rows && RowFiled(d.rows[k], k, s.revision, RefAt(s.revision, lower))
            && d.rows[k].user.value in d.secrets
            && d.rows[k].user.(value := d.secrets[d.rows[k].user.value]) == ViewOf(s.users)[k]
  {
    var ref, u := RefAt(s.revision, lower), ViewOf(s.users)[k];
    RowsAndViewMatch(s.users, s.revision, ref, k);
    CommittedSecret(secrets, s.users, ref, u);
    RefIgnoresValue(u, ref(u), s.revision, lower);
  }

  lemma CommittedSecret(secrets: map<string, string>, users: seq<User>, ref: User -> string, u: User)
    requires u in users && DistinctRefs(users, ref)
    ensures ref(u) in PutAll(secrets, users, ref) && PutAll(secrets, users, ref)[ref(u)] == u.value
  {
    var i :| 0 <= i < |users| && users[i] == u;
    PutAllWrites(secrets, users, ref, i);
  }

  lemma RefIgnoresValue(u: User, value: string, revision: nat, lower: string -> string)
    ensures RefAt(revision, lower)(u.(value := value)) == RefAt(revision, lower)(u)
  {}

  // ----- Runs

  /** `PutOther` is one secret of a configuration's bundle, in the same secret store. */
  datatype Event = Handled(attempt: Attempt) | ResetApplied | PutOther(ref: string, value: string)

  function Happens(d: Disk, e: Event, lower: string -> string): Disk {
    match e
    case Handled(a) => AfterAttempt(d, a, lower)
    case ResetApplied => d.(applied := 0)
    case PutOther(ref, value) => d.(secrets := d.secrets[ref := value])
  }

  /** The reference is one that user credentials get. */
  predicate IsUserRef(ref: string) {
    Split(ref, ':')[0] == "user-secret"
  }

  /** The view survives the put of any secret exactly when no stored row points at it, or the value is the one there. */
  lemma PutKeepsViewExactly(d: Disk, ref: string, value: string)
    requires Resolves(d)
    ensures KeepsView(d, d.(secrets := d.secrets[ref := value])) <==>
              forall k :: k in d.rows && d.rows[k].user.value == ref ==> d.secrets[ref] == value
  {
    var d' := d.(secrets := d.secrets[ref := value]);
    assert Resolves(d');
    if k :| k in d.rows && d.rows[k].user.value == ref && d.secrets[ref] != value {
      assert View(d')[k].value != View(d)[k].value;
    }
  }

  /** No stored row points at a secret outside the users' references. */
  lemma OtherPutKeepsMeaning(d: Disk, current: Snapshot, ref: string, value: string, lower: string -> string)
    requires Means(d, current, lower) && !IsUserRef(ref)
    ensures Means(d.(secrets := d.secrets[ref := value]), current, lower)
  {
    forall k | k in d.rows ensures d.rows[k].user.value != ref {
      var u := d.rows[k].user;
      assert RowFiled(d.rows[k], k, current.revision, RefAt(current.revision, lower));
      RefParts(NormalizedKind(u.kind, lower), u.inbound, u.subscriber, current.revision);
    }
    PutKeepsViewExactly(d, ref, value);
  }

  /** The disk means snapshot `current`: its rows carry that revision and resolve to that snapshot's users. */
  ghost predicate Means(d: Disk, current: Snapshot, lower: string -> string) {
    && Resolves(d) && View(d) == ViewOf(current.users) && DistinctKeys(current.users)
    && FiledUnder(d, current.revision, lower) && (current.revision == 0 ==> d.rows == map[])
  }

  /** A snapshot that bears the revision of the last committed one is that snapshot again. */
  predicate NamesOneSnapshot(current: Snapshot, s: Snapshot) {
    s.revision == current.revision > 0 ==> s.users == current.users
  }

  /** What the server owes: a revision names one snapshot, and bundles leave the users' references alone. */
  predicate Proper(current: Snapshot, e: Event) {
    match e
    case Handled(a) => NamesOneSnapshot(current, a.snapshot)
    case ResetApplied => true
    case PutOther(ref, _) => !IsUserRef(ref)
  }

  ghost function Current(d: Disk, current: Snapshot, e: Event, lower: string -> string): Snapshot {
    if e.Handled? && Commits(d, e.attempt, lower) then e.attempt.snapshot else current
  }

  lemma PointingKeepsKeys(users: seq<User>, ref: User -> string)
    ensures DistinctKeys(Pointing(users, ref)) <==> DistinctKeys(users)
  {
    var p := Pointing(users, ref);
    assert forall i :: 0 <= i < |users| ==> KeyOf(p[i]) == KeyOf(users[i]);
  }

  lemma AttemptKeepsMeaning(d: Disk, a: Attempt, current: Snapshot, lower: string -> string)
    requires Means(d, current, lower) && NamesOneSnapshot(current, a.snapshot)
    ensures Means(AfterAttempt(d, a, lower), Current(d, current, Handled(a), lower), lower)
  {
    var s := a.snapshot;
    var n := Reached(s.users, PutCheck(s.revision, lower), a.stopAfter);
    AttemptLeaves(d, a, n, lower);
    if Commits(d, a, lower) {
      PointingKeepsKeys(s.users, RefAt(s.revision, lower));
      CommittedView(d.secrets, s, lower);
    } else {
      PutsKeepMeaning(d, current, s, n, lower);
    }
  }

  /** An attempt leaves the new snapshot committed, or only some secrets put, or nothing. */
  lemma AttemptLeaves(d: Disk, a: Attempt, n: nat, lower: string -> string)
    requires n == Reached(a.snapshot.users, PutCheck(a.snapshot.revision, lower), a.stopAfter)
    ensures AfterAttempt(d, a, lower) ==
            if Commits(d, a, lower) then Committed(d.secrets, a.snapshot, lower)
            else if a.runtimeAccepts then Putting(d, a.snapshot.users, RefAt(a.snapshot.revision, lower), n)
            else d
  {
    assert a.snapshot.users[..|a.snapshot.users|] == a.snapshot.users;
  }

  lemma PutsKeepMeaning(d: Disk, current: Snapshot, s: Snapshot, n: nat, lower: string -> string)
    requires Means(d, current, lower) && NamesOneSnapshot(current, s) && n <= |s.users|
    ensures Means(Putting(d, s.users, RefAt(s.revision, lower), n), current, lower)
  {
    if s.revision == current.revision > 0 {
      ResendClobbersNothing(d, s, lower);
    } else {
      OtherRevisionClobbersNothing(d, current, s, lower);
    }
    UnclobberedView(d, s.users, RefAt(s.revision, lower), n);
  }

  lemma OtherRevisionClobbersNothing(d: Disk, current: Snapshot, s: Snapshot, lower: string -> string)
    requires Means(d, current, lower) && (s.revision != current.revision || current.revision == 0)
    ensures NoClobber(d, s.users, RefAt(s.revision, lower))
  {
    forall k | k in d.rows ensures d.rows[k].revision != s.revision
        && d.rows[k].user.value == RefAt(d.rows[k].revision, lower)(d.rows[k].user) {
      assert RowFiled(d.rows[k], k, current.revision, RefAt(current.revision, lower));
    }
    FreshRevisionClobbersNothing(d, s.users, s.revision, lower);
  }

  /** The disks of a run, with the snapshot each of them should mean. */
  ghost predicate IsRun(disks: seq<Disk>, currents: seq<Snapshot>, events: seq<Event>, lower: string -> string) {
    && |disks| == |currents| == |events| + 1 && disks[0] == BLANK && currents[0] == Snapshot(0, [])
    && forall n :: 0 <= n < |events| ==>
         disks[n + 1] == Happens(disks[n], events[n], lower)
             && currents[n + 1] == Current(disks[n], currents[n], events[n], lower)
  }

  /**
   After any run of snapshots that may stop at any step and be sent again, of resets and of other secrets put, the
   stored rows resolve to exactly one complete snapshot: the last one committed. All it takes is that the revision of
   that one is not put on other users, and that the other secrets are not under users' references.
   */
  lemma {:induction false} EveryCrashPointMeansOneSnapshot(disks: seq<Disk>, currents: seq<Snapshot>,
      events: seq<Event>, lower: string -> string, n: nat)
    requires IsRun(disks, currents, events, lower) && n <= |events|
    requires forall m :: 0 <= m < n ==> Proper(currents[m], events[m])
    ensures Means(disks[n], currents[n], lower)
  {
    if n > 0 {
      var m := n - 1;
      EveryCrashPointMeansOneSnapshot(disks, currents, events, lower, m);
      assert disks[m + 1] == Happens(disks[m], events[m], lower)
          && currents[m + 1] == Current(disks[m], currents[m], events[m], lower);
      EventKeepsMeaning(disks[m], events[m], currents[m], lower);
    }
  }

  lemma EventKeepsMeaning(d: Disk, e: Event, current: Snapshot, lower: string -> string)
    requires Means(d, current, lower) && Proper(current, e)
    ensures Means(Happens(d, e, lower), Current(d, current, e, lower), lower)
  {
    match e
    case Handled(a) => AttemptKeepsMeaning(d, a, current, lower);
    case ResetApplied =>
    case PutOther(ref, value) => OtherPutKeepsMeaning(d, current, ref, value, lower);
  }

  /** A restart at any of these points restores exactly the users of the last committed snapshot. */
  lemma EveryRestartRestoresLastCommitted(disks: seq<Disk>, currents: seq<Snapshot>, events: seq<Event>,
      lower: string -> string, n: nat)
    requires IsRun(disks, currents, events, lower) && n <= |events|
    requires forall m :: 0 <= m < n ==> Proper(currents[m], events[m])
    ensures Resolves(disks[n]) && SortResult(currents[n].users, Restored(disks[n]), RestoreOrder)
  {
    EveryCrashPointMeansOneSnapshot(disks, currents, events, lower, n);
    RestoredUsers(disks[n], currents[n].users);
  }

  /**
   Reusing a revision is what breaks it: a run of two snapshots of the same two users under one revision, with other
   values in the second, which stops after the first secret. The disk then means neither.
   */
  lemma SameRevisionMixes(revision: nat, a: User, b: User, a': string, b': string, lower: string -> string)
    returns (disks: seq<Disk>, currents: seq<Snapshot>, events: seq<Event>)
    requires 0 < revision <= MAX_INT64 && KeyOf(a) != KeyOf(b) && a.value != a' && b.value != b'
    requires Insertable(a) && Insertable(b) && CanPut(a, revision, lower) && CanPut(b, revision, lower)
    requires CanPut(a.(value := a'), revision, lower)
    ensures IsRun(disks, currents, events, lower) && |events| == 2
    ensures var stored, next := Snapshot(revision, [a, b]), Snapshot(revision, [a.(value := a'), b.(value := b')]);
            && events == [Handled(Attempt(stored, true, 2, false)), Handled(Attempt(next, true, 1, false))]
            && currents[1] == currents[2] == stored
            && Resolves(disks[2]) && View(disks[2]) != ViewOf(stored.users) && View(disks[2]) != ViewOf(next.users)
  {
    var stored, next := Snapshot(revision, [a, b]), Snapshot(revision, [a.(value := a'), b.(value := b')]);
    var first, second := Attempt(stored, true, 2, false), Attempt(next, true, 1, false);
    var d1 := Committed(map[], stored, lower);
    var d2 := Putting(d1, next.users, RefAt(revision, lower), 1);
    FirstCommits(stored, first, lower);
    SecondStops(d1, next, second, lower);
    RunOfTwo(d1, d2, first, second, lower);
    PutMixes(stored, a, b, a', b', lower);
    disks, currents, events := [BLANK, d1, d2], [Snapshot(0, []), stored, stored], [Handled(first), Handled(second)];
  }

  lemma RunOfTwo(d1: Disk, d2: Disk, first: Attempt, second: Attempt, lower: string -> string)
    requires Commits(BLANK, first, lower) && AfterAttempt(BLANK, first, lower) == d1
    requires !Commits(d1, second, lower) && AfterAttempt(d1, second, lower) == d2
    ensures IsRun([BLANK, d1, d2], [Snapshot(0, []), first.snapshot, first.snapshot], [Handled(first), Handled(second)],
                  lower)
  {
    var s := first.snapshot;
    var disks, currents, events := [BLANK, d1, d2], [Snapshot(0, []), s, s], [Handled(first), Handled(second)];
    assert disks[1] == Happens(disks[0], events[0], lower)
        && currents[1] == Current(disks[0], currents[0], events[0], lower);
    assert disks[2] == Happens(disks[1], events[1], lower)
        && currents[2] == Current(disks[1], currents[1], events[1], lower);
  }

  lemma FirstCommits(s: Snapshot, a: Attempt, lower: string -> string)
    requires a == Attempt(s, true, 2, false) && |s.users| == 2 && 0 < s.revision <= MAX_INT64
    requires KeyOf(s.users[0]) != KeyOf(s.users[1])
    requires forall i :: 0 <= i < 2 ==> Insertable(s.users[i]) && CanPut(s.users[i], s.revision, lower)
    ensures Commits(BLANK, a, lower) && AfterAttempt(BLANK, a, lower) == Committed(map[], s, lower)
  {
    var check := PutCheck(s.revision, lower);
    ReachedStops(s.users, check, 2, 2) by {
      assert s.users[..2] == s.users;
      ReachesBoth(s.users, check);
    }
    var pointing := Pointing(s.users, RefAt(s.revision, lower));
    forall i | 0 <= i < 2 ensures Insertable(pointing[i]) {
      assert pointing[i] == s.users[i].(value := RefAt(s.revision, lower)(s.users[i]));
    }
    PointingKeepsKeys(s.users, RefAt(s.revision, lower));
    AttemptLeaves(BLANK, a, 2, lower);
  }

  lemma ReachesBoth(users: seq<User>, canPut: User -> bool)
    requires |users| == 2 && canPut(users[0]) && canPut(users[1])
    ensures Reached(users, canPut, 2) == 2
  {
    assert users[..1][..0] == [];
    assert Reached(users[..1][..0], canPut, 2) == 0;
    assert Reached(users[..1], canPut, 2) == 1;
  }

  lemma SecondStops(d: Disk, s: Snapshot, a: Attempt, lower: string -> string)
    requires a == Attempt(s, true, 1, false) && |s.users| == 2 && CanPut(s.users[0], s.revision, lower)
    ensures !Commits(d, a, lower) && AfterAttempt(d, a, lower) == Putting(d, s.users, RefAt(s.revision, lower), 1)
  {
    var check := PutCheck(s.revision, lower);
    assert s.users[..1][..0] == [];
    assert Reached(s.users[..1][..0], check, 1) == 0;
    assert Reached(s.users[..1], check, 1) == 1;
    assert Reached(s.users, check, 1) == 1;
    AttemptLeaves(d, a, 1, lower);
  }

  lemma PutMixes(stored: Snapshot, a: User, b: User, a': string, b': string, lower: string -> string)
    requires stored.users == [a, b] && KeyOf(a) != KeyOf(b) && a.value != a' && b.value != b'
    ensures var d := Committed(map[], stored, lower);
            var next := [a.(value := a'), b.(value := b')];
            var mid := Putting(d, next, RefAt(stored.revision, lower), 1);
            Resolves(d) && Resolves(mid) && View(d) == ViewOf(stored.users) != View(mid) && View(mid) != ViewOf(next)
  {
    var ref := RefAt(stored.revision, lower);
    var d := Committed(map[], stored, lower);
    var next := [a.(value := a'), b.(value := b')];
    CommittedView(map[], stored, lower);
    RowsAndViewMatch(stored.users, stored.revision, ref, KeyOf(a));
    RowsAndViewMatch(stored.users, stored.revision, ref, KeyOf(b));
    TwoUserView(a, b);
    TwoUserView(next[0], next[1]);
    DistinctKeysDistinctRefs(stored.users, stored.revision, lower);
    assert ref(stored.users[0]) != ref(stored.users[1]);
    RefIgnoresValue(a, a', stored.revision, lower);
    OnePut(d, next, ref);
    OneSecretChanged(d, KeyOf(a), KeyOf(b), ref(a), a');
  }

  lemma OnePut(d: Disk, users: seq<User>, ref: User -> string)
    requires |users| > 0
    ensures Putting(d, users, ref, 1) == d.(secrets := d.secrets[ref(users[0]) := users[0].value])
  {
    assert users[..1] == [users[0]] && [users[0]][..0] == [];
    assert PutAll(d.secrets, [users[0]], ref) == PutAll(d.secrets, [], ref)[ref(users[0]) := users[0].value];
  }

  lemma OneSecretChanged(d: Disk, k: UserKey, other: UserKey, r: string, v: string)
    requires Resolves(d) && k in d.rows && other in d.rows && d.rows[k].user.value == r && d.rows[other].user.value != r
    ensures var mid := d.(secrets := d.secrets[r := v]);
            Resolves(mid) && View(mid)[k].value == v && View(mid)[other] == View(d)[other]
  {}

  lemma TwoUserView(a: User, b: User)
    requires KeyOf(a) != KeyOf(b)
    ensures ViewOf([a, b]) == map[KeyOf(a) := a, KeyOf(b) := b]
  {
    assert [a, b][..1] == [a] && [a][..0] == [];
    assert ViewOf([a]) == map[KeyOf(a) := a];
  }

  // ----- Restoring

  /** ORDER BY inbound_id, subscriber_id */
  function RestoreKey(k: UserKey): Key {
    [k.1, k.0]
  }

  function RestoreOrder(u: User): Key {
    RestoreKey(KeyOf(u))
  }

  lemma RestoreKeySeparates(ks: set<UserKey>)
    ensures Separates(ks, RestoreKey)
  {
    forall x, y | x in ks && y in ks && RestoreKey(x) == RestoreKey(y) ensures x == y {
      assert RestoreKey(x)[0] == RestoreKey(y)[0] && RestoreKey(x)[1] == RestoreKey(y)[1];
    }
  }

  lemma {:induction false} ViewHoldsUsers(users: seq<User>, u: User)
    requires DistinctKeys(users)
    ensures KeyOf(u) in ViewOf(users) && ViewOf(users)[KeyOf(u)] == u <==> u in users
  {
    if users != [] {
      var n := |users| - 1;
      ViewHoldsUsers(users[..n], u);
      assert users == users[..n] + [users[n]];
      if u in users[..n] {
        var i :| 0 <= i < n && users[i] == u;
      }
    }
  }

  lemma {:induction false} ViewKeys(users: seq<User>, k: UserKey)
    ensures k in ViewOf(users) ==> KeyOf(ViewOf(users)[k]) == k
  {
    if users != [] {
      ViewKeys(users[..|users| - 1], k);
    }
  }

  /** Reading the users of a view in query order gives back the snapshot's users, sorted. */
  lemma RestoredIsSortedSnapshot(users: seq<User>, restored: seq<User>, ks: seq<UserKey>)
    requires DistinctKeys(users) && Increasing(ks, RestoreKey) && (forall k :: k in ks <==> k in ViewOf(users))
    requires |restored| == |ks| && forall i :: 0 <= i < |ks| ==> restored[i] == ViewOf(users)[ks[i]]
    ensures SortResult(users, restored, RestoreOrder)
  {
    forall i | 0 <= i < |restored| ensures KeyOf(restored[i]) == ks[i] {
      assert ks[i] in ks;
      ViewKeys(users, ks[i]);
    }
    forall i, j | 0 <= i < j < |restored|
        ensures !Less(RestoreOrder(restored[j]), RestoreOrder(restored[i])) && restored[i] != restored[j] {
      LessAsymmetric(RestoreKey(ks[i]), RestoreKey(ks[j]));
    }
    forall u ensures u in restored <==> u in users {
      ViewHoldsUsers(users, u);
      if u in users {
        var i :| 0 <= i < |ks| && ks[i] == KeyOf(u);
        assert restored[i] == u;
      }
      if u in restored {
        var i :| 0 <= i < |restored| && restored[i] == u;
        assert ks[i] in ks;
      }
    }
    SameMultiset(users, restored);
  }

  /** Reading the rows in query order and resolving each. */
  ghost function Restored(d: Disk): seq<User>
    requires Resolves(d)
  {
    RestoreKeySeparates(d.rows.Keys);
    OrderedByCorrect(d.rows.Keys, RestoreKey);
    var ks := OrderedBy(d.rows.Keys, RestoreKey);
    seq(|ks|, i requires 0 <= i < |ks| => assert ks[i] in ks; View(d)[ks[i]])
  }

  lemma RestoredUsers(d: Disk, users: seq<User>)
    requires Resolves(d) && DistinctKeys(users) && View(d) == ViewOf(users)
    ensures SortResult(users, Restored(d), RestoreOrder)
  {
    RestoreKeySeparates(d.rows.Keys);
    OrderedByCorrect(d.rows.Keys, RestoreKey);
    RestoredIsSortedSnapshot(users, Restored(d), OrderedBy(d.rows.Keys, RestoreKey));
  }

  lemma SameMultiset(xs: seq<User>, ys: seq<User>)
    requires (forall i, j :: 0 <= i < j < |xs| ==> xs[i] != xs[j])
             && (forall i, j :: 0 <= i < j < |ys| ==> ys[i] != ys[j])
    requires forall u :: u in xs <==> u in ys
    ensures multiset(xs) == multiset(ys)
  {
    forall u ensures multiset(xs)[u] == multiset(ys)[u] {
      if u in xs {
        var i :| 0 <= i < |xs| && xs[i] == u;
        var j :| 0 <= j < |ys| && ys[j] == u;
        OnceInSeq(xs, i);
        OnceInSeq(ys, j);
      }
    }
  }

  // ----- The stores

  class UserStore {
    const lower: string -> string
    var secrets: map<string, string>
    var rows: map<UserKey, Row>
    var applied: nat

    ghost function Model(): Disk
      reads this
    {
      Disk(secrets, rows, applied)
    }

    constructor (lower: string -> string)
      ensures this.lower == lower && Model() == BLANK
    {
      this.lower, secrets, rows, applied := lower, map[], map[], 0;
    }

    method ReplaceUsers(s: Snapshot, fails: bool) returns (ok: bool)
      modifies this`rows, this`applied
      ensures ok == ReplaceSucceeds(old(Model()), s, fails) && Model() == AfterReplace(old(Model()), s, fails)
    {
      if fails || s.revision == 0 || s.revision > MAX_INT64 || |s.users| > 100000 || s.revision < applied {
        return false;
      }
      if s.revision == applied {
        return true;
      }
      var tx: map<UserKey, Row> := map[];
      for n := 0 to |s.users|
        invariant Model() == old(Model())
        invariant tx == RowsOf(s.users[..n], s.revision) && AllInsertable(s.users[..n])
        invariant forall k :: k in tx <==> exists i :: 0 <= i < n && KeyOf(s.users[i]) == k
      {
        if !Insertable(s.users[n]) || KeyOf(s.users[n]) in tx {
          OneRefused(s.users, n);
          return false;
        }
        assert s.users[..n + 1][..n] == s.users[..n];
        InsertableGrows(s.users, n);
        tx := tx[KeyOf(s.users[n]) := Row(s.revision, s.users[n])];
      }
      assert s.users[..|s.users|] == s.users;
      rows, applied := tx, s.revision;
      return true;
    }

    /** The loop that stores each credential and rewrites its value to the reference. */
    method PutSecrets(users: seq<User>, ref: User -> string, canPut: User -> bool, stopAfter: nat)
        returns (n: nat, stored: seq<User>)
      modifies this`secrets
      ensures n == Reached(users, canPut, stopAfter) && secrets == PutAll(old(secrets), users[..n], ref)
      ensures n == |users| ==> stored == Pointing(users, ref)
    {
      n, stored := 0, [];
      while n < |users| && n < stopAfter && canPut(users[n])
        invariant n <= |users| && Reached(users[..n], canPut, stopAfter) == n
        invariant secrets == PutAll(old(secrets), users[..n], ref)
        invariant stored == Pointing(users[..n], ref)
      {
        assert users[..n + 1][..n] == users[..n];
        secrets := secrets[ref(users[n]) := users[n].value];
        stored := stored + [users[n].(value := ref(users[n]))];
        n := n + 1;
      }
      ReachedStops(users, canPut, stopAfter, n);
      assert n == |users| ==> users[..n] == users;
    }

    /** applyUserSnapshot after decoding: runtime first, then the secrets, then the rows. */
    method ApplyUserSnapshot(a: Attempt) returns (succeeded: bool)
      modifies this
      ensures Model() == AfterAttempt(old(Model()), a, lower)
      ensures succeeded <==> Succeeds(old(Model()), a, lower)
      ensures succeeded ==> applied == a.snapshot.revision
      ensures a.snapshot.revision > old(applied) ==> (succeeded <==> Commits(old(Model()), a, lower))
    {
      if !a.runtimeAccepts {
        return false;
      }
      var revision := a.snapshot.revision;
      var n, stored := PutSecrets(a.snapshot.users, RefAt(revision, lower), PutCheck(revision, lower), a.stopAfter);
      if n < |a.snapshot.users| {
        return false;
      }
      succeeded := ReplaceUsers(Snapshot(a.snapshot.revision, stored), a.replaceFails);
    }

    /** resolveStoredUsers: each value read back from the secret store, or the first failure. */
    method ResolveStoredUsers(ks: seq<UserKey>) returns (ok: bool, out: seq<User>)
      requires forall k :: k in ks <==> k in rows
      ensures ok <==> Resolves(Model())
      ensures ok ==> |out| == |ks| && forall i :: 0 <= i < |ks| ==> ks[i] in rows && out[i] == View(Model())[ks[i]]
    {
      out := [];
      for n := 0 to |ks|
        invariant |out| == n
        invariant forall i :: 0 <= i < n ==> ks[i] in rows && rows[ks[i]].user.value in secrets
        invariant forall i :: 0 <= i < n ==> out[i] == rows[ks[i]].user.(value := secrets[rows[ks[i]].user.value])
      {
        assert ks[n] in ks;
        if rows[ks[n]].user.value !in secrets {
          return false, [];
        }
        out := out + [rows[ks[n]].user.(value := secrets[rows[ks[n]].user.value])];
      }
      assert forall k :: k in rows ==> k in ks;
      ok := true;
    }

    /** What a restart restores: the users of the snapshot the disk means, in (inbound, subscriber) order. */
    method RestoreUsers() returns (r: Option<seq<User>>)
      ensures r == if Resolves(Model()) then Some(Restored(Model())) else None
      ensures r.Some? ==> forall users :: DistinctKeys(users) && View(Model()) == ViewOf(users) ==>
                                            SortResult(users, r.value, RestoreOrder)
    {
      RestoreKeySeparates(rows.Keys);
      var ks := SelectOrdered(rows.Keys, RestoreKey);
      OrderedByCorrect(rows.Keys, RestoreKey);
      var ok, out := ResolveStoredUsers(ks);
      if !ok {
        return None;
      }
      ghost var d := Model();
      assert out == Restored(d);
      forall users | DistinctKeys(users) && View(d) == ViewOf(users) ensures SortResult(users, out, RestoreOrder) {
        RestoredUsers(d, users);
      }
      return Some(out);
    }
  }

  lemma OneRefused(users: seq<User>, n: nat)
    requires n < |users| && (!Insertable(users[n]) || exists i :: 0 <= i < n && KeyOf(users[i]) == KeyOf(users[n]))
    ensures !AllInsertable(users)
  {}

  lemma InsertableGrows(users: seq<User>, n: nat)
    requires n < |users| && AllInsertable(users[..n]) && Insertable(users[n])
    requires forall i :: 0 <= i < n ==> KeyOf(users[i]) != KeyOf(users[n])
    ensures AllInsertable(users[..n + 1])
  {}

  lemma {:induction false} ReachedStops(users: seq<User>, canPut: User -> bool, stopAfter: nat, n: nat)
    requires n <= |users| && Reached(users[..n], canPut, stopAfter) == n
    requires n == |users| || n >= stopAfter || !canPut(users[n])
    ensures Reached(users, canPut, stopAfter) == n
  {
    if n < |users| {
      var m := |users| - 1;
      if n < m {
        assert users[..m][..n] == users[..n];
        ReachedStops(users[..m], canPut, stopAfter, n);
      }
    } else {
      assert users[..n] == users;
    }
  }
}
