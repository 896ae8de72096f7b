/**
 The proxy runtime: a configuration and its users are applied by closing the running core and starting
 a new one, with a rollback to the previous pair when that fails. The core itself is opaque; it remembers
 what it was started from, and starting or closing it may fail at any time.
 */
module XrayRuntime {
  import opened Text
  import opened Selections
  import opened DesiredConfig
  import opened AccessRows

  datatype User = User(subscriber: int, inbound: int, kind: string, value: string, expiresAt: int,
                       speedLimit: nat, deviceLimit: nat, generation: nat)

  datatype PanelUser = PanelUser(id: int, uuid: string, speedMbps: nat, deviceLimit: nat)

  datatype Core = Core(config: Config, users: seq<User>)

  /** Library checks the runtime calls into. */
  datatype Library = Library(parsing: Parsing, isUUID: string -> bool, decodeBase64: string -> Option<string>)

  // ----- Grouping users by inbound

  /** The enabled inbound a user refers to; the grouping table keeps the last one per identifier. */
  function FindEnabled(inbounds: seq<Inbound>, id: int): Option<Inbound> {
    if inbounds == [] then None
    else
      var last := inbounds[|inbounds| - 1];
      if last.enabled && last.id == id then Some(last) else FindEnabled(inbounds[..|inbounds| - 1], id)
  }

  /** No enabled inbound lacks the payload that credential checks read. */
  ghost predicate PayloadsPresent(inbounds: seq<Inbound>) {
    forall n :: 0 <= n < |inbounds| ==> HasPayload(inbounds[n])
  }

  predicate HasPayload(i: Inbound) {
    i.protocol == SS2022 ==> i.ss2022.Some?
  }

  lemma AcceptedPayloads(c: Config, p: Parsing)
    requires Accepted(c, p)
    ensures PayloadsPresent(c.inbounds)
  {
    forall n | 0 <= n < |c.inbounds| ensures HasPayload(c.inbounds[n]) {
      assert InboundCheck(p)(c.inbounds[n], FindProfile(c.security, c.inbounds[n].securityProfileId));
    }
  }

  lemma {:induction false} FoundIsPresent(inbounds: seq<Inbound>, id: int)
    requires PayloadsPresent(inbounds)
    ensures var f := FindEnabled(inbounds, id);
            f.Some? ==> f.value in inbounds && f.value.enabled && f.value.id == id && HasPayload(f.value)
  {
    if inbounds != [] {
      FoundIsPresent(inbounds[..|inbounds| - 1], id);
    }
  }

  /** Some enabled inbound has this identifier. */
  predicate NamesEnabled(inbounds: seq<Inbound>, id: int) {
    exists n :: 0 <= n < |inbounds| && inbounds[n].enabled && inbounds[n].id == id
  }

  /** The last enabled inbound with the identifier is found, and none exactly if there is none. */
  lemma {:induction false} FindsLastEnabled(inbounds: seq<Inbound>, id: int)
    ensures FindEnabled(inbounds, id).Some? <==> NamesEnabled(inbounds, id)
    ensures FindEnabled(inbounds, id).Some? ==>
              exists n :: 0 <= n < |inbounds| && inbounds[n] == FindEnabled(inbounds, id).value
                          && inbounds[n].enabled && inbounds[n].id == id
                          && forall m :: n < m < |inbounds| ==> !(inbounds[m].enabled && inbounds[m].id == id)
  {
    if inbounds != [] {
      var k := |inbounds| - 1;
      FindsLastEnabled(inbounds[..k], id);
      NamesStep(inbounds, id);
      if !(inbounds[k].enabled && inbounds[k].id == id) && NamesEnabled(inbounds[..k], id) {
        var n :| 0 <= n < k && inbounds[..k][n] == FindEnabled(inbounds[..k], id).value
                 && inbounds[..k][n].enabled && inbounds[..k][n].id == id
                 && forall m :: n < m < k ==> !(inbounds[..k][m].enabled && inbounds[..k][m].id == id);
        assert inbounds[n].enabled && inbounds[n].id == id;
        forall m | n < m < |inbounds| ensures !(inbounds[m].enabled && inbounds[m].id == id) {
          assert m < k ==> inbounds[..k][m] == inbounds[m];
        }
      }
    }
  }

  lemma NamesStep(inbounds: seq<Inbound>, id: int)
    requires inbounds != []
    ensures var k := |inbounds| - 1;
            NamesEnabled(inbounds, id) <==>
              (inbounds[k].enabled && inbounds[k].id == id) || NamesEnabled(inbounds[..k], id)
  {
    var k := |inbounds| - 1;
    if NamesEnabled(inbounds[..k], id) {
      var n :| 0 <= n < k && inbounds[..k][n].enabled && inbounds[..k][n].id == id;
      assert inbounds[n].enabled;
    }
    if NamesEnabled(inbounds, id) && !(inbounds[k].enabled && inbounds[k].id == id) {
      var n :| 0 <= n < |inbounds| && inbounds[n].enabled && inbounds[n].id == id;
      assert inbounds[..k][n] == inbounds[n];
    }
  }

  /** validateRuntimeCredential */
  predicate CredentialFits(i: Inbound, value: string, lib: Library)
    requires HasPayload(i)
  {
    match i.protocol
    case VLESS => lib.isUUID(value)
    case VMess => lib.isUUID(value)
    case TUIC => lib.isUUID(value)
    case SS2022 => NormalizeKey(i.ss2022.value.cipher, value, Utf8Length(value),
                                Secrets(_ => None, lib.decodeBase64)).Some?
    case Trojan => 8 <= Utf8Length(value) <= 255
    case Hysteria2 => 8 <= Utf8Length(value) <= 255
    case OtherProtocol(_) => true
  }

  /** Users left out of the core: no identity, no credential, or expired. */
  predicate Skipped(u: User, now: int) {
    u.subscriber <= 0 || u.value == "" || (u.expiresAt > 0 && u.expiresAt <= now)
  }

  ghost predicate UserGroups(inbounds: seq<Inbound>, u: User, now: int, lib: Library)
    requires PayloadsPresent(inbounds)
  {
    FoundIsPresent(inbounds, u.inbound);
    var i := FindEnabled(inbounds, u.inbound);
    i.Some? && (Skipped(u, now) || CredentialFits(i.value, u.value, lib))
  }

  /** Grouping succeeds: every user names an enabled inbound, and every current one carries a fitting credential. */
  ghost predicate Groupable(inbounds: seq<Inbound>, users: seq<User>, now: int, lib: Library)
    requires PayloadsPresent(inbounds)
  {
    forall n :: 0 <= n < |users| ==> UserGroups(inbounds, users[n], now, lib)
  }

  function Panel(u: User): PanelUser {
    PanelUser(u.subscriber, u.value, (u.speedLimit * 8 % 0x1_0000_0000_0000_0000 + 999_999) / 1_000_000, u.deviceLimit)
  }

  function GroupOf(users: seq<User>, id: int, now: int): seq<PanelUser> {
    if users == [] then []
    else
      var rest, u := GroupOf(users[..|users| - 1], id, now), users[|users| - 1];
      if u.inbound == id && !Skipped(u, now) then rest + [Panel(u)] else rest
  }

  /**
   What each protocol takes for a credential: a UUID, a key of the cipher's length or its base64 text, or a password.
   */
  lemma CredentialKinds(i: Inbound, value: string, lib: Library)
    requires HasPayload(i)
    ensures i.protocol in {VLESS, VMess, TUIC} ==> (CredentialFits(i, value, lib) <==> lib.isUUID(value))
    ensures i.protocol in {Trojan, Hysteria2} ==> (CredentialFits(i, value, lib) <==> 8 <= Utf8Length(value) <= 255)
    ensures i.protocol == SS2022 ==>
              var length := if i.ss2022.value.cipher == Aes128 then 16 else 32;
              var decoded := lib.decodeBase64(TrimSpace(value));
              CredentialFits(i, value, lib) <==>
                Utf8Length(value) == length || (decoded.Some? && |decoded.value| == length)
  {}

  /** The user names the inbound, is somebody, has a credential and is not expired. */
  function CurrentIn(id: int, now: int): User -> bool {
    (u: User) => u.inbound == id && u.subscriber > 0 && u.value != "" && (u.expiresAt <= 0 || u.expiresAt > now)
  }

  /** The least number of megabits that is no less than eight times the bytes, as long as that product does not wrap. */
  predicate RoundsUpToMegabits(mbps: nat, bytes: nat) {
    bytes * 8 < 0x1_0000_0000_0000_0000 ==> (mbps - 1) * 1_000_000 < bytes * 8 <= mbps * 1_000_000
  }

  predicate IsPanelOf(p: PanelUser, u: User) {
    p.id == u.subscriber && p.uuid == u.value && p.deviceLimit == u.deviceLimit
        && RoundsUpToMegabits(p.speedMbps, u.speedLimit)
  }

  /** A group holds exactly its inbound's current users, each as often as before and in order, with their limits. */
  lemma GroupIsSelection(users: seq<User>, id: int, now: int) returns (chosen: seq<User>)
    ensures IsSelection(chosen, users, CurrentIn(id, now)) && |chosen| == |GroupOf(users, id, now)|
    ensures forall n :: 0 <= n < |chosen| ==> IsPanelOf(GroupOf(users, id, now)[n], chosen[n])
  {
    chosen := Select(users, CurrentIn(id, now));
    SelectIsSelection(users, CurrentIn(id, now));
    GroupIsSelect(users, id, now);
    forall n | 0 <= n < |chosen| ensures IsPanelOf(GroupOf(users, id, now)[n], chosen[n]) {
      PanelIsPanel(chosen[n]);
    }
  }

  lemma {:induction false} GroupIsSelect(users: seq<User>, id: int, now: int)
    ensures var chosen := Select(users, CurrentIn(id, now));
            && |GroupOf(users, id, now)| == |chosen|
            && forall n :: 0 <= n < |chosen| ==> GroupOf(users, id, now)[n] == Panel(chosen[n])
  {
    if users != [] {
      GroupIsSelect(users[..|users| - 1], id, now);
    }
  }

  lemma PanelIsPanel(u: User)
    ensures IsPanelOf(Panel(u), u)
  {}

  /** Grouping succeeds exactly if each user names an enabled inbound and, if current, has a credential that fits it. */
  lemma GroupsExactly(inbounds: seq<Inbound>, users: seq<User>, now: int, lib: Library)
    requires PayloadsPresent(inbounds)
    ensures Groupable(inbounds, users, now, lib) <==>
              forall u :: u in users ==>
                && NamesEnabled(inbounds, u.inbound)
                && (CurrentIn(u.inbound, now)(u) ==> FitsFound(inbounds, u, lib))
  {
    forall u: User ensures FindEnabled(inbounds, u.inbound).Some? <==> NamesEnabled(inbounds, u.inbound) {
      FindsLastEnabled(inbounds, u.inbound);
    }
    FitsFoundAgrees(inbounds, lib);
    if Groupable(inbounds, users, now, lib) {
      forall u | u in users ensures UserGroups(inbounds, u, now, lib) {
        var n :| 0 <= n < |users| && users[n] == u;
      }
    }
  }

  /** The table of enabled inbounds, filled in a loop. */
  method EnabledInbounds(inbounds: seq<Inbound>) returns (table: map<int, Inbound>)
    ensures forall id :: FindEnabled(inbounds, id) == if id in table then Some(table[id]) else None
  {
    table := map[];
    for n := 0 to |inbounds|
      invariant forall id :: FindEnabled(inbounds[..n], id) == if id in table then Some(table[id]) else None
    {
      assert inbounds[..n + 1][..n] == inbounds[..n];
      if inbounds[n].enabled {
        table := table[inbounds[n].id := inbounds[n]];
      }
    }
    assert inbounds[..|inbounds|] == inbounds;
  }

  function WithMember(grouped: map<int, seq<PanelUser>>, id: int, p: PanelUser): map<int, seq<PanelUser>> {
    grouped[id := (if id in grouped then grouped[id] else []) + [p]]
  }

  ghost predicate GroupsSoFar(grouped: map<int, seq<PanelUser>>, users: seq<User>, now: int) {
    forall id :: GroupOf(users, id, now) == if id in grouped then grouped[id] else []
  }

  lemma GroupsGrow(grouped: map<int, seq<PanelUser>>, users: seq<User>, u: User, now: int)
    requires GroupsSoFar(grouped, users, now)
    ensures GroupsSoFar(if Skipped(u, now) then grouped else WithMember(grouped, u.inbound, Panel(u)), users + [u], now)
  {
    assert (users + [u])[..|users|] == users;
  }

  /** panelUsersByInbound: each group lists its inbound's current users, in the given order. */
  method PanelUsersByInbound(inbounds: seq<Inbound>, users: seq<User>, now: int, lib: Library)
      returns (ok: bool, grouped: map<int, seq<PanelUser>>)
    requires PayloadsPresent(inbounds)
    ensures ok <==> Groupable(inbounds, users, now, lib)
    ensures ok ==> GroupsSoFar(grouped, users, now)
  {
    var table := EnabledInbounds(inbounds);
    grouped := map[];
    for n := 0 to |users|
      invariant Groupable(inbounds, users[..n], now, lib)
      invariant GroupsSoFar(grouped, users[..n], now)
    {
      var u := users[n];
      assert users[..n + 1] == users[..n] + [u];
      GroupsGrow(grouped, users[..n], u, now);
      FoundIsPresent(inbounds, u.inbound);
      assert FindEnabled(inbounds, u.inbound) == if u.inbound in table then Some(table[u.inbound]) else None;
      if u.inbound !in table {
        assert !UserGroups(inbounds, users[n], now, lib);
        return false, grouped;
      }
      if !Skipped(u, now) {
        if !CredentialFits(table[u.inbound], u.value, lib) {
          assert !UserGroups(inbounds, users[n], now, lib);
          return false, grouped;
        }
        grouped := WithMember(grouped, u.inbound, Panel(u));
      }
      assert UserGroups(inbounds, u, now, lib);
    }
    assert users[..|users|] == users;
    ok := true;
  }

  /** Time only ever excuses users: what groups now groups at every later moment. */
  lemma GroupsLater(inbounds: seq<Inbound>, users: seq<User>, t: int, later: int, lib: Library)
    requires PayloadsPresent(inbounds) && Groupable(inbounds, users, t, lib) && t <= later
    ensures Groupable(inbounds, users, later, lib)
  {
    forall n | 0 <= n < |users| ensures UserGroups(inbounds, users[n], later, lib) {
      assert UserGroups(inbounds, users[n], t, lib);
    }
  }

  /**
   Earlier moments give no such guarantee: an expired user with a bad credential groups, until the clock steps back.
   */
  lemma ClockStepBackCanRefuse(inbounds: seq<Inbound>, u: User, lib: Library)
    requires PayloadsPresent(inbounds) && FindEnabled(inbounds, u.inbound).Some?
    requires HasPayload(FindEnabled(inbounds, u.inbound).value)
             && !CredentialFits(FindEnabled(inbounds, u.inbound).value, u.value, lib)
    requires u.subscriber > 0 && u.value != "" && u.expiresAt > 1
    ensures Groupable(inbounds, [u], u.expiresAt, lib) && !Groupable(inbounds, [u], u.expiresAt - 1, lib)
  {
    assert UserGroups(inbounds, u, u.expiresAt, lib);
    assert !UserGroups(inbounds, [u][0], u.expiresAt - 1, lib);
  }

  /** Expired at one reading, no longer expired at another. */
  predicate Returns(u: User, t: int, back: int) {
    Skipped(u, t) && !Skipped(u, back)
  }

  ghost predicate Fits(inbounds: seq<Inbound>, u: User, lib: Library)
    requires PayloadsPresent(inbounds)
  {
    FoundIsPresent(inbounds, u.inbound);
    var i := FindEnabled(inbounds, u.inbound);
    i.Some? && CredentialFits(i.value, u.value, lib)
  }

  /** Some user comes back from expiry with a credential its inbound refuses. */
  ghost predicate UnfitReturns(inbounds: seq<Inbound>, users: seq<User>, t: int, back: int, lib: Library)
    requires PayloadsPresent(inbounds)
  {
    exists n :: 0 <= n < |users| && Returns(users[n], t, back) && !Fits(inbounds, users[n], lib)
  }

  /**
   What groups at one reading groups at another, earlier or later, exactly when no unfit user comes back from expiry.
   */
  lemma RegroupsExactly(inbounds: seq<Inbound>, users: seq<User>, t: int, back: int, lib: Library)
    requires PayloadsPresent(inbounds) && Groupable(inbounds, users, t, lib)
    ensures Groupable(inbounds, users, back, lib) <==> !UnfitReturns(inbounds, users, t, back, lib)
  {
    forall n | 0 <= n < |users|
      ensures UserGroups(inbounds, users[n], back, lib) <==>
              (Returns(users[n], t, back) ==> Fits(inbounds, users[n], lib))
    {
      assert UserGroups(inbounds, users[n], t, lib);
    }
  }

  /** usersAvailableInConfig */
  ghost function Available(inbounds: seq<Inbound>, users: seq<User>): seq<User> {
    if users == [] then []
    else
      var rest, u := Available(inbounds, users[..|users| - 1]), users[|users| - 1];
      if FindEnabled(inbounds, u.inbound).Some? then rest + [u] else rest
  }

  function KeepsUser(inbounds: seq<Inbound>): User -> bool {
    (u: User) => NamesEnabled(inbounds, u.inbound)
  }

  /** Exactly the users of enabled inbounds are available, each as often as before and in order. */
  lemma AvailableIsSelection(inbounds: seq<Inbound>, users: seq<User>)
    ensures IsSelection(Available(inbounds, users), users, KeepsUser(inbounds))
  {
    AvailableIsSelect(inbounds, users);
    SelectIsSelection(users, KeepsUser(inbounds));
  }

  lemma {:induction false} AvailableIsSelect(inbounds: seq<Inbound>, users: seq<User>)
    ensures Available(inbounds, users) == Select(users, KeepsUser(inbounds))
  {
    if users != [] {
      AvailableIsSelect(inbounds, users[..|users| - 1]);
      FindsLastEnabled(inbounds, users[|users| - 1].inbound);
    }
  }

  method UsersAvailableInConfig(inbounds: seq<Inbound>, users: seq<User>) returns (filtered: seq<User>)
    ensures filtered == Available(inbounds, users)
    ensures IsSelection(filtered, users, KeepsUser(inbounds))
  {
    AvailableIsSelection(inbounds, users);
    var table := EnabledInbounds(inbounds);
    filtered := [];
    for n := 0 to |users|
      invariant filtered == Available(inbounds, users[..n])
    {
      assert users[..n + 1][..n] == users[..n];
      if users[n].inbound in table {
        filtered := filtered + [users[n]];
      }
    }
    assert users[..|users|] == users;
  }

  // ----- Building and starting

  /** buildNodes: a node per enabled inbound, or the first failure. */
  function BuildNodes(c: Config, inbounds: seq<Inbound>, s: Secrets, p: Parsing): Option<seq<Node>> {
    if inbounds == [] then Some([])
    else
      var rest, i := BuildNodes(c, inbounds[..|inbounds| - 1], s, p), inbounds[|inbounds| - 1];
      if rest.None? || !i.enabled then rest
      else
        var b := PanelNode(c, i, s, p);
        if b.Built? then Some(rest.value + [b.node]) else None
  }

  predicate Buildable(c: Config, s: Secrets, p: Parsing) {
    BuildNodes(c, c.inbounds, s, p).Some?
  }

  /** A configuration can be built exactly if every enabled inbound gets its node. */
  lemma {:induction false} BuildsExactly(c: Config, inbounds: seq<Inbound>, s: Secrets, p: Parsing)
    ensures BuildNodes(c, inbounds, s, p).Some? <==>
              forall n :: 0 <= n < |inbounds| && inbounds[n].enabled ==> PanelNode(c, inbounds[n], s, p).Built?
  {
    if inbounds != [] {
      var k := |inbounds| - 1;
      BuildsExactly(c, inbounds[..k], s, p);
      assert forall n :: 0 <= n < k ==> inbounds[..k][n] == inbounds[n];
    }
  }

  /** What the environment does during one call. */
  datatype Faults = Faults(builderRejects: bool, closeFails: bool, startFails: bool, restartFails: bool,
                           checkedAt: int, startedAt: int, restartedAt: int, samples: seq<AccessItem>)

  /**
   The runtime's fields. `groupedAt` is history: the clock reading at which the stored users last grouped under
   the stored configuration.
   */
  datatype State = State(active: Option<Core>, config: Option<Config>, users: seq<User>, pendingAccess: seq<AccessItem>,
                         groupedAt: int)

  const IDLE := State(None, None, [], [], 0)

  /** startCore: the core comes up unless something fails or the users do not group. */
  ghost function Start(c: Config, users: seq<User>, now: int, fails: bool, lib: Library): Option<Core>
    requires PayloadsPresent(c.inbounds)
  {
    if !fails && Groupable(c.inbounds, users, now, lib) then Some(Core(c, users)) else None
  }

  datatype Op =
    | ApplyConfig(desired: Config, secrets: Secrets, faults: Faults)
    | ApplyUsers(users: seq<User>, secrets: Secrets, faults: Faults)
    | Close(faults: Faults)
    | CollectAccess(faults: Faults)
    | RequeueAccess(items: seq<AccessItem>)

  ghost function Drained(s: State, f: Faults): seq<AccessItem> {
    if s.active.Some? then s.pendingAccess + f.samples else s.pendingAccess
  }

  ghost predicate ConfigRefused(desired: Config, secrets: Secrets, f: Faults, lib: Library) {
    !Accepted(desired, lib.parsing) || !Buildable(desired, secrets, lib.parsing) || f.builderRejects
  }

  /** The configuration kept in memory is one validation accepted. */
  ghost predicate ConfigKept(s: State, lib: Library) {
    s.config.Some? ==> Accepted(s.config.value, lib.parsing) && PayloadsPresent(s.config.value.inbounds)
  }

  /** With the old core out of the way: the new pair if it starts, else the stored pair again if it can. */
  ghost function AfterSwitch(s: State, desired: Config, secrets: Secrets, f: Faults, lib: Library): State
    requires ConfigKept(s, lib) && PayloadsPresent(desired.inbounds)
  {
    var users := Available(desired.inbounds, s.users);
    var core := Start(desired, users, f.startedAt, f.startFails, lib);
    if core.Some? then s.(active := core, config := Some(desired), users := users, groupedAt := f.startedAt)
    else if s.config.Some? && Buildable(s.config.value, secrets, lib.parsing)
    then s.(active := Start(s.config.value, s.users, f.restartedAt, f.restartFails, lib))
    else s.(active := None)
  }

  ghost function AfterApplyConfig(s: State, desired: Config, secrets: Secrets, f: Faults, lib: Library): State
    requires ConfigKept(s, lib)
  {
    if ConfigRefused(desired, secrets, f, lib) then s
    else
      AcceptedPayloads(desired, lib.parsing);
      var closed := s.(pendingAccess := Drained(s, f));
      if s.active.Some? && f.closeFails then closed else AfterSwitch(closed, desired, secrets, f, lib)
  }

  ghost function AfterApplyUsers(s: State, users: seq<User>, secrets: Secrets, f: Faults, lib: Library): State
    requires ConfigKept(s, lib)
  {
    if s.active.None? || s.config.None? then (if users == [] then s.(users := []) else s)
    else
      var c := s.config.value;
      if !Groupable(c.inbounds, users, f.checkedAt, lib) || !Buildable(c, secrets, lib.parsing) then s
      else
        AfterUserSwitch(s.(pendingAccess := Drained(s, f)), c, users, f, lib)
  }

  /** The new users if the old core closes and one starts from them, else the stored users again if they can. */
  ghost function AfterUserSwitch(s: State, c: Config, users: seq<User>, f: Faults, lib: Library): State
    requires PayloadsPresent(c.inbounds)
  {
    var core := if f.closeFails then None else Start(c, users, f.startedAt, f.startFails, lib);
    if core.Some? then s.(active := core, users := users, groupedAt := f.startedAt)
    else s.(active := Start(c, s.users, f.restartedAt, f.restartFails, lib))
  }

  const MAX_PENDING := 20000

  /** The slice expression of RequeueAccess is in range. */
  predicate RequeueInRange(pending: nat, items: nat) {
    items == 0 || pending + items <= MAX_PENDING || 0 <= items - (MAX_PENDING - pending) <= items
  }

  function Requeued(pending: seq<AccessItem>, items: seq<AccessItem>): seq<AccessItem>
    requires RequeueInRange(|pending|, |items|)
  {
    if |pending| + |items| > MAX_PENDING && items != []
    then pending + items[|items| - (MAX_PENDING - |pending|)..] else pending + items
  }

  /** A call that would index out of range ends the process; it is not a step. */
  predicate Steps(s: State, op: Op) {
    op.RequeueAccess? ==> RequeueInRange(|s.pendingAccess|, |op.items|)
  }

  ghost function Step(s: State, op: Op, lib: Library): State
    requires ConfigKept(s, lib) && Steps(s, op)
  {
    match op
    case ApplyConfig(desired, secrets, f) => AfterApplyConfig(s, desired, secrets, f, lib)
    case ApplyUsers(users, secrets, f) => AfterApplyUsers(s, users, secrets, f, lib)
    case Close(f) => s.(active := None, pendingAccess := Drained(s, f))
    case CollectAccess(_) => s.(pendingAccess := [])
    case RequeueAccess(items) => s.(pendingAccess := Requeued(s.pendingAccess, items))
  }

  // ----- What every run keeps

  /** The core was started from exactly the stored pair, every stored user is placed, and the pair groups. */
  ghost predicate Consistent(s: State, lib: Library) {
    && ConfigKept(s, lib)
    && (s.active.Some? ==> s.config.Some? && s.active.value == Core(s.config.value, s.users))
    && (s.config.None? ==> s.users == [])
    && (s.config.Some? ==> Groupable(s.config.value.inbounds, s.users, s.groupedAt, lib))
  }

  /** Replacing the core by a restart of the stored pair, or by none, keeps the state consistent. */
  lemma RestartConsistent(s: State, pending: seq<AccessItem>, now: int, fails: bool, lib: Library)
    requires Consistent(s, lib)
    ensures Consistent(s.(pendingAccess := pending), lib)
            && Consistent(s.(pendingAccess := pending, active := None), lib)
    ensures s.config.Some? ==> Consistent(s.(pendingAccess := pending,
                                             active := Start(s.config.value, s.users, now, fails, lib)), lib)
  {}

  lemma StartedConsistent(s: State, c: Config, users: seq<User>, now: int, lib: Library)
    requires Accepted(c, lib.parsing) && PayloadsPresent(c.inbounds) && Groupable(c.inbounds, users, now, lib)
    ensures Consistent(s.(active := Some(Core(c, users)), config := Some(c), users := users, groupedAt := now), lib)
  {}

  lemma ApplyConfigConsistent(s: State, desired: Config, secrets: Secrets, f: Faults, lib: Library)
    requires Consistent(s, lib)
    ensures Consistent(AfterApplyConfig(s, desired, secrets, f, lib), lib)
  {
    if !ConfigRefused(desired, secrets, f, lib) {
      AcceptedPayloads(desired, lib.parsing);
      RestartConsistent(s, Drained(s, f), f.restartedAt, f.restartFails, lib);
      var users := Available(desired.inbounds, s.users);
      if Groupable(desired.inbounds, users, f.startedAt, lib) {
        StartedConsistent(s.(pendingAccess := Drained(s, f)), desired, users, f.startedAt, lib);
      }
    }
  }

  lemma ApplyUsersConsistent(s: State, users: seq<User>, secrets: Secrets, f: Faults, lib: Library)
    requires Consistent(s, lib)
    ensures Consistent(AfterApplyUsers(s, users, secrets, f, lib), lib)
  {
    RestartConsistent(s, Drained(s, f), f.restartedAt, f.restartFails, lib);
    if s.config.Some? && Groupable(s.config.value.inbounds, users, f.startedAt, lib) {
      StartedConsistent(s.(pendingAccess := Drained(s, f)), s.config.value, users, f.startedAt, lib);
    }
  }

  lemma StepConsistent(s: State, op: Op, lib: Library)
    requires Consistent(s, lib) && Steps(s, op)
    ensures Consistent(Step(s, op, lib), lib)
  {
    match op
    case ApplyConfig(desired, secrets, f) => ApplyConfigConsistent(s, desired, secrets, f, lib);
    case ApplyUsers(users, secrets, f) => ApplyUsersConsistent(s, users, secrets, f, lib);
    case Close(_) =>
    case CollectAccess(_) =>
    case RequeueAccess(_) =>
  }

  /** A run: each state follows from the one before by its operation. */
  ghost predicate IsRun(states: seq<State>, ops: seq<Op>, lib: Library) {
    && |states| == |ops| + 1 && states[0] == IDLE
    && forall n :: 0 <= n < |ops| ==>
         Steps(states[n], ops[n]) && (ConfigKept(states[n], lib) ==> states[n + 1] == Step(states[n], ops[n], lib))
  }

  /** Over every run, with arbitrary failures of starting and closing. */
  lemma {:induction false} EveryRunConsistent(states: seq<State>, ops: seq<Op>, lib: Library, n: nat)
    requires IsRun(states, ops, lib) && n < |states|
    ensures Consistent(states[n], lib)
  {
    if n > 0 {
      EveryRunConsistent(states, ops, lib, n - 1);
      StepConsistent(states[n - 1], ops[n - 1], lib);
      assert states[(n - 1) + 1] == Step(states[n - 1], ops[n - 1], lib);
    }
  }

  /** The clock readings of an operation, first and last. */
  predicate ReadsFrom(op: Op, t: int) {
    match op
    case ApplyConfig(_, _, f) => t <= f.startedAt <= f.restartedAt
    case ApplyUsers(_, _, f) => t <= f.checkedAt <= f.startedAt <= f.restartedAt
    case _ => true
  }

  function LastRead(op: Op, t: int): int {
    match op
    case ApplyConfig(_, _, f) => f.restartedAt
    case ApplyUsers(_, _, f) => f.restartedAt
    case _ => t
  }

  ghost predicate ClockNeverDecreases(ops: seq<Op>, clock: seq<int>) {
    && |clock| == |ops| + 1 && clock[0] >= 0
    && forall n :: 0 <= n < |ops| ==> ReadsFrom(ops[n], clock[n]) && clock[n + 1] == LastRead(ops[n], clock[n])
  }

  lemma {:induction false} GroupedInThePast(states: seq<State>, ops: seq<Op>, clock: seq<int>, lib: Library, n: nat)
    requires IsRun(states, ops, lib) && ClockNeverDecreases(ops, clock) && n < |states|
    ensures states[n].groupedAt <= clock[n]
  {
    if n > 0 {
      GroupedInThePast(states, ops, clock, lib, n - 1);
      EveryRunConsistent(states, ops, lib, n - 1);
      assert states[(n - 1) + 1] == Step(states[n - 1], ops[n - 1], lib);
      assert clock[(n - 1) + 1] == LastRead(ops[n - 1], clock[n - 1]) && ReadsFrom(ops[n - 1], clock[n - 1]);
    }
  }

  /**
   While the clock does not decrease, at any point of any run the stored users still group at every later
   reading: a rollback is never refused by the data it restores.
   */
  lemma RollbackNeverRefusedByItsData(states: seq<State>, ops: seq<Op>, clock: seq<int>, lib: Library, n: nat, t: int)
    requires IsRun(states, ops, lib) && ClockNeverDecreases(ops, clock) && n < |states| && clock[n] <= t
    ensures Consistent(states[n], lib)
    ensures states[n].config.Some? ==>
              var c := states[n].config.value;
              Start(c, states[n].users, t, false, lib) == Some(Core(c, states[n].users))
  {
    EveryRunConsistent(states, ops, lib, n);
    GroupedInThePast(states, ops, clock, lib, n);
    if states[n].config.Some? {
      GroupsLater(states[n].config.value.inbounds, states[n].users, states[n].groupedAt, t, lib);
    }
  }

  /**
   What a failed configuration leaves behind: the stored pair is untouched, and unless a restart or a secret
   fails too, the core runs that pair again.
   */
  lemma FailedConfigRollsBack(s: State, desired: Config, secrets: Secrets, f: Faults, lib: Library)
    requires Consistent(s, lib) && s.config.Some? && s.groupedAt <= f.restartedAt
    ensures var s' := AfterApplyConfig(s, desired, secrets, f, lib);
            (s'.config == s.config && s'.users == s.users) || (s'.config == Some(desired) && s'.active.Some?)
    ensures var s' := AfterApplyConfig(s, desired, secrets, f, lib);
            s'.active.None? ==>
              (s.active.None? && s' == s) || f.restartFails || !Buildable(s.config.value, secrets, lib.parsing)
  {
    GroupsLater(s.config.value.inbounds, s.users, s.groupedAt, f.restartedAt, lib);
  }

  lemma FailedUsersRollBack(s: State, users: seq<User>, secrets: Secrets, f: Faults, lib: Library)
    requires Consistent(s, lib) && s.active.Some? && s.groupedAt <= f.restartedAt
    ensures var s' := AfterApplyUsers(s, users, secrets, f, lib);
            && s'.config == s.config && (s'.users == s.users || s'.users == users)
            && (s'.active.None? ==> f.restartFails)
  {
    GroupsLater(s.config.value.inbounds, s.users, s.groupedAt, f.restartedAt, lib);
  }

  /** The stored users are refused at this reading. */
  ghost predicate Blocked(s: State, now: int, lib: Library)
    requires Consistent(s, lib) && s.config.Some?
  {
    UnfitReturns(s.config.value.inbounds, s.users, s.groupedAt, now, lib)
  }

  /** For any clock: after a call to apply users there is no core exactly when this happened. */
  lemma NoCoreAfterUsersExactly(s: State, users: seq<User>, secrets: Secrets, f: Faults, lib: Library)
    requires Consistent(s, lib) && s.active.Some?
    ensures var c := s.config.value;
            AfterApplyUsers(s, users, secrets, f, lib).active.None? <==>
              && Groupable(c.inbounds, users, f.checkedAt, lib) && Buildable(c, secrets, lib.parsing)
              && (f.closeFails || f.startFails || UnfitReturns(c.inbounds, users, f.checkedAt, f.startedAt, lib))
              && (f.restartFails || Blocked(s, f.restartedAt, lib))
  {
    var c := s.config.value;
    RegroupsExactly(c.inbounds, s.users, s.groupedAt, f.restartedAt, lib);
    if Groupable(c.inbounds, users, f.checkedAt, lib) {
      RegroupsExactly(c.inbounds, users, f.checkedAt, f.startedAt, lib);
    }
  }

  /** ApplyConfig succeeds. */
  ghost predicate ConfigTaken(s: State, desired: Config, secrets: Secrets, f: Faults, lib: Library) {
    !ConfigRefused(desired, secrets, f, lib) && !(s.active.Some? && f.closeFails) && !f.startFails
        && Takes(desired, s.users, f.startedAt, lib)
  }

  /** ApplyUsers succeeds. */
  ghost predicate UsersAccepted(s: State, users: seq<User>, secrets: Secrets, f: Faults, lib: Library)
    requires ConfigKept(s, lib)
  {
    if s.active.None? || s.config.None? then users == []
    else
      && Groupable(s.config.value.inbounds, users, f.checkedAt, lib) && Buildable(s.config.value, secrets, lib.parsing)
      && !f.closeFails && !f.startFails && Groupable(s.config.value.inbounds, users, f.startedAt, lib)
  }

  /** A configuration that succeeds is the stored and running one; one that fails leaves the stored pair. */
  lemma TakenRuns(s: State, desired: Config, secrets: Secrets, f: Faults, lib: Library)
    requires Consistent(s, lib)
    ensures var s' := AfterApplyConfig(s, desired, secrets, f, lib);
            if ConfigTaken(s, desired, secrets, f, lib)
            then s'.config == Some(desired) && s'.active == Some(Core(desired, s'.users))
            else s'.config == s.config && s'.users == s.users
  {}

  lemma UsersKeepConfig(s: State, users: seq<User>, secrets: Secrets, f: Faults, lib: Library)
    requires Consistent(s, lib)
    ensures var s' := AfterApplyUsers(s, users, secrets, f, lib);
            s'.config == s.config && s'.users == if UsersAccepted(s, users, secrets, f, lib) then users else s.users
  {}

  /**
   Applying a configuration succeeds exactly if it is accepted, its nodes can be built, nothing outside fails, and each
   stored user it keeps is without a current credential or has one that fits.
   */
  lemma ConfigTakenExactly(s: State, desired: Config, secrets: Secrets, f: Faults, lib: Library)
    ensures ConfigTaken(s, desired, secrets, f, lib) <==>
              && Accepted(desired, lib.parsing) && Buildable(desired, secrets, lib.parsing)
              && !f.builderRejects && (s.active.Some? ==> !f.closeFails) && !f.startFails
              && forall u :: u in s.users && NamesEnabled(desired.inbounds, u.inbound)
                             && CurrentIn(u.inbound, f.startedAt)(u) ==>
                   FitsFound(desired.inbounds, u, lib)
  {
    var kept := Available(desired.inbounds, s.users);
    AvailableIsSelection(desired.inbounds, s.users);
    SelectionMembers(kept, s.users, KeepsUser(desired.inbounds));
    if Accepted(desired, lib.parsing) {
      AcceptedPayloads(desired, lib.parsing);
      GroupsExactly(desired.inbounds, kept, f.startedAt, lib);
      FitsFoundAgrees(desired.inbounds, lib);
    }
  }

  /** The credential fits the enabled inbound that the user names. */
  predicate FitsFound(inbounds: seq<Inbound>, u: User, lib: Library) {
    var i := FindEnabled(inbounds, u.inbound);
    i.Some? && HasPayload(i.value) && CredentialFits(i.value, u.value, lib)
  }

  lemma FitsFoundAgrees(inbounds: seq<Inbound>, lib: Library)
    requires PayloadsPresent(inbounds)
    ensures forall u :: FitsFound(inbounds, u, lib) <==> Fits(inbounds, u, lib)
  {
    forall u ensures FitsFound(inbounds, u, lib) <==> Fits(inbounds, u, lib) {
      FoundIsPresent(inbounds, u.inbound);
    }
  }

  /** The user names an enabled inbound and, if current at one of the two readings, has a credential that fits it. */
  predicate Placed(c: Config, u: User, f: Faults, lib: Library) {
    && NamesEnabled(c.inbounds, u.inbound)
    && (CurrentIn(u.inbound, f.checkedAt)(u) || CurrentIn(u.inbound, f.startedAt)(u) ==> FitsFound(c.inbounds, u, lib))
  }

  /** Applying users to a running core succeeds exactly if all are placed, fit at both readings, and nothing fails. */
  lemma UsersAcceptedExactly(s: State, users: seq<User>, secrets: Secrets, f: Faults, lib: Library)
    requires Consistent(s, lib) && s.active.Some?
    ensures var c := s.config.value;
            UsersAccepted(s, users, secrets, f, lib) <==>
              && Buildable(c, secrets, lib.parsing) && !f.closeFails && !f.startFails
              && forall u :: u in users ==> Placed(c, u, f, lib)
  {
    var c := s.config.value;
    GroupsExactly(c.inbounds, users, f.checkedAt, lib);
    GroupsExactly(c.inbounds, users, f.startedAt, lib);
    FitsFoundAgrees(c.inbounds, lib);
  }

  /** An accepted configuration and the users it keeps group. */
  ghost predicate Takes(desired: Config, users: seq<User>, now: int, lib: Library)
    requires Accepted(desired, lib.parsing)
  {
    AcceptedPayloads(desired, lib.parsing);
    Groupable(desired.inbounds, Available(desired.inbounds, users), now, lib)
  }

  /** For any clock: after a call to apply a configuration there is no core exactly when this happened. */
  lemma NoCoreAfterConfigExactly(s: State, desired: Config, secrets: Secrets, f: Faults, lib: Library)
    requires Consistent(s, lib)
    ensures AfterApplyConfig(s, desired, secrets, f, lib).active.None? <==>
              if ConfigRefused(desired, secrets, f, lib) || (s.active.Some? && f.closeFails) then s.active.None?
              else
                && (f.startFails || !Takes(desired, s.users, f.startedAt, lib))
                && (s.config.None? || !Buildable(s.config.value, secrets, lib.parsing) || f.restartFails
                    || Blocked(s, f.restartedAt, lib))
  {
    if s.config.Some? {
      RegroupsExactly(s.config.value.inbounds, s.users, s.groupedAt, f.restartedAt, lib);
    }
  }

  function AllWell(now: int): Faults {
    Faults(false, false, false, false, now, now, now, [])
  }

  /**
   A run in which a clock step back of one second refuses the rollback: the stored user was expired when it was stored,
   is not when it is restored, and its credential does not fit. Nothing outside fails but the start of the new core.
   */
  lemma StepBackRefusesRollback(c: Config, u: User, secrets: Secrets, lib: Library)
      returns (states: seq<State>, ops: seq<Op>)
    requires Accepted(c, lib.parsing) && Buildable(c, secrets, lib.parsing) && PayloadsPresent(c.inbounds)
    requires FindEnabled(c.inbounds, u.inbound).Some? && !Fits(c.inbounds, u, lib) && u.subscriber > 0 && u.value != ""
             && u.expiresAt > 1
    ensures IsRun(states, ops, lib) && |ops| == 3
    ensures states[2].active == Some(Core(c, [u]))
    ensures ops[2] == ApplyUsers([], secrets, AllWell(u.expiresAt).(startFails := true, restartedAt := u.expiresAt - 1))
    ensures states[3].active.None? && states[3].config == Some(c) && states[3].users == [u]
  {
    var t := u.expiresAt;
    var f := AllWell(t).(startFails := true, restartedAt := t - 1);
    FoundIsPresent(c.inbounds, u.inbound);
    ClockStepBackCanRefuse(c.inbounds, u, lib);
    FirstStart(c, secrets, t, lib);
    UsersTaken(c, [u], secrets, t, [], lib);
    UsersFail(c, [u], secrets, f, lib);
    ops := [ApplyConfig(c, secrets, AllWell(t)), ApplyUsers([u], secrets, AllWell(t)), ApplyUsers([], secrets, f)];
    states := [IDLE, Held(c, [], [], t), Held(c, [u], [], t), Held(c, [u], [], t).(active := None)];
    RunOfThree(states, ops, lib);
  }

  /** A core with these users that started at `t`. */
  function Held(c: Config, users: seq<User>, pending: seq<AccessItem>, t: int): State {
    State(Some(Core(c, users)), Some(c), users, pending, t)
  }

  lemma FirstStart(c: Config, secrets: Secrets, t: int, lib: Library)
    requires Accepted(c, lib.parsing) && Buildable(c, secrets, lib.parsing)
    ensures AfterApplyConfig(IDLE, c, secrets, AllWell(t), lib) == Held(c, [], [], t)
  {
    AcceptedPayloads(c, lib.parsing);
  }

  lemma UsersTaken(c: Config, users: seq<User>, secrets: Secrets, t: int, samples: seq<AccessItem>, lib: Library)
    requires Accepted(c, lib.parsing) && Buildable(c, secrets, lib.parsing) && PayloadsPresent(c.inbounds)
             && Groupable(c.inbounds, users, t, lib)
    ensures AfterApplyUsers(Held(c, [], [], t), users, secrets, AllWell(t).(samples := samples), lib)
            == Held(c, users, samples, t)
  {
    assert [] + samples == samples;
  }

  lemma UsersFail(c: Config, stored: seq<User>, secrets: Secrets, f: Faults, lib: Library)
    requires Accepted(c, lib.parsing) && Buildable(c, secrets, lib.parsing) && PayloadsPresent(c.inbounds)
    requires f.startFails && f.samples == [] && !Groupable(c.inbounds, stored, f.restartedAt, lib)
    ensures AfterApplyUsers(Held(c, stored, [], f.startedAt), [], secrets, f, lib)
            == Held(c, stored, [], f.startedAt).(active := None)
  {}

  lemma RunOfThree(states: seq<State>, ops: seq<Op>, lib: Library)
    requires |ops| == 3 && |states| == 4 && states[0] == IDLE
    requires Steps(states[0], ops[0]) && (ConfigKept(states[0], lib) ==> states[1] == Step(states[0], ops[0], lib))
    requires Steps(states[1], ops[1]) && (ConfigKept(states[1], lib) ==> states[2] == Step(states[1], ops[1], lib))
    requires Steps(states[2], ops[2]) && (ConfigKept(states[2], lib) ==> states[3] == Step(states[2], ops[2], lib))
    ensures IsRun(states, ops, lib)
  {}

  /** How many samples a closed core leaves behind in this step. */
  ghost function Left(s: State, op: Op, lib: Library): nat
    requires ConfigKept(s, lib)
  {
    match op
    case ApplyConfig(desired, secrets, f) =>
      if s.active.Some? && !ConfigRefused(desired, secrets, f, lib) then |f.samples| else 0
    case ApplyUsers(users, secrets, f) =>
      if s.active.Some? && s.config.Some? && Groupable(s.config.value.inbounds, users, f.checkedAt, lib)
         && Buildable(s.config.value, secrets, lib.parsing) then |f.samples| else 0
    case Close(f) => if s.active.Some? then |f.samples| else 0
    case CollectAccess(_) => 0
    case RequeueAccess(_) => 0
  }

  predicate NeitherCollectsNorRequeues(op: Op) {
    !op.CollectAccess? && !op.RequeueAccess?
  }

  lemma StepLeaves(s: State, op: Op, lib: Library)
    requires ConfigKept(s, lib) && NeitherCollectsNorRequeues(op)
    ensures |Step(s, op, lib).pendingAccess| == |s.pendingAccess| + Left(s, op, lib)
  {
    match op
    case ApplyConfig(_, _, _) =>
    case ApplyUsers(_, _, _) =>
    case Close(_) =>
    case CollectAccess(_) =>
    case RequeueAccess(_) =>
  }

  ghost function LeftBetween(states: seq<State>, ops: seq<Op>, lib: Library, from: nat, to: nat): nat
    requires from <= to <= |ops| && |ops| < |states|
  {
    if from == to then 0
    else LeftBetween(states, ops, lib, from, to - 1)
         + (if ConfigKept(states[to - 1], lib) then Left(states[to - 1], ops[to - 1], lib) else 0)
  }

  /** No collect and no requeue in between. */
  predicate OnlyRuntimeCalls(ops: seq<Op>, from: nat, to: nat)
    requires to <= |ops|
  {
    forall m :: from <= m < to ==> NeitherCollectsNorRequeues(ops[m])
  }

  lemma {:induction false} PendingSinceCollect(states: seq<State>, ops: seq<Op>, lib: Library, c: nat, n: nat)
    requires IsRun(states, ops, lib) && c < n <= |ops| && ops[c].CollectAccess? && OnlyRuntimeCalls(ops, c + 1, n)
    ensures |states[n].pendingAccess| == LeftBetween(states, ops, lib, c + 1, n)
  {
    var m := n - 1;
    EveryRunConsistent(states, ops, lib, m);
    assert states[m + 1] == Step(states[m], ops[m], lib);
    if c < m {
      PendingSinceCollect(states, ops, lib, c, m);
      StepLeaves(states[m], ops[m], lib);
    }
  }

  /**
   Requeueing what a collect returned, at any later point before the next collect or requeue, is out of range exactly
   when the cores closed in between left more samples than may stay pending.
   */
  lemma RequeueAfterCollectExactly(states: seq<State>, ops: seq<Op>, lib: Library, c: nat, n: nat,
      items: seq<AccessItem>)
    requires IsRun(states, ops, lib) && c < n <= |ops| && ops[c].CollectAccess? && OnlyRuntimeCalls(ops, c + 1, n)
    ensures Steps(states[n], RequeueAccess(items)) <==>
              items == [] || LeftBetween(states, ops, lib, c + 1, n) <= MAX_PENDING
  {
    PendingSinceCollect(states, ops, lib, c, n);
    RequeueInRangeExactly(states[n].pendingAccess, items);
  }

  /** One closed core is not enough: it leaves no more than its recorder holds, which is what may stay pending. */
  lemma {:induction false} OneCloseIsSafe(states: seq<State>, ops: seq<Op>, lib: Library, from: nat, to: nat, d: nat)
    requires IsRun(states, ops, lib) && from <= to <= |ops|
    requires forall m :: from <= m < to && ConfigKept(states[m], lib) ==>
                           Left(states[m], ops[m], lib) <= if m == d then MAX_PENDING else 0
    ensures LeftBetween(states, ops, lib, from, to) <= if from <= d < to then MAX_PENDING else 0
  {
    if from < to {
      OneCloseIsSafe(states, ops, lib, from, to - 1, d);
    }
  }

  lemma CollectClears(c: Config, t: int, lib: Library)
    requires Accepted(c, lib.parsing) && PayloadsPresent(c.inbounds)
    ensures ConfigKept(Held(c, [], [], t), lib)
            && Step(Held(c, [], [], t), CollectAccess(AllWell(t)), lib) == Held(c, [], [], t)
  {}

  /** Applying no users to a core without users closes it and starts it again. */
  lemma RestartLeaves(c: Config, secrets: Secrets, pending: seq<AccessItem>, t: int, samples: seq<AccessItem>,
      lib: Library)
    requires Accepted(c, lib.parsing) && Buildable(c, secrets, lib.parsing) && PayloadsPresent(c.inbounds)
    ensures ConfigKept(Held(c, [], pending, t), lib)
    ensures Step(Held(c, [], pending, t), ApplyUsers([], secrets, AllWell(t).(samples := samples)), lib)
            == Held(c, [], pending + samples, t)
  {}

  lemma RunOfFour(states: seq<State>, ops: seq<Op>, lib: Library)
    requires |ops| == 4 && |states| == 5 && states[0] == IDLE
    requires forall n :: 0 <= n < 4 ==> Steps(states[n], ops[n])
    requires ConfigKept(states[0], lib) && ConfigKept(states[1], lib) && ConfigKept(states[2], lib)
             && ConfigKept(states[3], lib)
    requires states[1] == Step(states[0], ops[0], lib) && states[2] == Step(states[1], ops[1], lib)
    requires states[3] == Step(states[2], ops[2], lib) && states[4] == Step(states[3], ops[3], lib)
    ensures IsRun(states, ops, lib)
  {}

  /**
   A run that ends before a fatal requeue: two cores are closed after the collect, each with no more samples than a
   recorder holds, but more than may stay pending together.
   */
  lemma RequeueCanCrash(c: Config, secrets: Secrets, a: seq<AccessItem>, b: seq<AccessItem>, x: AccessItem,
      lib: Library)
    returns (states: seq<State>, ops: seq<Op>)
    requires Accepted(c, lib.parsing) && Buildable(c, secrets, lib.parsing)
    requires |a| <= MAX_PENDING && |b| <= MAX_PENDING && |a| + |b| > MAX_PENDING
    ensures IsRun(states, ops, lib) && |ops| == 4 && ops[1].CollectAccess?
    ensures ops[2] == ApplyUsers([], secrets, AllWell(0).(samples := a))
    ensures ops[3] == ApplyUsers([], secrets, AllWell(0).(samples := b))
    ensures states[4].active.Some? && !Steps(states[4], RequeueAccess([x]))
  {
    AcceptedPayloads(c, lib.parsing);
    FirstStart(c, secrets, 0, lib);
    CollectClears(c, 0, lib);
    RestartLeaves(c, secrets, [], 0, a, lib);
    RestartLeaves(c, secrets, [] + a, 0, b, lib);
    RequeueInRangeExactly([] + a + b, [x]);
    var held := Held(c, [], [], 0);
    states := [IDLE, held, held, Held(c, [], [] + a, 0), Held(c, [], [] + a + b, 0)];
    ops := [ApplyConfig(c, secrets, AllWell(0)), CollectAccess(AllWell(0)),
            ApplyUsers([], secrets, AllWell(0).(samples := a)), ApplyUsers([], secrets, AllWell(0).(samples := b))];
    RunOfFour(states, ops, lib);
  }

  /** Requeueing is out of range exactly when more than the limit is already pending. */
  lemma RequeueInRangeExactly(pending: seq<AccessItem>, items: seq<AccessItem>)
    ensures RequeueInRange(|pending|, |items|) <==> items == [] || |pending| <= MAX_PENDING
    ensures RequeueInRange(|pending|, |items|) && items != [] ==>
              var q := Requeued(pending, items);
              |q| == Min(MAX_PENDING, |pending| + |items|) && q[..|pending|] == pending
                  && q[|pending|..] == items[|items| - (|q| - |pending|)..]
  {}

  // ----- The runtime object

  class Runtime {
    const lib: Library
    var active: Option<Core>
    var config: Option<Config>
    var users: seq<User>
    var pendingAccess: seq<AccessItem>
    ghost var groupedAt: int

    ghost function Model(): State
      reads this
    {
      State(active, config, users, pendingAccess, groupedAt)
    }

    ghost predicate Valid()
      reads this
    {
      Consistent(Model(), lib)
    }

    constructor (lib: Library)
      ensures this.lib == lib && Model() == IDLE && Valid()
    {
      this.lib := lib;
      active, config, users, pendingAccess, groupedAt := None, None, [], [], 0;
    }

    method StartCore(c: Config, users: seq<User>, now: int, fails: bool) returns (core: Option<Core>)
      requires PayloadsPresent(c.inbounds)
      ensures core == Start(c, users, now, fails, lib)
    {
      if fails {
        return None;
      }
      var ok, grouped := PanelUsersByInbound(c.inbounds, users, now, lib);
      return if ok then Some(Core(c, users)) else None;
    }

    method ApplyConfig(desired: Config, secrets: Secrets, f: Faults) returns (ok: bool)
      requires Valid()
      modifies this
      ensures Valid() && Model() == AfterApplyConfig(old(Model()), desired, secrets, f, lib)
      ensures ok <==> ConfigTaken(old(Model()), desired, secrets, f, lib)
      ensures ok ==> users == Available(desired.inbounds, old(users))
      ensures pendingAccess == old(pendingAccess) +
                if old(active).Some? && !ConfigRefused(desired, secrets, f, lib) then f.samples else []
      ensures ok ==> active == Some(Core(desired, users)) && config == Some(desired)
      ensures ok ==> IsSelection(users, old(users), KeepsUser(desired.inbounds))
      ensures !ok ==> config == old(config) && users == old(users)
    {
      ghost var was := Model();
      ApplyConfigConsistent(was, desired, secrets, f, lib);
      var accepted := ValidateDesiredConfig(desired, lib.parsing);
      if !accepted || !Buildable(desired, secrets, lib.parsing) || f.builderRejects {
        return false;
      }
      AcceptedPayloads(desired, lib.parsing);
      if active.Some? {
        pendingAccess := pendingAccess + f.samples;
        if f.closeFails {
          return false;
        }
        active := None;
      }
      ok := SwitchTo(desired, secrets, f);
    }

    method SwitchTo(desired: Config, secrets: Secrets, f: Faults) returns (ok: bool)
      requires ConfigKept(Model(), lib) && PayloadsPresent(desired.inbounds) && active.None?
      modifies this
      ensures Model() == AfterSwitch(old(Model()), desired, secrets, f, lib)
      ensures ok <==> Start(desired, Available(desired.inbounds, old(users)), f.startedAt, f.startFails, lib).Some?
      ensures ok ==> active == Some(Core(desired, users)) && config == Some(desired)
      ensures ok ==> IsSelection(users, old(users), KeepsUser(desired.inbounds))
      ensures !ok ==> config == old(config) && users == old(users)
    {
      var candidateUsers := UsersAvailableInConfig(desired.inbounds, users);
      var candidate := StartCore(desired, candidateUsers, f.startedAt, f.startFails);
      if candidate.None? {
        if config.Some? && Buildable(config.value, secrets, lib.parsing) {
          active := StartCore(config.value, users, f.restartedAt, f.restartFails);
        }
        return false;
      }
      active, config, users, groupedAt := candidate, Some(desired), candidateUsers, f.startedAt;
      return true;
    }

    method ApplyUsers(users: seq<User>, secrets: Secrets, f: Faults) returns (ok: bool)
      requires Valid()
      modifies this
      ensures Valid() && Model() == AfterApplyUsers(old(Model()), users, secrets, f, lib)
      ensures ok <==> UsersAccepted(old(Model()), users, secrets, f, lib)
      ensures pendingAccess == old(pendingAccess) || pendingAccess == old(pendingAccess) + f.samples
      ensures ok && old(active).Some? ==> active == Some(Core(old(config).value, users)) && config == old(config)
      ensures ok && old(active).Some? ==> pendingAccess == old(pendingAccess) + f.samples
      ensures ok ==> this.users == users
      ensures !ok ==> this.users == old(this.users) && config == old(config)
    {
      ApplyUsersConsistent(Model(), users, secrets, f, lib);
      if active.None? || config.None? {
        if |users| == 0 {
          this.users := [];
          return true;
        }
        return false;
      }
      var checked, grouped := PanelUsersByInbound(config.value.inbounds, users, f.checkedAt, lib);
      if !checked || !Buildable(config.value, secrets, lib.parsing) {
        return false;
      }
      pendingAccess := pendingAccess + f.samples;
      ok := SwitchUsers(config.value, users, f);
    }

    method SwitchUsers(c: Config, users: seq<User>, f: Faults) returns (ok: bool)
      requires PayloadsPresent(c.inbounds)
      modifies this
      ensures Model() == AfterUserSwitch(old(Model()), c, users, f, lib)
      ensures ok <==> !f.closeFails && Start(c, users, f.startedAt, f.startFails, lib).Some?
      ensures ok ==> this.users == users && active == Some(Core(c, users))
      ensures !ok ==> this.users == old(this.users)
    {
      var previousUsers := this.users;
      active := None;
      if f.closeFails {
        active := StartCore(c, previousUsers, f.restartedAt, f.restartFails);
        return false;
      }
      var candidate := StartCore(c, users, f.startedAt, f.startFails);
      if candidate.None? {
        active := StartCore(c, previousUsers, f.restartedAt, f.restartFails);
        return false;
      }
      active, this.users, groupedAt := candidate, users, f.startedAt;
      return true;
    }

    /** Pending items first, then the running core's; nothing stays pending. */
    method CollectAccess(live: seq<AccessItem>) returns (items: seq<AccessItem>)
      modifies this`pendingAccess
      ensures items == old(pendingAccess) + (if active.Some? then live else []) && pendingAccess == []
    {
      items := pendingAccess;
      pendingAccess := [];
      if active.Some? {
        items := items + live;
      }
    }

    /** `crashed` is the slice expression going out of range. */
    method RequeueAccess(items: seq<AccessItem>) returns (crashed: bool)
      modifies this`pendingAccess
      ensures crashed <==> !RequeueInRange(|old(pendingAccess)|, |items|)
      ensures pendingAccess == if crashed then old(pendingAccess) else Requeued(old(pendingAccess), items)
    {
      if |items| == 0 {
        return false;
      }
      var tail := items;
      if |pendingAccess| + |items| > MAX_PENDING {
        var from := |items| - (MAX_PENDING - |pendingAccess|);
        if from < 0 || from > |items| {
          return true;
        }
        tail := items[from..];
      }
      pendingAccess := pendingAccess + tail;
      return false;
    }
  }
}
