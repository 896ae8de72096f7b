/**
 What an admitted inbound is and what its node says: admission as one table for all protocols, the exact secrets a node
 needs, and what the node takes from the inbound, the profile and the secrets.
 */
module ConfigMeaning {
  import opened Ordering
  import opened Text
  import opened DesiredConfig

  // ----- Admission by table

  /** The protocols whose payload is present. */
  function PayloadKinds(i: Inbound): set<Protocol> {
    (if i.vless.Some? then {VLESS} else {}) + (if i.vmess.Some? then {VMess} else {}) +
    (if i.trojan.Some? then {Trojan} else {}) + (if i.ss2022.Some? then {SS2022} else {}) +
    (if i.tuic.Some? then {TUIC} else {}) + (if i.hysteria2.Some? then {Hysteria2} else {})
  }

  /** The security each protocol runs over; None is no profile at all. */
  function Securities(protocol: Protocol): set<Option<SecurityKind>> {
    match protocol
    case VLESS => {Some(TLS), Some(Reality)}
    case VMess => {None, Some(TLS)}
    case SS2022 => {None}
    case _ => {Some(TLS)}
  }

  datatype Carrier = Stream | UDPQuic | PlainTCP

  function CarrierOf(protocol: Protocol): Carrier {
    if protocol == TUIC || protocol == Hysteria2 then UDPQuic else if protocol == SS2022 then PlainTCP else Stream
  }

  predicate Carries(c: Carrier, i: Inbound) {
    match c
    case Stream => ValidStreamTransport(i.transport)
    case UDPQuic => i.network == "udp" && i.transport.kind == QUIC
    case PlainTCP => i.transport.kind == TCP || i.transport.kind == OtherTransport("")
  }

  /** What is left to each protocol's own fields. */
  predicate OwnFields(i: Inbound, security: Option<SecurityKind>) {
    && (i.protocol == VLESS && i.vless.Some? ==>
        && i.vless.value.decryption == "none" && i.vless.value.flow in {"", "xtls-rprx-vision"}
        && (i.vless.value.flow != "" ==> i.transport.kind == TCP)
        && (security == Some(Reality) ==> i.vless.value.flow != ""))
    && (i.protocol == SS2022 && i.ss2022.Some? ==>
        && i.securityProfileId == 0 && i.ss2022.value.cipher in {Aes128, Aes256, ChaCha20}
        && IsSecretRef(TrimSpace(i.ss2022.value.serverKeyRef))
        && i.ss2022.value.network in {"tcp", "udp", "tcp,udp"})
    && (i.protocol == TUIC && i.tuic.Some? ==>
        && i.tuic.value.version == 5 && i.tuic.value.congestionControl in {"bbr", "cubic", "new_reno"}
        && 1 <= i.tuic.value.heartbeatSeconds <= 300)
    && (i.protocol == Hysteria2 && i.hysteria2.Some? ==>
        var h := i.hysteria2.value;
        && h.upMbps > 0 && h.downMbps > 0 && h.obfs in {"", "salamander"}
        && (h.obfs != "" ==> IsSecretRef(TrimSpace(h.obfsPasswordRef)))
        && (h.hopPorts != "" ==> ValidPortRange(h.hopPorts) && 5 <= h.hopIntervalSeconds <= 3600))
  }

  /**
   An inbound is admitted exactly if its only payload, its security, its carrier and its own fields fit its protocol.
   */
  lemma AdmittedExactly(i: Inbound, profile: Option<SecurityProfile>)
    ensures var security := if profile.Some? then Some(profile.value.kind) else None;
            ValidInbound(i, profile) <==>
              && 0 < i.multiplierMilli <= 100000 && !i.protocol.OtherProtocol?
              && PayloadKinds(i) == {i.protocol} && security in Securities(i.protocol)
              && Carries(CarrierOf(i.protocol), i) && OwnFields(i, security)
  {
    OnePayload(i);
    if i.protocol == SS2022 && i.ss2022.Some? {
      assert i.ss2022.value.cipher in {Aes128, Aes256, ChaCha20} <==> !i.ss2022.value.cipher.OtherCipher?;
    }
  }

  lemma OnePayload(i: Inbound)
    ensures PayloadKinds(i) == {i.protocol} <==> i.protocol in PayloadKinds(i) && Payloads(i) == 1
  {
    var kinds := PayloadKinds(i);
    assert VLESS in kinds <==> i.vless.Some?;
    assert VMess in kinds <==> i.vmess.Some?;
    assert Trojan in kinds <==> i.trojan.Some?;
    assert SS2022 in kinds <==> i.ss2022.Some?;
    assert TUIC in kinds <==> i.tuic.Some?;
    assert Hysteria2 in kinds <==> i.hysteria2.Some?;
    if kinds == {i.protocol} {
      assert forall k :: k in kinds ==> k == i.protocol;
    }
  }

  function Normalized(ids: seq<string>, p: Parsing): set<string> {
    set n | 0 <= n < |ids| :: p.lower(TrimSpace(ids[n]))
  }

  /**
   A profile is admitted exactly if its only payload is its kind's, and that payload's names, references and numbers
   fit.
   */
  lemma ProfileAdmittedExactly(s: SecurityProfile, p: Parsing)
    ensures ValidSecurityProfile(s, p) <==>
              || (&& s.kind == TLS && s.tls.Some? && s.reality.None?
                  && var t := s.tls.value;
                  && NamesFit(t.serverNames, p)
                  && IsSecretRef(TrimSpace(t.certificateRef)) && IsSecretRef(TrimSpace(t.privateKeyRef))
                  && {t.minVersion, t.maxVersion} <= {"", "1.2", "1.3"})
              || (&& s.kind == Reality && s.reality.Some? && s.tls.None?
                  && var r := s.reality.value;
                  && NamesFit(r.serverNames, p) && ValidDestination(r.destination, p)
                  && IsSecretRef(TrimSpace(r.privateKeyRef)) && TrimSpace(r.publicKey) != ""
                  && 1 <= |r.shortIds| <= 8 && |Normalized(r.shortIds, p)| == |r.shortIds|
                  && forall id :: id in Normalized(r.shortIds, p) ==> IsShortId(id))
  {
    if s.tls.Some? {
      assert {s.tls.value.minVersion, s.tls.value.maxVersion} <= {"", "1.2", "1.3"} <==>
             ValidTLSVersion(s.tls.value.minVersion) && ValidTLSVersion(s.tls.value.maxVersion) by {
        assert s.tls.value.minVersion in {s.tls.value.minVersion, s.tls.value.maxVersion};
      }
    }
    if s.reality.Some? {
      ShortIdsFit(s.reality.value.shortIds, p);
      ShortIdsDistinct(s.reality.value.shortIds, p);
    }
  }

  predicate IsShortId(id: string) {
    id != "" && |id| <= 16 && |id| % 2 == 0 && IsHexText(id)
  }

  predicate NamesFit(names: seq<string>, p: Parsing) {
    1 <= |names| <= 16 && forall name :: name in names ==> p.isIP(TrimSpace(name)) || p.isHostName(TrimSpace(name))
  }

  lemma ShortIdsFit(ids: seq<string>, p: Parsing)
    ensures (forall n :: 0 <= n < |ids| ==> ValidShortId(ShortId(ids[n], p))) <==>
              forall id :: id in Normalized(ids, p) ==> IsShortId(id)
  {
    forall n | 0 <= n < |ids| ensures ShortId(ids[n], p) in Normalized(ids, p) {
      assert p.lower(TrimSpace(ids[n])) in Normalized(ids, p);
    }
    forall id | id in Normalized(ids, p) ensures exists n :: 0 <= n < |ids| && ShortId(ids[n], p) == id {
      var n :| 0 <= n < |ids| && p.lower(TrimSpace(ids[n])) == id;
      assert ShortId(ids[n], p) == id;
    }
  }

  lemma ShortIdsDistinct(ids: seq<string>, p: Parsing)
    ensures (forall n, m :: 0 <= n < m < |ids| ==> ShortId(ids[n], p) != ShortId(ids[m], p)) <==>
              |Normalized(ids, p)| == |ids|
  {
    var key := (id: string) => ShortId(id, p);
    DistinctBy(ids, key);
    forall id ensures id in Normalized(ids, p) <==> id in KeysOf(ids, key) {
      if id in KeysOf(ids, key) {
        var x :| x in ids && key(x) == id;
        var n :| 0 <= n < |ids| && ids[n] == x;
        assert p.lower(TrimSpace(ids[n])) == id;
      }
      if id in Normalized(ids, p) {
        var n :| 0 <= n < |ids| && p.lower(TrimSpace(ids[n])) == id;
        assert ids[n] in ids && key(ids[n]) == id;
      }
    }
    assert Normalized(ids, p) == KeysOf(ids, key);
    assert forall n :: 0 <= n < |ids| ==> key(ids[n]) == ShortId(ids[n], p);
    if forall n, m :: 0 <= n < m < |ids| ==> ShortId(ids[n], p) != ShortId(ids[m], p) {
      assert forall n, m :: 0 <= n < m < |ids| ==> key(ids[n]) != key(ids[m]);
    }
  }

  ghost function KeysOf<T(!new), K(!new)>(xs: seq<T>, key: T -> K): set<K> {
    set x | x in xs :: key(x)
  }

  lemma {:induction false} DistinctBy<T(!new), K(!new)>(xs: seq<T>, key: T -> K)
    ensures |KeysOf(xs, key)| <= |xs|
    ensures |KeysOf(xs, key)| == |xs| <==> forall n, m :: 0 <= n < m < |xs| ==> key(xs[n]) != key(xs[m])
  {
    if xs != [] {
      var k := |xs| - 1;
      DistinctBy(xs[..k], key);
      assert KeysOf(xs, key) == KeysOf(xs[..k], key) + {key(xs[k])};
    }
  }

  /**
   A configuration is accepted exactly if its header fits, each profile and each inbound is admitted on its own, and
   no two profiles share an identifier and no two inbounds an identifier or a port key.
   */
  lemma AcceptedExactly(c: Config, p: Parsing)
    ensures Accepted(c, p) <==>
              && c.schemaVersion == 1 && c.version > 0 && c.agentNodeId > 0
              && (forall s :: s in c.security ==> s.id > 0 && ValidSecurityProfile(s, p))
              && |set s | s in c.security :: s.id| == |c.security|
              && (forall i :: i in c.inbounds ==>
                    && i.id > 0 && 1 <= i.port <= 65535
                    && (TrimSpace(i.listen) in {"0.0.0.0", "::"} || p.isIP(TrimSpace(i.listen)))
                    && ValidInbound(i, FindProfile(c.security, i.securityProfileId)))
              && |set i | i in c.inbounds :: i.id| == |set i | i in c.inbounds :: PortKey(i, p)| == |c.inbounds|
  {
    ProfilesAcceptedExactly(c.security, ProfileCheck(p));
    InboundsAcceptedExactly(c.inbounds, c.security, InboundCheck(p), PortKeys(p));
    assert (set i | i in c.inbounds :: PortKey(i, p)) == set i | i in c.inbounds :: PortKeys(p)(i);
  }

  lemma ProfilesAcceptedExactly(security: seq<SecurityProfile>, admits: SecurityProfile -> bool)
    ensures ProfilesAccepted(security, admits) <==>
              && (forall s :: s in security ==> s.id > 0 && admits(s))
              && |set s | s in security :: s.id| == |security|
  {
    var id := (s: SecurityProfile) => s.id;
    DistinctBy(security, id);
    assert (set s | s in security :: s.id) == KeysOf(security, id);
    if ProfilesAccepted(security, admits) {
      forall s | s in security ensures s.id > 0 && admits(s) {
        var n :| 0 <= n < |security| && security[n] == s;
      }
      assert forall n, m :: 0 <= n < m < |security| ==> id(security[n]) != id(security[m]);
    } else if |set s | s in security :: s.id| == |security| {
      assert forall n, m :: 0 <= n < m < |security| ==> id(security[n]) != id(security[m]);
      assert forall n, m :: 0 <= n < m < |security| ==> security[n].id != security[m].id;
    }
  }

  lemma InboundsAcceptedExactly(inbounds: seq<Inbound>, security: seq<SecurityProfile>,
      admits: (Inbound, Option<SecurityProfile>) -> bool, portKey: Inbound -> string)
    ensures InboundsAccepted(inbounds, security, admits, portKey) <==>
              && (forall i :: i in inbounds ==> admits(i, FindProfile(security, i.securityProfileId)))
              && |set i | i in inbounds :: i.id| == |set i | i in inbounds :: portKey(i)| == |inbounds|
  {
    var id := (i: Inbound) => i.id;
    DistinctBy(inbounds, id);
    DistinctBy(inbounds, portKey);
    assert (set i | i in inbounds :: i.id) == KeysOf(inbounds, id);
    assert (set i | i in inbounds :: portKey(i)) == KeysOf(inbounds, portKey);
    if InboundsAccepted(inbounds, security, admits, portKey) {
      forall i | i in inbounds ensures admits(i, FindProfile(security, i.securityProfileId)) {
        var n :| 0 <= n < |inbounds| && inbounds[n] == i;
      }
      assert forall n, m :: 0 <= n < m < |inbounds| ==> id(inbounds[n]) != id(inbounds[m]);
    } else if |set i | i in inbounds :: i.id| == |inbounds| {
      assert forall n, m :: 0 <= n < m < |inbounds| ==> id(inbounds[n]) != id(inbounds[m]);
      assert forall n, m :: 0 <= n < m < |inbounds| ==> inbounds[n].id != inbounds[m].id;
    }
  }

  /** Without separators in their texts, two inbounds have one port key exactly if network, address and port agree. */
  lemma PortKeySeparates(i: Inbound, j: Inbound, p: Parsing)
    requires '|' !in p.lower(i.network) && '|' !in p.lower(j.network)
    requires '|' !in TrimSpace(i.listen) && '|' !in TrimSpace(j.listen)
    ensures PortKey(i, p) == PortKey(j, p) <==>
              p.lower(i.network) == p.lower(j.network) && TrimSpace(i.listen) == TrimSpace(j.listen) && i.port == j.port
  {
    PortKeyParts(i, p);
    PortKeyParts(j, p);
    if PortKey(i, p) == PortKey(j, p) {
      var a, b := Split(PortKey(i, p), '|'), Split(PortKey(j, p), '|');
      assert a[0] == b[0] && a[1] == b[1] && a[2] == b[2];
      SignedInjective(i.port, j.port);
    }
  }

  lemma PortKeyParts(i: Inbound, p: Parsing)
    requires '|' !in p.lower(i.network) && '|' !in TrimSpace(i.listen)
    ensures Split(PortKey(i, p), '|') == [p.lower(i.network), TrimSpace(i.listen), Signed(i.port)]
  {
    var network, listen, port := p.lower(i.network), TrimSpace(i.listen), Signed(i.port);
    SplitNone(port, '|');
    SplitFirst(listen, '|', port);
    SplitFirst(network, '|', listen + ['|'] + port);
    assert PortKey(i, p) == network + ['|'] + (listen + ['|'] + port);
  }

  // ----- Nodes

  /** The security material of a node comes from its profile and from the secrets the profile refers to. */
  predicate SaysSecurity(n: Node, profile: SecurityProfile, s: Secrets, p: Parsing) {
    && n.security == Some(profile.kind)
    && (profile.kind == TLS && profile.tls.Some? ==>
        var t := profile.tls.value;
        && t.serverNames != [] && n.serverName == t.serverNames[0]
        && n.tlsVersions == (t.minVersion, t.maxVersion) && n.alpn == t.alpn
        && s.resolve(t.certificateRef) == Some(n.certificate) && s.resolve(t.privateKeyRef) == Some(n.privateKey))
    && (profile.kind == Reality && profile.reality.Some? ==>
        var r := profile.reality.value;
        && r.serverNames != [] && n.serverName == r.serverNames[0] && r.shortIds != []
        && s.resolve(r.privateKeyRef).Some? && n.privateKey == TrimSpace(s.resolve(r.privateKeyRef).value)
        && n.reality.2 == r.publicKey && n.reality.3 == r.shortIds[0] && n.reality.4 == r.fingerprint
        && (p.splitHostPort(r.destination).Some? ==>
            && n.reality.0 == p.splitHostPort(r.destination).value.0
            && Atoi(p.splitHostPort(r.destination).value.1).GetOr(0) == n.reality.1))
  }

  /** The protocol fields of a node are the inbound's, with the secrets it refers to put in. */
  predicate SaysProtocol(n: Node, i: Inbound, s: Secrets) {
    && n.id == i.id && n.protocol == i.protocol && n.port == i.port && n.transport == i.transport
    && (i.protocol == VLESS && i.vless.Some? ==>
        n.flow == i.vless.value.flow && n.encryption == i.vless.value.decryption)
    && (i.protocol == SS2022 && i.ss2022.Some? ==>
        && n.cipher == Some(i.ss2022.value.cipher) && s.resolve(i.ss2022.value.serverKeyRef).Some?
        && IsKeyFrom(n.serverKey, i.ss2022.value.cipher, s.resolve(i.ss2022.value.serverKeyRef).value, s))
    && (i.protocol == TUIC && i.tuic.Some? ==>
        n.tuning == (i.tuic.value.congestionControl, i.tuic.value.udpRelayMode, i.tuic.value.zeroRtt))
    && (i.protocol == Hysteria2 && i.hysteria2.Some? ==>
        var h := i.hysteria2.value;
        && n.bandwidth == (h.upMbps, h.downMbps) && n.hopping == (h.hopPorts, h.hopIntervalSeconds)
        && n.obfuscation.0 == h.obfs
        && if h.obfsPasswordRef == "" then n.obfuscation.1 == ""
           else s.resolve(h.obfsPasswordRef).Some? && n.obfuscation.1 == TrimSpace(s.resolve(h.obfsPasswordRef).value))
  }

  /** A key of the cipher's length: the material itself, or what it decodes to. */
  predicate IsKeyFrom(key: string, cipher: Cipher, material: string, s: Secrets) {
    && |key| == (if cipher == Aes128 then 16 else 32)
    && (key == material || s.decodeBase64(TrimSpace(material)) == Some(key))
  }

  /** What a built node says, and that without a profile it says nothing of security. */
  lemma BuiltNodeSays(c: Config, i: Inbound, s: Secrets, p: Parsing)
    requires PanelNode(c, i, s, p).Built?
    ensures var n := PanelNode(c, i, s, p).node;
            && SaysProtocol(n, i, s)
            && if i.securityProfileId == 0 then n.security == None
               else var profile := FindProfile(c.security, i.securityProfileId);
                    profile.Some? && SaysSecurity(n, profile.value, s, p)
  {
    ProtocolPartSays(i, s);
    if i.securityProfileId != 0 {
      SecurityPartSays(ProtocolPart(i, s).node, i, FindProfile(c.security, i.securityProfileId).value, s, p);
    }
  }

  lemma ProtocolPartSays(i: Inbound, s: Secrets)
    ensures ProtocolPart(i, s).Built? ==> SaysProtocol(ProtocolPart(i, s).node, i, s)
    ensures ProtocolPart(i, s).Built? ==> ProtocolPart(i, s).node.security == None
  {}

  lemma SecurityPartSays(n: Node, i: Inbound, profile: SecurityProfile, s: Secrets, p: Parsing)
    requires SaysProtocol(n, i, s)
    ensures SecurityPart(n, profile, s, p).Built? ==>
              var m := SecurityPart(n, profile, s, p).node; SaysProtocol(m, i, s) && SaysSecurity(m, profile, s, p)
  {}

  /** The references whose secrets building the inbound's node reads. */
  function NeededRefs(c: Config, i: Inbound): set<string> {
    var profile := FindProfile(c.security, i.securityProfileId);
    (if i.protocol == SS2022 && i.ss2022.Some? then {i.ss2022.value.serverKeyRef} else {}) +
    (if i.protocol == Hysteria2 && i.hysteria2.Some? && i.hysteria2.value.obfsPasswordRef != ""
     then {i.hysteria2.value.obfsPasswordRef} else {}) +
    (if i.securityProfileId != 0 && profile.Some? && profile.value.kind == TLS && profile.value.tls.Some?
     then {profile.value.tls.value.certificateRef, profile.value.tls.value.privateKeyRef} else {}) +
    (if i.securityProfileId != 0 && profile.Some? && profile.value.kind == Reality && profile.value.reality.Some?
     then {profile.value.reality.value.privateKeyRef} else {})
  }

  /** The server key, if there is one, is of the cipher's length or decodes to that. */
  predicate KeyFits(i: Inbound, s: Secrets) {
    i.protocol == SS2022 && i.ss2022.Some? && s.resolve(i.ss2022.value.serverKeyRef).Some? ==>
      var material := s.resolve(i.ss2022.value.serverKeyRef).value;
      var length := if i.ss2022.value.cipher == Aes128 then 16 else 32;
      var decoded := s.decodeBase64(TrimSpace(material));
      |material| == length || (decoded.Some? && |decoded.value| == length)
  }

  /**
   For every inbound of an accepted configuration: its node is built exactly if every secret it needs resolves, the
   server key fits, and it is not a VMess inbound that names an absent profile.
   */
  lemma BuildsExactlyWithItsSecrets(c: Config, i: Inbound, s: Secrets, p: Parsing)
    requires Accepted(c, p) && i in c.inbounds
    ensures PanelNode(c, i, s, p).Built? <==>
              && !NamesAbsentProfile(c, i) && KeyFits(i, s)
              && forall r :: r in NeededRefs(c, i) ==> s.resolve(r).Some?
  {
    AcceptedInboundBuilds(c, i, s, p);
    AcceptedParts(c, i, p);
    var profile := FindProfile(c.security, i.securityProfileId);
    ProtocolPartExactly(i, profile, s);
    NeededResolve(c, i, s);
    if profile.Some? && ProtocolPart(i, s).Built? {
      SecurityPartExactly(ProtocolPart(i, s).node, profile.value, s, p);
    }
  }

  lemma NeededResolve(c: Config, i: Inbound, s: Secrets)
    ensures var profile := FindProfile(c.security, i.securityProfileId);
            var secured := i.securityProfileId != 0 && profile.Some?;
            (forall r :: r in NeededRefs(c, i) ==> s.resolve(r).Some?) <==>
              && (i.protocol == SS2022 && i.ss2022.Some? ==> s.resolve(i.ss2022.value.serverKeyRef).Some?)
              && (i.protocol == Hysteria2 && i.hysteria2.Some? && i.hysteria2.value.obfsPasswordRef != "" ==>
                  s.resolve(i.hysteria2.value.obfsPasswordRef).Some?)
              && (secured && profile.value.kind == TLS && profile.value.tls.Some? ==>
                  && s.resolve(profile.value.tls.value.certificateRef).Some?
                  && s.resolve(profile.value.tls.value.privateKeyRef).Some?)
              && (secured && profile.value.kind == Reality && profile.value.reality.Some? ==>
                  s.resolve(profile.value.reality.value.privateKeyRef).Some?)
  {
    var profile := FindProfile(c.security, i.securityProfileId);
    if i.securityProfileId != 0 && profile.Some? && profile.value.kind == TLS && profile.value.tls.Some? {
      assert profile.value.tls.value.certificateRef in NeededRefs(c, i);
      assert profile.value.tls.value.privateKeyRef in NeededRefs(c, i);
    }
    if i.securityProfileId != 0 && profile.Some? && profile.value.kind == Reality && profile.value.reality.Some? {
      assert profile.value.reality.value.privateKeyRef in NeededRefs(c, i);
    }
    if i.protocol == SS2022 && i.ss2022.Some? {
      assert i.ss2022.value.serverKeyRef in NeededRefs(c, i);
    }
    if i.protocol == Hysteria2 && i.hysteria2.Some? && i.hysteria2.value.obfsPasswordRef != "" {
      assert i.hysteria2.value.obfsPasswordRef in NeededRefs(c, i);
    }
  }

  lemma AcceptedParts(c: Config, i: Inbound, p: Parsing)
    requires Accepted(c, p) && i in c.inbounds
    ensures var profile := FindProfile(c.security, i.securityProfileId);
            ValidInbound(i, profile) && (profile.Some? ==> ValidSecurityProfile(profile.value, p))
  {
    var n :| 0 <= n < |c.inbounds| && c.inbounds[n] == i;
    assert InboundCheck(p)(c.inbounds[n], FindProfile(c.security, c.inbounds[n].securityProfileId));
    FindProfileScans(c.security, i.securityProfileId);
    var profile := FindProfile(c.security, i.securityProfileId);
    if profile.Some? {
      var m :| 0 <= m < |c.security| && c.security[m] == profile.value;
      assert ProfileCheck(p)(c.security[m]);
    }
  }

  lemma ProtocolPartExactly(i: Inbound, profile: Option<SecurityProfile>, s: Secrets)
    requires ValidInbound(i, profile)
    ensures ProtocolPart(i, s).Built? <==>
              && KeyFits(i, s)
              && (i.protocol == SS2022 ==> s.resolve(i.ss2022.value.serverKeyRef).Some?)
              && (i.protocol == Hysteria2 && i.hysteria2.value.obfsPasswordRef != "" ==>
                  s.resolve(i.hysteria2.value.obfsPasswordRef).Some?)
  {}

  lemma SecurityPartExactly(n: Node, profile: SecurityProfile, s: Secrets, p: Parsing)
    requires ValidSecurityProfile(profile, p)
    ensures SecurityPart(n, profile, s, p).Built? <==>
              && (profile.kind == TLS ==>
                  s.resolve(profile.tls.value.certificateRef).Some? && s.resolve(profile.tls.value.privateKeyRef).Some?)
              && (profile.kind == Reality ==> s.resolve(profile.reality.value.privateKeyRef).Some?)
  {}

  // ----- References

  /** The listed references are exactly the nonempty trimmed ones of profiles and inbounds. */
  lemma ReferencedExactly(c: Config, r: string)
    ensures r in ConfigRefs(c) <==>
              && r != ""
              && ((exists s :: s in c.security
                               && ((s.tls.Some? && (r == TrimSpace(s.tls.value.certificateRef)
                                                    || r == TrimSpace(s.tls.value.privateKeyRef)))
                                   || (s.reality.Some? && r == TrimSpace(s.reality.value.privateKeyRef))))
                  || (exists i :: i in c.inbounds
                                  && ((i.ss2022.Some? && r == TrimSpace(i.ss2022.value.serverKeyRef))
                                      || (i.hysteria2.Some? && r == TrimSpace(i.hysteria2.value.obfsPasswordRef)))))
  {
    forall s ensures r in ProfileRefs(s) <==>
        && r != ""
        && ((s.tls.Some? && (r == TrimSpace(s.tls.value.certificateRef) || r == TrimSpace(s.tls.value.privateKeyRef)))
            || (s.reality.Some? && r == TrimSpace(s.reality.value.privateKeyRef))) {}
    forall i ensures r in InboundRefs(i) <==>
        && r != ""
        && ((i.ss2022.Some? && r == TrimSpace(i.ss2022.value.serverKeyRef))
            || (i.hysteria2.Some? && r == TrimSpace(i.hysteria2.value.obfsPasswordRef))) {}
    MemberOfRefs(c, r);
  }

  lemma MemberOfRefs(c: Config, r: string)
    ensures r in ConfigRefs(c) <==>
              (exists s :: s in c.security && r in ProfileRefs(s))
                  || (exists i :: i in c.inbounds && r in InboundRefs(i))
  {}
}
