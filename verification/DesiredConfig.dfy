/**
 The desired configuration: what validation admits, the proxy node built from each inbound, and the
 secret references a configuration can touch.
 */
module DesiredConfig {
  import opened Ordering
  import opened Text

  // The protocol, security, transport and cipher names are strings; each type lists the ones the code knows.

  datatype Protocol = VLESS | VMess | Trojan | SS2022 | TUIC | Hysteria2 | OtherProtocol(name: string)

  datatype SecurityKind = TLS | Reality | OtherSecurity(name: string)

  datatype TransportKind = TCP | WebSocket | GRPC | QUIC | OtherTransport(name: string)

  datatype Cipher = Aes128 | Aes256 | ChaCha20 | OtherCipher(name: string)

  datatype Transport = Transport(kind: TransportKind, path: string, host: string, serviceName: string)

  datatype TLSProfile = TLSProfile(serverNames: seq<string>, certificateRef: string, privateKeyRef: string,
                                   minVersion: string, maxVersion: string, alpn: seq<string>)

  datatype RealityProfile = RealityProfile(serverNames: seq<string>, destination: string, privateKeyRef: string,
                                           publicKey: string, shortIds: seq<string>, fingerprint: string)

  datatype SecurityProfile = SecurityProfile(id: int, kind: SecurityKind, tls: Option<TLSProfile>,
                                             reality: Option<RealityProfile>)

  datatype VLESSConfig = VLESSConfig(decryption: string, flow: string)

  datatype Marker = Marker

  datatype SS2022Config = SS2022Config(cipher: Cipher, serverKeyRef: string, network: string)

  datatype TUICConfig = TUICConfig(version: int, congestionControl: string, zeroRtt: bool, heartbeatSeconds: int,
                                   udpRelayMode: string)

  datatype Hysteria2Config = Hysteria2Config(upMbps: int, downMbps: int, obfs: string, obfsPasswordRef: string,
                                             hopPorts: string, hopIntervalSeconds: int)

  datatype Inbound = Inbound(id: int, protocol: Protocol, listen: string, port: int, network: string, enabled: bool,
                             transport: Transport, securityProfileId: int, multiplierMilli: int,
                             vless: Option<VLESSConfig>, vmess: Option<Marker>, trojan: Option<Marker>,
                             ss2022: Option<SS2022Config>, tuic: Option<TUICConfig>, hysteria2: Option<Hysteria2Config>)

  datatype Config = Config(schemaVersion: int, version: nat, agentNodeId: int, inbounds: seq<Inbound>,
                           security: seq<SecurityProfile>)

  datatype SignedConfig = SignedConfig(keyId: string, sha256: string, signature: string, config: Config)

  /** Library parsing the checks call into: net.ParseIP, the host-name pattern, net.SplitHostPort, ... */
  datatype Parsing = Parsing(isIP: string -> bool, isHostName: string -> bool,
                             splitHostPort: string -> Option<(string, string)>,
                             isReservedHost: string -> bool, lower: string -> string)

  // ----- Validation

  predicate ValidServerNames(names: seq<string>, p: Parsing) {
    1 <= |names| <= 16
    && forall n :: 0 <= n < |names| ==> p.isIP(TrimSpace(names[n])) || p.isHostName(TrimSpace(names[n]))
  }

  predicate ValidSecretRef(ref: string) {
    IsSecretRef(TrimSpace(ref))
  }

  predicate ValidTLSVersion(v: string) {
    v == "" || v == "1.2" || v == "1.3"
  }

  predicate IsHexText(s: string) {
    forall n :: 0 <= n < |s| ==> IsDigit(s[n]) || 'a' <= s[n] <= 'f' || 'A' <= s[n] <= 'F'
  }

  function ShortId(raw: string, p: Parsing): string {
    p.lower(TrimSpace(raw))
  }

  predicate ValidShortId(id: string) {
    0 < |id| <= 16 && |id| % 2 == 0 && IsHexText(id)
  }

  predicate ValidDestination(destination: string, p: Parsing) {
    var parts := p.splitHostPort(TrimSpace(destination));
    parts.Some? && parts.value.0 != ""
    && var port := Atoi(parts.value.1);
       port.Some? && 0 < port.value <= 65535 && !p.isReservedHost(parts.value.0)
  }

  predicate ValidReality(r: RealityProfile, p: Parsing) {
    && ValidServerNames(r.serverNames, p) && ValidDestination(r.destination, p)
    && ValidSecretRef(r.privateKeyRef) && TrimSpace(r.publicKey) != ""
    && 1 <= |r.shortIds| <= 8
    && (forall n :: 0 <= n < |r.shortIds| ==> ValidShortId(ShortId(r.shortIds[n], p)))
    && (forall n, m :: 0 <= n < m < |r.shortIds| ==> ShortId(r.shortIds[n], p) != ShortId(r.shortIds[m], p))
  }

  predicate ValidSecurityProfile(s: SecurityProfile, p: Parsing) {
    match s.kind
    case TLS =>
      s.tls.Some? && s.reality.None? && ValidServerNames(s.tls.value.serverNames, p)
      && ValidSecretRef(s.tls.value.certificateRef) && ValidSecretRef(s.tls.value.privateKeyRef)
      && ValidTLSVersion(s.tls.value.minVersion) && ValidTLSVersion(s.tls.value.maxVersion)
    case Reality => s.reality.Some? && s.tls.None? && ValidReality(s.reality.value, p)
    case _ => false
  }

  predicate ValidStreamTransport(t: Transport) {
    match t.kind
    case TCP => t.path == "" && t.serviceName == ""
    case WebSocket => t.path != "" && t.path[0] == '/'
    case GRPC => TrimSpace(t.serviceName) != "" && '\r' !in t.serviceName && '\n' !in t.serviceName
    case _ => false
  }

  predicate ValidPortRange(value: string) {
    var parts := Split(value, '-');
    |parts| == 2
    && var first, last := Atoi(TrimSpace(parts[0])), Atoi(TrimSpace(parts[1]));
       first.Some? && last.Some? && first.value > 0 && last.value <= 65535 && first.value <= last.value
           && last.value - first.value <= 1000
  }

  /** How many protocol payloads are present. */
  function Payloads(i: Inbound): nat {
    (if i.vless.Some? then 1 else 0) + (if i.vmess.Some? then 1 else 0) + (if i.trojan.Some? then 1 else 0)
    + (if i.ss2022.Some? then 1 else 0) + (if i.tuic.Some? then 1 else 0) + (if i.hysteria2.Some? then 1 else 0)
  }

  predicate IsTLS(profile: Option<SecurityProfile>) {
    profile.Some? && profile.value.kind == TLS
  }

  predicate ValidVLESS(i: Inbound, profile: Option<SecurityProfile>) {
    && i.vless.Some? && Payloads(i) == 1
    && profile.Some? && (profile.value.kind == TLS || profile.value.kind == Reality)
    && i.vless.value.decryption == "none" && ValidStreamTransport(i.transport)
    && (profile.value.kind == Reality ==> i.transport.kind == TCP && i.vless.value.flow == "xtls-rprx-vision")
    && (i.vless.value.flow != "" ==> i.vless.value.flow == "xtls-rprx-vision" && i.transport.kind == TCP)
  }

  predicate ValidSS2022(i: Inbound, profile: Option<SecurityProfile>) {
    && i.ss2022.Some? && Payloads(i) == 1 && profile.None? && i.securityProfileId == 0
    && !i.ss2022.value.cipher.OtherCipher?
    && ValidSecretRef(i.ss2022.value.serverKeyRef) && i.ss2022.value.network in {"tcp", "udp", "tcp,udp"}
    && (i.transport.kind == OtherTransport("") || i.transport.kind == TCP)
  }

  predicate ValidTUIC(i: Inbound, profile: Option<SecurityProfile>) {
    && i.tuic.Some? && Payloads(i) == 1 && IsTLS(profile) && i.network == "udp" && i.transport.kind == QUIC
    && i.tuic.value.version == 5 && i.tuic.value.congestionControl in {"bbr", "cubic", "new_reno"}
    && 1 <= i.tuic.value.heartbeatSeconds <= 300
  }

  predicate ValidHysteria2(i: Inbound, profile: Option<SecurityProfile>) {
    && i.hysteria2.Some? && Payloads(i) == 1 && IsTLS(profile) && i.network == "udp" && i.transport.kind == QUIC
    && var h := i.hysteria2.value;
       && h.upMbps > 0 && h.downMbps > 0 && (h.obfs == "" || h.obfs == "salamander")
       && (h.obfs == "salamander" ==> ValidSecretRef(h.obfsPasswordRef))
       && (h.hopPorts != "" ==> ValidPortRange(h.hopPorts) && 5 <= h.hopIntervalSeconds <= 3600)
  }

  predicate ValidInbound(i: Inbound, profile: Option<SecurityProfile>) {
    0 < i.multiplierMilli <= 100000 &&
    match i.protocol
    case VLESS => ValidVLESS(i, profile)
    case VMess => i.vmess.Some? && Payloads(i) == 1 && (profile.Some? ==> profile.value.kind == TLS)
        && ValidStreamTransport(i.transport)
    case Trojan => i.trojan.Some? && Payloads(i) == 1 && IsTLS(profile) && ValidStreamTransport(i.transport)
    case SS2022 => ValidSS2022(i, profile)
    case TUIC => ValidTUIC(i, profile)
    case Hysteria2 => ValidHysteria2(i, profile)
    case _ => false
  }

  predicate ValidListen(i: Inbound, p: Parsing) {
    var listen := TrimSpace(i.listen);
    listen == "0.0.0.0" || listen == "::" || p.isIP(listen)
  }

  function PortKey(i: Inbound, p: Parsing): string {
    p.lower(i.network) + "|" + TrimSpace(i.listen) + "|" + Signed(i.port)
  }

  /** securityProfile: the first profile with the identifier. */
  function FindProfile(security: seq<SecurityProfile>, id: int): Option<SecurityProfile> {
    if security == [] then None
    else if security[0].id == id then Some(security[0])
    else FindProfile(security[1..], id)
  }

  ghost predicate ProfilesAccepted(security: seq<SecurityProfile>, admits: SecurityProfile -> bool) {
    && (forall n :: 0 <= n < |security| ==> security[n].id > 0 && admits(security[n]))
    && (forall n, m :: 0 <= n < m < |security| ==> security[n].id != security[m].id)
  }

  ghost predicate InboundsAccepted(inbounds: seq<Inbound>, security: seq<SecurityProfile>,
                                   admits: (Inbound, Option<SecurityProfile>) -> bool, portKey: Inbound -> string) {
    && (forall n :: 0 <= n < |inbounds| ==> admits(inbounds[n], FindProfile(security, inbounds[n].securityProfileId)))
    && (forall n, m :: 0 <= n < m < |inbounds| ==>
          inbounds[n].id != inbounds[m].id && portKey(inbounds[n]) != portKey(inbounds[m]))
  }

  function ProfileCheck(p: Parsing): SecurityProfile -> bool {
    s => ValidSecurityProfile(s, p)
  }

  function InboundCheck(p: Parsing): (Inbound, Option<SecurityProfile>) -> bool {
    (i: Inbound, profile: Option<SecurityProfile>) => i.id > 0 && 0 < i.port <= 65535 && ValidListen(i, p)
        && ValidInbound(i, profile)
  }

  function PortKeys(p: Parsing): Inbound -> string {
    i => PortKey(i, p)
  }

  /** What an accepted configuration is, without loops or lookup tables. */
  ghost predicate Accepted(c: Config, p: Parsing) {
    c.schemaVersion == 1 && c.version != 0 && c.agentNodeId > 0
    && ProfilesAccepted(c.security, ProfileCheck(p))
    && InboundsAccepted(c.inbounds, c.security, InboundCheck(p), PortKeys(p))
  }

  lemma {:induction false} FindProfileScans(security: seq<SecurityProfile>, id: int)
    ensures var f := FindProfile(security, id);
            && (f.Some? ==> f.value in security && f.value.id == id)
            && (f.None? ==> forall n :: 0 <= n < |security| ==> security[n].id != id)
  {
    if security != [] && security[0].id != id {
      FindProfileScans(security[1..], id);
      assert security == [security[0]] + security[1..];
    }
  }

  /** With distinct identifiers the scan and the validator's table agree. */
  ghost predicate TableOf(profiles: map<int, SecurityProfile>, security: seq<SecurityProfile>) {
    && (forall n :: 0 <= n < |security| ==> security[n].id in profiles && profiles[security[n].id] == security[n])
    && (forall id :: id in profiles ==> exists n :: 0 <= n < |security| && security[n].id == id)
  }

  lemma TableAgreesWithScan(profiles: map<int, SecurityProfile>, security: seq<SecurityProfile>, id: int)
    requires TableOf(profiles, security)
    ensures FindProfile(security, id) == if id in profiles then Some(profiles[id]) else None
  {
    FindProfileScans(security, id);
    var f := FindProfile(security, id);
    if f.Some? {
      var n :| 0 <= n < |security| && security[n] == f.value;
    }
  }

  lemma ExtendTable(profiles: map<int, SecurityProfile>, security: seq<SecurityProfile>, s: SecurityProfile,
      admits: SecurityProfile -> bool)
    requires ProfilesAccepted(security, admits) && TableOf(profiles, security)
    requires s.id > 0 && s.id !in profiles && admits(s)
    ensures ProfilesAccepted(security + [s], admits) && TableOf(profiles[s.id := s], security + [s])
  {
    var grown, table := security + [s], profiles[s.id := s];
    forall id | id in table ensures exists n :: 0 <= n < |grown| && grown[n].id == id {
      if id == s.id {
        assert grown[|security|].id == id;
      } else {
        var n :| 0 <= n < |security| && security[n].id == id;
        assert grown[n].id == id;
      }
    }
  }

  /** The profile loop, filling the lookup table. */
  method ValidateProfiles(security: seq<SecurityProfile>, admits: SecurityProfile -> bool)
      returns (ok: bool, profiles: map<int, SecurityProfile>)
    ensures ok <==> ProfilesAccepted(security, admits)
    ensures ok ==> TableOf(profiles, security)
  {
    profiles := map[];
    for n := 0 to |security|
      invariant ProfilesAccepted(security[..n], admits) && TableOf(profiles, security[..n])
    {
      var s := security[n];
      if s.id <= 0 || s.id in profiles || !admits(s) {
        return false, profiles;
      }
      ExtendTable(profiles, security[..n], s, admits);
      assert security[..n + 1] == security[..n] + [s];
      profiles := profiles[s.id := s];
    }
    assert security[..|security|] == security;
    ok := true;
  }

  /** The inbound loop, with its tables of identifiers and listening ports. */
  method ValidateInbounds(inbounds: seq<Inbound>, security: seq<SecurityProfile>, profiles: map<int, SecurityProfile>,
                          admits: (Inbound, Option<SecurityProfile>) -> bool, portKey: Inbound -> string)
                              returns (ok: bool)
    requires TableOf(profiles, security)
    ensures ok <==> InboundsAccepted(inbounds, security, admits, portKey)
  {
    var ids: set<int>, ports: map<string, int> := {}, map[];
    for n := 0 to |inbounds|
      invariant InboundsAccepted(inbounds[..n], security, admits, portKey)
      invariant forall id :: id in ids <==> exists m :: 0 <= m < n && inbounds[m].id == id
      invariant forall key :: key in ports <==> exists m :: 0 <= m < n && portKey(inbounds[m]) == key
    {
      var i := inbounds[n];
      TableAgreesWithScan(profiles, security, i.securityProfileId);
      if i.id in ids {
        return false;
      }
      ids := ids + {i.id};
      var key := portKey(i);
      if key in ports {
        return false;
      }
      ports := ports[key := i.id];
      var profile := if i.securityProfileId in profiles then Some(profiles[i.securityProfileId]) else None;
      if !admits(i, profile) {
        return false;
      }
    }
    assert inbounds[..|inbounds|] == inbounds;
    return true;
  }

  method ValidateDesiredConfig(c: Config, p: Parsing) returns (ok: bool)
    ensures ok <==> Accepted(c, p)
  {
    if c.schemaVersion != 1 || c.version == 0 || c.agentNodeId <= 0 {
      return false;
    }
    var profiles;
    ok, profiles := ValidateProfiles(c.security, ProfileCheck(p));
    if ok {
      ok := ValidateInbounds(c.inbounds, c.security, profiles, InboundCheck(p), PortKeys(p));
    }
  }

  // ----- Building nodes

  /** The secret store's reads, one character for each byte, with the library's base64 decoding. */
  datatype Secrets = Secrets(resolve: string -> Option<string>, decodeBase64: string -> Option<string>)

  /** The store refuses references outside its grammar. */
  ghost predicate StoreGrammar(s: Secrets) {
    forall ref :: s.resolve(ref).Some? ==> IsSecretRef(ref)
  }

  datatype Node = Node(id: int, protocol: Protocol, port: int, transport: Transport, flow: string, encryption: string,
                       cipher: Option<Cipher>, serverKey: string,
                       tuning: (string, string, bool), bandwidth: (int, int), hopping: (string, int),
                           obfuscation: (string, string),
                       security: Option<SecurityKind>, serverName: string, tlsVersions: (string, string),
                           alpn: seq<string>,
                       certificate: string, privateKey: string, reality: (string, int, string, string, string))

  /** A Go nil dereference or an index out of range is `Crash`. */
  datatype Built = Built(node: Node) | SecretFailure | MissingProfile | UnsupportedProtocol | Crash

  function BareNode(i: Inbound): Node {
    Node(i.id, i.protocol, i.port, i.transport, "", "", None, "", ("", "", false), (0, 0), ("", 0), ("", ""), None, "",
         ("", ""), [], "", "", ("", 0, "", "", ""))
  }

  function KeyLength(cipher: Cipher): nat {
    if cipher == Aes128 then 16 else 32
  }

  /**
   normalizeSS2022Key: raw bytes of the right length, or their base64 text. `bytes` is the length of the material in
   bytes, which text has more of than characters.
   */
  function NormalizeKey(cipher: Cipher, material: string, bytes: nat, s: Secrets): Option<string> {
    if bytes == KeyLength(cipher) then Some(material)
    else
      var decoded := s.decodeBase64(TrimSpace(material));
      if decoded.Some? && |decoded.value| == KeyLength(cipher) then decoded else None
  }

  /** The protocol switch of panelNodeForInbound. */
  function ProtocolPart(i: Inbound, s: Secrets): Built {
    var n := BareNode(i);
    match i.protocol
    case VLESS => if i.vless.None? then Crash
        else Built(n.(flow := i.vless.value.flow, encryption := i.vless.value.decryption))
    case VMess => Built(n)
    case Trojan => Built(n)
    case SS2022 =>
      if i.ss2022.None? then Crash
      else
        var raw := s.resolve(i.ss2022.value.serverKeyRef);
        if raw.None? then SecretFailure
        else
          var key := NormalizeKey(i.ss2022.value.cipher, raw.value, |raw.value|, s);
          if key.None? then SecretFailure else Built(n.(cipher := Some(i.ss2022.value.cipher), serverKey := key.value))
    case TUIC =>
      if i.tuic.None? then Crash
      else Built(n.(tuning := (i.tuic.value.congestionControl, i.tuic.value.udpRelayMode, i.tuic.value.zeroRtt)))
    case Hysteria2 =>
      if i.hysteria2.None? then Crash
      else
        var h := i.hysteria2.value;
        var base := n.(bandwidth := (h.upMbps, h.downMbps), hopping := (h.hopPorts, h.hopIntervalSeconds),
                       obfuscation := (h.obfs, ""));
        if h.obfsPasswordRef == "" then Built(base)
        else
          var password := s.resolve(h.obfsPasswordRef);
          if password.None? then SecretFailure else Built(base.(obfuscation := (h.obfs, TrimSpace(password.value))))
    case _ => UnsupportedProtocol
  }

  /** The security switch, once the profile was found. */
  function SecurityPart(n: Node, profile: SecurityProfile, s: Secrets, p: Parsing): Built {
    match profile.kind
    case TLS =>
      if profile.tls.None? || profile.tls.value.serverNames == [] then Crash
      else
        var t := profile.tls.value;
        var certificate, privateKey := s.resolve(t.certificateRef), s.resolve(t.privateKeyRef);
        if certificate.None? || privateKey.None? then SecretFailure
        else Built(n.(security := Some(TLS), serverName := t.serverNames[0],
                      tlsVersions := (t.minVersion, t.maxVersion), alpn := t.alpn,
                      certificate := certificate.value, privateKey := privateKey.value))
    case Reality =>
      if profile.reality.None? then Crash
      else
        var r := profile.reality.value;
        var parts := p.splitHostPort(r.destination).GetOr(("", ""));
        var privateKey := s.resolve(r.privateKeyRef);
        if privateKey.None? then SecretFailure
        else if r.serverNames == [] || r.shortIds == [] then Crash
        else Built(n.(security := Some(Reality), serverName := r.serverNames[0],
                      reality := (parts.0, Atoi(parts.1).GetOr(0), r.publicKey, r.shortIds[0], r.fingerprint),
                          privateKey := TrimSpace(privateKey.value)))
    case _ => Built(n.(security := Some(profile.kind)))
  }

  /** panelNodeForInbound */
  function PanelNode(c: Config, i: Inbound, s: Secrets, p: Parsing): Built {
    var part := ProtocolPart(i, s);
    if !part.Built? || i.securityProfileId == 0 then part
    else
      var profile := FindProfile(c.security, i.securityProfileId);
      if profile.None? then MissingProfile else SecurityPart(part.node, profile.value, s, p)
  }

  lemma ProtocolPartBuilds(i: Inbound, profile: Option<SecurityProfile>, s: Secrets)
    requires ValidInbound(i, profile)
    ensures ProtocolPart(i, s).Built? || ProtocolPart(i, s).SecretFailure?
    ensures profile.None? && i.securityProfileId != 0 ==> i.protocol == VMess
    ensures i.protocol == VMess ==> ProtocolPart(i, s).Built?
  {}

  lemma SecurityPartBuilds(n: Node, profile: SecurityProfile, s: Secrets, p: Parsing)
    requires ValidSecurityProfile(profile, p)
    ensures SecurityPart(n, profile, s, p).Built? || SecurityPart(n, profile, s, p).SecretFailure?
  {}

  /**
   For every inbound of an accepted configuration and any secret store, building its node never crashes and never
   meets an unknown protocol; it misses a profile exactly when a VMess inbound names one that is not there.
   */
  lemma AcceptedInboundBuilds(c: Config, i: Inbound, s: Secrets, p: Parsing)
    requires Accepted(c, p) && i in c.inbounds
    ensures var b := PanelNode(c, i, s, p);
            !b.Crash? && !b.UnsupportedProtocol? && (b.MissingProfile? <==> NamesAbsentProfile(c, i))
  {
    var n :| 0 <= n < |c.inbounds| && c.inbounds[n] == i;
    var profile := FindProfile(c.security, i.securityProfileId);
    assert InboundCheck(p)(c.inbounds[n], FindProfile(c.security, c.inbounds[n].securityProfileId));
    ProtocolPartBuilds(i, profile, s);
    FindProfileScans(c.security, i.securityProfileId);
    if profile.Some? {
      var m :| 0 <= m < |c.security| && c.security[m] == profile.value;
      assert ProfileCheck(p)(c.security[m]);
      if ProtocolPart(i, s).Built? { SecurityPartBuilds(ProtocolPart(i, s).node, profile.value, s, p); }
    }
  }

  predicate NamesAbsentProfile(c: Config, i: Inbound) {
    i.protocol == VMess && i.securityProfileId != 0
        && forall n :: 0 <= n < |c.security| ==> c.security[n].id != i.securityProfileId
  }

  // ----- Referenced secrets

  function Nonempty(ref: string): set<string> {
    if TrimSpace(ref) == "" then {} else {TrimSpace(ref)}
  }

  function ProfileRefs(s: SecurityProfile): set<string> {
    (if s.tls.Some? then Nonempty(s.tls.value.certificateRef) + Nonempty(s.tls.value.privateKeyRef) else {})
    + (if s.reality.Some? then Nonempty(s.reality.value.privateKeyRef) else {})
  }

  function InboundRefs(i: Inbound): set<string> {
    (if i.ss2022.Some? then Nonempty(i.ss2022.value.serverKeyRef) else {})
    + (if i.hysteria2.Some? then Nonempty(i.hysteria2.value.obfsPasswordRef) else {})
  }

  ghost function ConfigRefs(c: Config): set<string> {
    (set s, r | s in c.security && r in ProfileRefs(s) :: r) + (set i, r | i in c.inbounds && r in InboundRefs(i) :: r)
  }

  /** Two stores that agree on the referenced secrets. */
  ghost predicate AgreeOn(s: Secrets, t: Secrets, refs: set<string>) {
    s.decodeBase64 == t.decodeBase64 && forall ref :: ref in refs ==> s.resolve(ref) == t.resolve(ref)
  }

  lemma RefAgrees(ref: string, s: Secrets, t: Secrets, refs: set<string>)
    requires StoreGrammar(s) && StoreGrammar(t) && AgreeOn(s, t, refs)
    requires ref != "" ==> Nonempty(ref) <= refs
    ensures s.resolve(ref) == t.resolve(ref)
  {
    if IsSecretRef(ref) {
      SecretRefIsTrimmed(ref);
      assert ref in Nonempty(ref);
    }
  }

  /**
   Building a node reads no secret outside ReferencedSecretRefs: stores that agree on those references build the
   same node, or fail the same way.
   */
  lemma NodesUseOnlyReferencedSecrets(c: Config, i: Inbound, s: Secrets, t: Secrets, p: Parsing)
    requires i in c.inbounds && StoreGrammar(s) && StoreGrammar(t) && AgreeOn(s, t, ConfigRefs(c))
    ensures PanelNode(c, i, s, p) == PanelNode(c, i, t, p)
  {
    ProtocolPartAgrees(c, i, s, t);
    FindProfileScans(c.security, i.securityProfileId);
    var part, profile := ProtocolPart(i, s), FindProfile(c.security, i.securityProfileId);
    if part.Built? && profile.Some? {
      SecurityPartAgrees(c, part.node, profile.value, s, t, p);
    }
  }

  lemma ProtocolPartSame(i: Inbound, s: Secrets, t: Secrets)
    requires s.decodeBase64 == t.decodeBase64
    requires i.ss2022.Some? ==> s.resolve(i.ss2022.value.serverKeyRef) == t.resolve(i.ss2022.value.serverKeyRef)
    requires i.hysteria2.Some? ==>
             s.resolve(i.hysteria2.value.obfsPasswordRef) == t.resolve(i.hysteria2.value.obfsPasswordRef)
    ensures ProtocolPart(i, s) == ProtocolPart(i, t)
  {}

  lemma InboundRefsReferenced(c: Config, i: Inbound)
    requires i in c.inbounds
    ensures InboundRefs(i) <= ConfigRefs(c)
  {}

  lemma ProtocolPartAgrees(c: Config, i: Inbound, s: Secrets, t: Secrets)
    requires i in c.inbounds && StoreGrammar(s) && StoreGrammar(t) && AgreeOn(s, t, ConfigRefs(c))
    ensures ProtocolPart(i, s) == ProtocolPart(i, t)
  {
    var refs := ConfigRefs(c);
    InboundRefsReferenced(c, i);
    if i.ss2022.Some? {
      RefAgrees(i.ss2022.value.serverKeyRef, s, t, refs);
    }
    if i.hysteria2.Some? {
      RefAgrees(i.hysteria2.value.obfsPasswordRef, s, t, refs);
    }
    ProtocolPartSame(i, s, t);
  }

  lemma SecurityPartSame(n: Node, profile: SecurityProfile, s: Secrets, t: Secrets, p: Parsing)
    requires profile.tls.Some? ==>
             s.resolve(profile.tls.value.certificateRef) == t.resolve(profile.tls.value.certificateRef)
    requires profile.tls.Some? ==>
             s.resolve(profile.tls.value.privateKeyRef) == t.resolve(profile.tls.value.privateKeyRef)
    requires profile.reality.Some? ==>
             s.resolve(profile.reality.value.privateKeyRef) == t.resolve(profile.reality.value.privateKeyRef)
    ensures SecurityPart(n, profile, s, p) == SecurityPart(n, profile, t, p)
  {}

  lemma ProfileRefsReferenced(c: Config, profile: SecurityProfile)
    requires profile in c.security
    ensures ProfileRefs(profile) <= ConfigRefs(c)
  {}

  lemma SecurityPartAgrees(c: Config, n: Node, profile: SecurityProfile, s: Secrets, t: Secrets, p: Parsing)
    requires profile in c.security && StoreGrammar(s) && StoreGrammar(t) && AgreeOn(s, t, ConfigRefs(c))
    ensures SecurityPart(n, profile, s, p) == SecurityPart(n, profile, t, p)
  {
    var refs := ConfigRefs(c);
    ProfileRefsReferenced(c, profile);
    if profile.tls.Some? {
      RefAgrees(profile.tls.value.certificateRef, s, t, refs);
      RefAgrees(profile.tls.value.privateKeyRef, s, t, refs);
    }
    if profile.reality.Some? {
      RefAgrees(profile.reality.value.privateKeyRef, s, t, refs);
    }
    SecurityPartSame(n, profile, s, t, p);
  }

  /** ReferencedSecretRefs: collect once each, then sort.Strings. */
  method ReferencedSecretRefs(c: Config) returns (refs: seq<string>)
    ensures Increasing(refs, Codes)
    ensures forall r :: r in refs <==> r in ConfigRefs(c)
  {
    var seen: set<string> := {};
    for n := 0 to |c.security|
      invariant seen == set s, r | s in c.security[..n] && r in ProfileRefs(s) :: r
    {
      assert c.security[..n + 1] == c.security[..n] + [c.security[n]];
      seen := seen + ProfileRefs(c.security[n]);
    }
    assert c.security[..|c.security|] == c.security;
    ghost var fromProfiles := seen;
    for n := 0 to |c.inbounds|
      invariant seen == fromProfiles + set i, r | i in c.inbounds[..n] && r in InboundRefs(i) :: r
    {
      assert c.inbounds[..n + 1] == c.inbounds[..n] + [c.inbounds[n]];
      seen := seen + InboundRefs(c.inbounds[n]);
    }
    assert c.inbounds[..|c.inbounds|] == c.inbounds;
    CodesSeparate(seen);
    refs := SelectOrdered(seen, Codes);
    OrderedByCorrect(seen, Codes);
  }
}
