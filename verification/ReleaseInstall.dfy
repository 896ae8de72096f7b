/**
 Installing a release: version comparison, the download that is retried into one temporary file, and the swap of
 the running binary with its rollback.
 */
module ReleaseInstall {
  import opened Text

  // ----- Versions

  type Version = (int, int, int)

  function TrimV(s: string): string {
    if s != "" && s[0] == 'v' then s[1..] else s
  }

  /** The text up to the first '-' or '+'. */
  function CutSuffix(s: string): string {
    if s == "" || s[0] == '-' || s[0] == '+' then "" else [s[0]] + CutSuffix(s[1..])
  }

  function VersionParts(value: string): seq<string> {
    Split(CutSuffix(TrimV(TrimSpace(value))), '.')
  }

  predicate IsComponent(part: string) {
    Atoi(part).Some? && Atoi(part).value >= 0
  }

  ghost function Parsed(value: string): Option<Version> {
    var parts := VersionParts(value);
    if |parts| == 3 && (forall n :: 0 <= n < 3 ==> IsComponent(parts[n]))
    then Some((Atoi(parts[0]).value, Atoi(parts[1]).value, Atoi(parts[2]).value)) else None
  }

  method ParseVersion(value: string) returns (r: Option<Version>)
    ensures r == Parsed(value)
  {
    var parts := VersionParts(value);
    if |parts| != 3 {
      return None;
    }
    var parsed := new int[3];
    for n := 0 to 3
      invariant forall i :: 0 <= i < n ==> IsComponent(parts[i]) && parsed[i] == Atoi(parts[i]).value
    {
      var number := Atoi(parts[n]);
      if number.None? || number.value < 0 {
        return None;
      }
      parsed[n] := number.value;
    }
    return Some((parsed[0], parsed[1], parsed[2]));
  }

  predicate Above(a: Version, b: Version) {
    a.0 > b.0 || (a.0 == b.0 && (a.1 > b.1 || (a.1 == b.1 && a.2 > b.2)))
  }

  ghost predicate Newer(candidate: string, current: string) {
    Parsed(candidate).Some? && Parsed(current).Some? && Above(Parsed(candidate).value, Parsed(current).value)
  }

  method VersionNewer(candidate: string, current: string) returns (newer: bool)
    ensures newer <==> Newer(candidate, current)
  {
    var l := ParseVersion(candidate);
    var r := ParseVersion(current);
    if l.None? || r.None? {
      return false;
    }
    newer := HigherComponent([l.value.0, l.value.1, l.value.2], [r.value.0, r.value.1, r.value.2]);
  }

  /** The first differing component decides. */
  method HigherComponent(left: seq<int>, right: seq<int>) returns (higher: bool)
    requires |left| == |right| == 3
    ensures higher <==> Above((left[0], left[1], left[2]), (right[0], right[1], right[2]))
  {
    for n := 0 to 3
      invariant forall i :: 0 <= i < n ==> left[i] == right[i]
    {
      if left[n] != right[n] {
        assert n > 0 ==> left[0] == right[0];
        assert n > 1 ==> left[1] == right[1];
        return left[n] > right[n];
      }
    }
    return false;
  }

  /** A strict order on parseable versions, total up to equal numbers; unparseable text is never newer nor older. */
  lemma NewerIsStrictOrder(a: string, b: string, c: string)
    ensures !Newer(a, a)
    ensures Newer(a, b) && Newer(b, c) ==> Newer(a, c)
    ensures Newer(a, b) ==> !Newer(b, a)
    ensures Parsed(a).Some? && Parsed(b).Some? ==> Newer(a, b) || Newer(b, a) || Parsed(a) == Parsed(b)
    ensures Parsed(a).None? || Parsed(b).None? ==> !Newer(a, b)
  {}

  function VersionText(x: nat, y: nat, z: nat): string {
    "v" + (Decimal(x) + ['.'] + (Decimal(y) + ['.'] + Decimal(z)))
  }

  lemma {:induction false} CutSuffixKeeps(s: string)
    requires forall i :: 0 <= i < |s| ==> s[i] != '-' && s[i] != '+'
    ensures CutSuffix(s) == s
  {
    if s != "" {
      CutSuffixKeeps(s[1..]);
    }
  }

  lemma BodyParts(dx: string, dy: string, dz: string)
    requires AllDigits(dx) && AllDigits(dy) && AllDigits(dz)
    ensures Split(dx + ['.'] + (dy + ['.'] + dz), '.') == [dx, dy, dz]
  {
    SplitNone(dz, '.');
    SplitFirst(dy, '.', dz);
    SplitFirst(dx, '.', dy + ['.'] + dz);
  }

  predicate VersionCharacters(body: string) {
    body != "" && forall i :: 0 <= i < |body| ==> IsDigit(body[i]) || body[i] == '.'
  }

  lemma StripVersion(body: string)
    requires VersionCharacters(body)
    ensures CutSuffix(TrimV(TrimSpace("v" + body))) == body
  {
    var text := "v" + body;
    assert text[0] == 'v' && text[|text| - 1] == body[|body| - 1];
    TrimSpaceFixes(text);
    assert TrimV(text) == body;
    CutSuffixKeeps(body);
  }

  /** Release names parse back to their numbers. */
  lemma VersionRoundTrip(x: nat, y: nat, z: nat)
    requires x <= MAX_INT64 && y <= MAX_INT64 && z <= MAX_INT64
    ensures Parsed(VersionText(x, y, z)) == Some((x, y, z))
  {
    AtoiDecimal(x);
    AtoiDecimal(y);
    AtoiDecimal(z);
    PartsParse(Decimal(x), Decimal(y), Decimal(z), x, y, z);
  }

  lemma PartsParse(dx: string, dy: string, dz: string, x: nat, y: nat, z: nat)
    requires AllDigits(dx) && AllDigits(dy) && AllDigits(dz)
    requires Atoi(dx) == Some(x) && Atoi(dy) == Some(y) && Atoi(dz) == Some(z)
    ensures Parsed("v" + (dx + ['.'] + (dy + ['.'] + dz))) == Some((x, y, z))
  {
    var body := dx + ['.'] + (dy + ['.'] + dz);
    BodyCharacters(dx, dy, dz);
    BodyParts(dx, dy, dz);
    PartsOf(body, [dx, dy, dz]);
    ParsedFrom("v" + body, [dx, dy, dz], x, y, z);
  }

  lemma BodyCharacters(dx: string, dy: string, dz: string)
    requires AllDigits(dx) && AllDigits(dy) && AllDigits(dz)
    ensures VersionCharacters(dx + ['.'] + (dy + ['.'] + dz))
  {}

  lemma PartsOf(body: string, parts: seq<string>)
    requires VersionCharacters(body) && Split(body, '.') == parts
    ensures VersionParts("v" + body) == parts
  {
    StripVersion(body);
  }

  lemma ParsedFrom(value: string, parts: seq<string>, x: nat, y: nat, z: nat)
    requires VersionParts(value) == parts && |parts| == 3
    requires Atoi(parts[0]) == Some(x) && Atoi(parts[1]) == Some(y) && Atoi(parts[2]) == Some(z)
    ensures Parsed(value) == Some((x, y, z))
  {}

  /** A suffix from '-' or '+' on does not matter. */
  lemma SuffixIgnored(x: nat, y: nat, z: nat, suffix: string)
    requires x <= MAX_INT64 && y <= MAX_INT64 && z <= MAX_INT64
    requires suffix != "" && suffix[0] in {'-', '+'} && !IsSpace(suffix[|suffix| - 1])
    ensures Parsed(VersionText(x, y, z) + suffix) == Some((x, y, z))
  {
    var dx, dy, dz := Decimal(x), Decimal(y), Decimal(z);
    var body := dx + ['.'] + (dy + ['.'] + dz);
    AtoiDecimal(x);
    AtoiDecimal(y);
    AtoiDecimal(z);
    BodyCharacters(dx, dy, dz);
    BodyParts(dx, dy, dz);
    StripSuffix(body, suffix);
    assert VersionText(x, y, z) + suffix == "v" + (body + suffix);
    ParsedFrom("v" + (body + suffix), [dx, dy, dz], x, y, z);
  }

  lemma StripSuffix(body: string, suffix: string)
    requires VersionCharacters(body) && suffix != "" && suffix[0] in {'-', '+'} && !IsSpace(suffix[|suffix| - 1])
    ensures VersionParts("v" + (body + suffix)) == Split(body, '.')
  {
    var text := "v" + (body + suffix);
    assert text[0] == 'v' && text[|text| - 1] == suffix[|suffix| - 1];
    TrimSpaceFixes(text);
    assert TrimV(text) == body + suffix;
    CutAtSuffix(body, suffix);
  }

  lemma {:induction false} CutAtSuffix(body: string, suffix: string)
    requires suffix != "" && suffix[0] in {'-', '+'} && forall i :: 0 <= i < |body| ==> body[i] != '-' && body[i] != '+'
    ensures CutSuffix(body + suffix) == body
  {
    if body == "" {
      assert body + suffix == suffix;
    } else {
      CutAtSuffix(body[1..], suffix);
      assert (body + suffix)[1..] == body[1..] + suffix && body == [body[0]] + body[1..];
    }
  }

  /** A version needs three parts that are numbers without a minus sign. */
  lemma ParsesExactly(value: string)
    ensures Parsed(value).Some? <==>
              && |VersionParts(value)| == 3
              && forall part :: part in VersionParts(value) ==> Atoi(part).Some? && Atoi(part).value >= 0
    ensures Parsed(value).Some? ==>
              var parts, v := VersionParts(value), Parsed(value).value;
              Atoi(parts[0]) == Some(v.0) && Atoi(parts[1]) == Some(v.1) && Atoi(parts[2]) == Some(v.2)
  {
    var parts := VersionParts(value);
    if |parts| == 3 {
      assert parts[0] in parts && parts[1] in parts && parts[2] in parts;
    }
  }

  /** Names of releases start with v, and a text without it is none. */
  lemma ReleaseNames(x: nat, y: nat, z: nat)
    ensures HasV(VersionText(x, y, z)) && !HasV(VersionText(x, y, z)[1..])
  {
    var text := VersionText(x, y, z);
    var body := Decimal(x) + ['.'] + (Decimal(y) + ['.'] + Decimal(z));
    assert text == "v" + body && text[1..] == body;
    assert IsDigit(body[0]) && IsDigit(body[|body| - 1]) && IsDigit(text[|text| - 1]);
    TrimSpaceFixes(text);
    TrimSpaceFixes(body);
  }

  predicate HasV(target: string) {
    var t := TrimSpace(target);
    t != "" && t[0] == 'v'
  }

  // ----- Downloading

  type Bytes = seq<int>

  function ZeroBytes(n: nat): Bytes {
    seq(n, _ => 0)
  }

  /** A write at an offset: what lies before stays, a gap is filled with zeros, what lies beyond stays. */
  function Overwritten(content: Bytes, offset: nat, bytes: Bytes): (r: Bytes)
    ensures content == [] && offset == 0 ==> r == bytes
  {
    var padded := if offset > |content| then content + ZeroBytes(offset - |content|) else content;
    padded[..offset] + bytes + (if offset + |bytes| < |padded| then padded[offset + |bytes|..] else [])
  }

  /** An open file. */
  class File {
    var content: Bytes
    var offset: nat

    constructor ()
      ensures content == [] && offset == 0
    {
      content, offset := [], 0;
    }

    method Truncate()
      modifies this`content
      ensures content == []
    {
      content := [];
    }

    method SeekStart()
      modifies this`offset
      ensures offset == 0
    {
      offset := 0;
    }

    method Write(bytes: Bytes)
      modifies this
      ensures content == Overwritten(old(content), old(offset), bytes) && offset == old(offset) + |bytes|
    {
      content := Overwritten(content, offset, bytes);
      offset := offset + |bytes|;
    }
  }

  /**
   What one request meets: a status other than 200, a whole body, or a body (perhaps none of it) cut off by an error.
   */
  datatype Fetch = Refused(status: int) | Whole(body: Bytes, declared: int) | CutOff(partial: Bytes)

  datatype Try = Try(truncateFails: bool, seekFails: bool, fetch: Fetch, cancelled: bool, waitFails: bool)

  predicate Retryable(t: Try) {
    !t.cancelled && match t.fetch
                    case Refused(status) => status == 408 || status == 429 || status >= 500
                    case _ => true
  }

  /**
   Which failures are worth another attempt: timeouts, too many requests and server errors among the answers, and every
   failure without an answer, until the update is cancelled.
   */
  lemma RetryableExactly(t: Try)
    ensures Retryable(t) <==>
              !t.cancelled && (t.fetch.Refused? ==> t.fetch.status in {408, 429} || t.fetch.status >= 500)
  {}

  /** The attempt delivers a body within the limit. */
  predicate Delivers(t: Try, limit: int) {
    t.fetch.Whole? && t.fetch.declared <= limit && |t.fetch.body| <= limit
  }

  /** The attempt ends in an error after which another one is made. */
  predicate TriesAgain(t: Try, limit: int) {
    !t.truncateFails && !t.seekFails && !Delivers(t, limit) && Retryable(t) && !t.waitFails
  }

  /** Attempt `n` is the one that delivers. */
  predicate DeliveredBy(tries: int -> Try, limit: int, n: int) {
    1 <= n <= ATTEMPTS && Delivers(tries(n), limit) && !tries(n).truncateFails && !tries(n).seekFails
    && forall m :: 1 <= m < n ==> TriesAgain(tries(m), limit)
  }

  lemma OneDelivers(tries: int -> Try, limit: int, n: int, m: int)
    requires DeliveredBy(tries, limit, n) && DeliveredBy(tries, limit, m)
    ensures n == m
  {
    assert n < m ==> TriesAgain(tries(n), limit);
    assert m < n ==> TriesAgain(tries(m), limit);
  }

  function AtMost(body: Bytes, n: nat): Bytes {
    if |body| <= n then body else body[..n]
  }

  const ATTEMPTS := 3

  class Downloader {
    const digest: Bytes -> string

    constructor (digest: Bytes -> string)
      ensures this.digest == digest
    {
      this.digest := digest;
    }

    /** downloadToFileOnce: bytes go to the file and the hasher together, one past the limit at most. */
    method DownloadOnce(file: File, t: Try, limit: int) returns (r: Option<string>)
      requires limit > 0
      modifies file
      ensures r.Some? <==> Delivers(t, limit)
      ensures r.Some? ==> r.value == digest(t.fetch.body)
      ensures r.Some? && old(file.content) == [] && old(file.offset) == 0 ==> file.content == t.fetch.body
    {
      match t.fetch
      case Refused(_) =>
        return None;
      case CutOff(partial) =>
        file.Write(AtMost(partial, limit + 1));
        return None;
      case Whole(body, declared) =>
        if declared > limit {
          return None;
        }
        var written := AtMost(body, limit + 1);
        file.Write(written);
        if |written| > limit {
          return None;
        }
        return Some(digest(written));
    }

    /** downloadToFile: `tries(n)` is what attempt n meets, from 1. */
    method DownloadToFile(file: File, tries: int -> Try, limit: int) returns (r: Option<string>, used: nat)
      modifies file
      ensures r.Some? <==> limit > 0 && exists n :: DeliveredBy(tries, limit, n)
      ensures r.Some? ==> DeliveredBy(tries, limit, used) && file.content == tries(used).fetch.body
      ensures r.Some? ==> r.value == digest(file.content)
    {
      if limit <= 0 {
        return None, 0;
      }
      for attempt := 1 to ATTEMPTS + 1
        invariant forall n :: 1 <= n < attempt ==> TriesAgain(tries(n), limit)
      {
        var t := tries(attempt);
        if t.truncateFails {
          return None, attempt;
        }
        file.Truncate();
        if t.seekFails {
          return None, attempt;
        }
        file.SeekStart();
        r := DownloadOnce(file, t, limit);
        if r.Some? {
          assert DeliveredBy(tries, limit, attempt);
          return r, attempt;
        }
        if !Retryable(t) || attempt == ATTEMPTS || t.waitFails {
          return None, attempt;
        }
      }
      return None, ATTEMPTS;
    }
  }

  // ----- Swapping the binary

  /** Everything that can go wrong in installRelease around the download, in order. */
  datatype Environment = Environment(supported: bool, clockSynced: bool, expected: Option<string>, temporaryMade: bool,
                                     tries: int -> Try,
                                     synced: bool, reportedVersion: Option<string>, setAside: bool, movedIn: bool,
                                     restarted: bool, healthy: bool, removed: bool, rollbackMoves: bool)

  /** The recorded version over a run of updates: each one either leaves it or raises it. */
  ghost predicate VersionHistory(versions: seq<string>) {
    forall n :: 0 <= n < |versions| - 1 ==> StaysOrRises(versions, n)
  }

  ghost predicate StaysOrRises(versions: seq<string>, n: int)
    requires 0 <= n < |versions| - 1
  {
    versions[n + 1] == versions[n] || Newer(versions[n + 1], versions[n])
  }

  datatype UpdateRequest = UpdateRequest(target: string, env: Environment, recorded: bool)

  /** Every rollback move works and every outcome is recorded. */
  predicate AllSettled(requests: seq<UpdateRequest>) {
    forall n :: 0 <= n < |requests| ==> requests[n].env.rollbackMoves && requests[n].recorded
  }

  const BINARY_LIMIT := 256 * 1024 * 1024

  class Installer {
    const downloader: Downloader
    const foldCase: string -> string
    var current: Option<Bytes>
    var previous: Option<Bytes>
    var version: string

    constructor (downloader: Downloader, foldCase: string -> string, current: Bytes, version: string)
      ensures this.downloader == downloader && this.foldCase == foldCase && this.current == Some(current)
              && this.version == version
    {
      this.downloader, this.foldCase, this.current, previous, this.version := downloader, foldCase, Some(current), None,
          version;
    }

    /** The listed checksum is the digest of the bytes, up to letter case. */
    predicate Listed(env: Environment, bytes: Bytes) {
      env.expected.Some? && foldCase(env.expected.value) == foldCase(downloader.digest(bytes))
    }

    /** Attempt `n` delivers the listed bytes and they reach the disk. */
    predicate FetchedBy(env: Environment, n: int) {
      env.supported && env.clockSynced && env.temporaryMade && env.synced
      && DeliveredBy(env.tries, BINARY_LIMIT, n) && Listed(env, env.tries(n).fetch.body)
    }

    /** A rename fails when its source is missing or the file system says so. */
    method MoveBack(moves: bool)
      modifies this`current, this`previous
      ensures current == if moves && old(previous).Some? then old(previous) else old(current)
    {
      if moves && previous.Some? {
        current, previous := previous, None;
      }
    }

    method FetchRelease(env: Environment) returns (binary: Option<Bytes>)
      ensures binary.Some? <==> exists n :: FetchedBy(env, n)
      ensures binary.Some? ==> exists n :: FetchedBy(env, n) && binary.value == env.tries(n).fetch.body
    {
      if !env.supported || !env.clockSynced || env.expected.None? || !env.temporaryMade {
        return None;
      }
      var file := new File();
      var digest, used := downloader.DownloadToFile(file, env.tries, BINARY_LIMIT);
      if digest.None? || foldCase(env.expected.value) != foldCase(digest.value) || !env.synced {
        if digest.Some? {
          forall n | FetchedBy(env, n) ensures false {
            OneDelivers(env.tries, BINARY_LIMIT, n, used);
          }
        }
        return None;
      }
      assert FetchedBy(env, used);
      return Some(file.content);
    }

    /**
     installRelease. On success the running binary is a delivered body whose digest is the listed one and the old
     binary is set aside; on an error the old binary is in place, unless moving it back failed as well.
     */
    method InstallRelease(target: string, env: Environment) returns (ok: bool)
      modifies this`current, this`previous
      ensures ok <==> Installs(target, old(version), env, old(current))
      ensures ok ==> current.Some? && Listed(env, current.value) && previous == old(current)
      ensures ok ==> exists n :: FetchedBy(env, n) && current == Some(env.tries(n).fetch.body)
      ensures !ok && env.rollbackMoves ==> current == old(current)
      ensures !ok && current != old(current) ==> current.None? || Listed(env, current.value)
    {
      var newer := VersionNewer(target, version);
      if !newer || !HasV(target) {
        return false;
      }
      var binary := FetchRelease(env);
      if binary.None? || env.reportedVersion != Some(target) {
        return false;
      }
      previous := None;
      if current.None? || !env.setAside {
        return false;
      }
      current, previous := None, current;
      if !env.movedIn {
        MoveBack(env.rollbackMoves);
        return false;
      }
      current := binary;
      if !env.restarted || !env.healthy {
        if env.removed {
          current := None;
        }
        MoveBack(env.rollbackMoves);
        return false;
      }
      return true;
    }

    /** No step of the installation fails. */
    ghost predicate Installs(target: string, running: string, env: Environment, binary: Option<Bytes>) {
      Newer(target, running) && HasV(target) && (exists n :: FetchedBy(env, n)) && env.reportedVersion == Some(target)
      && binary.Some? && env.setAside && env.movedIn && env.restarted && env.healthy
    }

    /**
     When an installation succeeds, from the target's name to the health check: after failures that may pass,
         one of three
     attempts brings a whole body within the limit, it is the listed one, and no step around it fails.
     */
    lemma InstallsExactly(target: string, running: string, env: Environment, binary: Option<Bytes>)
      ensures Installs(target, running, env, binary) <==>
                && Newer(target, running) && TrimSpace(target) != "" && TrimSpace(target)[0] == 'v'
                && env.supported && env.clockSynced && env.expected.Some? && env.temporaryMade && env.synced
                && env.reportedVersion == Some(target) && binary.Some?
                && env.setAside && env.movedIn && env.restarted && env.healthy
                && exists n :: 1 <= n <= 3 && Brings(env, env.expected.value, n)
    {
      forall n ensures FetchedBy(env, n) <==>
                         && env.supported && env.clockSynced && env.expected.Some? && env.temporaryMade && env.synced
                         && 1 <= n <= 3 && Brings(env, env.expected.value, n) {
        FetchedExactly(env, n);
      }
    }

    lemma FetchedExactly(env: Environment, n: int)
      ensures FetchedBy(env, n) <==>
                && env.supported && env.clockSynced && env.expected.Some? && env.temporaryMade && env.synced
                && 1 <= n <= 3 && Brings(env, env.expected.value, n)
    {
      forall m ensures MayPass(env.tries(m)) <==> TriesAgain(env.tries(m), BINARY_LIMIT) {
        RetryableExactly(env.tries(m));
      }
    }

    /** Attempt `n` brings the whole listed body, within the limit, after failures that may pass. */
    ghost predicate Brings(env: Environment, expected: string, n: int) {
      var t := env.tries(n);
      && !t.truncateFails && !t.seekFails && t.fetch.Whole?
      && t.fetch.declared <= 268_435_456 && |t.fetch.body| <= 268_435_456
      && foldCase(expected) == foldCase(downloader.digest(t.fetch.body))
      && forall m :: 1 <= m < n ==> MayPass(env.tries(m))
    }

    /** The attempt fails, but not for good. */
    predicate MayPass(t: Try) {
      && !t.truncateFails && !t.seekFails && !t.waitFails && !t.cancelled
      && match t.fetch
         case Refused(status) => status in {408, 429} || status >= 500
         case CutOff(_) => true
         case Whole(body, declared) => declared > 268_435_456 || |body| > 268_435_456
    }

    /**
     The update branch of processRequest: the recorded version moves only after install, marker and result all
     succeed.
     */
    method Update(target: string, env: Environment, recorded: bool) returns (ok: bool)
      modifies this
      ensures ok <==> Installs(target, old(version), env, old(current))
      ensures version == if ok && recorded then target else old(version)
      ensures ok && recorded ==> Newer(version, old(version)) && version != old(version)
      ensures !ok && env.rollbackMoves ==> current == old(current)
    {
      ok := InstallRelease(target, env);
      if ok && recorded {
        NewerIsStrictOrder(version, version, version);
        version := target;
      }
    }

    /**
     The update requests of a run, in order, restarts into the new binary included: `versions` is the recorded version
     before, between and after them. When all is settled, a run that ends on its first version ends on its first binary.
     */
    method ProcessUpdates(requests: seq<UpdateRequest>) returns (versions: seq<string>)
      modifies this
      ensures |versions| == |requests| + 1 && versions[0] == old(version) && versions[|requests|] == version
      ensures VersionHistory(versions)
      ensures AllSettled(requests) && version == old(version) ==> current == old(current)
    {
      versions := [version];
      for n := 0 to |requests|
        invariant |versions| == n + 1 && versions[0] == old(version) && versions[n] == version
                && VersionHistory(versions)
        invariant AllSettled(requests) && version == old(version) ==> current == old(current)
      {
        var ok := Update(requests[n].target, requests[n].env, requests[n].recorded);
        HistoryGrows(versions, version);
        versions := versions + [version];
      }
    }
  }

  lemma {:induction false} VersionsOnlyRise(versions: seq<string>, i: nat, j: nat)
    requires VersionHistory(versions) && i <= j < |versions|
    ensures versions[j] == versions[i] || Newer(versions[j], versions[i])
  {
    if i < j {
      VersionsOnlyRise(versions, i, j - 1);
      assert StaysOrRises(versions, j - 1);
      NewerIsStrictOrder(versions[j], versions[j - 1], versions[i]);
    }
  }

  /** No run returns to a version it has moved past. */
  lemma VersionsNeverReturn(versions: seq<string>, i: nat, n: nat, j: nat)
    requires VersionHistory(versions) && i <= n <= j < |versions| && versions[n] != versions[i]
    ensures Newer(versions[j], versions[i]) && versions[j] != versions[i]
  {
    VersionsOnlyRise(versions, i, n);
    VersionsOnlyRise(versions, n, j);
    NewerIsStrictOrder(versions[j], versions[n], versions[i]);
    NewerIsStrictOrder(versions[i], versions[j], versions[i]);
  }

  lemma HistoryGrows(versions: seq<string>, version: string)
    requires versions != [] && VersionHistory(versions)
    requires version == versions[|versions| - 1] || Newer(version, versions[|versions| - 1])
    ensures VersionHistory(versions + [version])
    ensures versions[|versions| - 1] != versions[0] ==> version != versions[0]
  {
    var grown := versions + [version];
    forall n | 0 <= n < |grown| - 1 ensures StaysOrRises(grown, n) {
      assert n < |versions| - 1 ==> StaysOrRises(versions, n);
    }
    if versions[|versions| - 1] != versions[0] {
      VersionsNeverReturn(grown, 0, |versions| - 1, |versions|);
    }
  }
}
