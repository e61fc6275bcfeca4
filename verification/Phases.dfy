/**
 The questions asked after the version scan, and the run as a whole (Probe in
 pkg/tls/probe/probe.go, with pkg/tls/probe/checks.go and pkg/tls/probe/session.go). The
 question about all of them is whether a connection the budget refused can go unreported.
 */
module Phases {
  import opened Bytes
  import opened ServerHellos
  import opened Flights
  import opened ClientHellos
  import opened Suites
  import opened Probing
  import opened Enumerations
  import opened Orderings
  import opened Concurrency
  import opened EarlyDatas

  datatype Compression = Compression(applicable: bool, selected: Option<Byte>)
  datatype Groups = Groups(tested: bool, selected: map<Word, Word>, weakAccepted: seq<Word>)
  datatype Signature = Signature(chosen: Option<Word>, sha1Accepted: Option<bool>, sha224Accepted: Option<bool>)

  const COMPRESSION_SILENT := "the server did not answer the compression probe"
  const GROUPS_SILENT := "the server did not answer the weak group probe"
  const HASH_ONLY_TLS13 :=
    "the server accepts only TLS 1.3, where the signature is made after the hello and under encryption"
  const HASH_NOTHING_SIGNED := "the server negotiates no forward-secret suite, so no key exchange is signed"
  const HASH_SILENT := "the server did not answer the signature algorithm probe"
  const HASH_UNREADABLE := "the server signed no key exchange this could read"
  const SESSION_EXHAUSTED := "the connection budget was exhausted"

  const WEAK_GROUPS: seq<Word> := [21, GROUP_FFDHE2048, GROUP_FFDHE3072, GROUP_FFDHE4096]
  const SHA1_ALGORITHMS: seq<Word> := [0x0201, 0x0203, 0x0202]
  const SHA224_ALGORITHMS: seq<Word> := [0x0301, 0x0303, 0x0302]
  const BAD_HASH_ALGORITHMS: set<Word> := {0x0201, 0x0203, 0x0202, 0x0101}
  const PHASE_OUT_HASH_ALGORITHMS: set<Word> := {0x0301, 0x0303, 0x0302}

  // --- Compression ------------------------------------------------------------------------

  // DEFLATE first, then the null method.
  function CompressionHello(serverName: seq<Byte>, registry: Registry, version: Word): ClientHello {
    BaseHello(serverName, version, registry.ForVersion(version)).(compressionMethods := [1, 0])
  }

  function CompressionProbe(ctx: Context, w: World, accepted: seq<Version>): (Compression, World) {
    var version := NewestBelow(accepted, VERSION_TLS13);
    if version.None? then (Compression(false, None), w) else
    var (outcome, w1) := Ask(ctx, w, CompressionHello(ctx.settings.serverName, ctx.registry, version.value.version), 0);
    if !outcome.Got? || outcome.flight.serverHello.None? then
      (Compression(true, None), w1.Noting("compression", COMPRESSION_SILENT))
    else
      (Compression(true, Some(outcome.flight.serverHello.value.compressionMethod)), w1)
  }

  method ProbeCompression(prober: Prober, accepted: seq<Version>) returns (compression: Compression)
    requires prober.Valid()
    modifies prober
    ensures (compression, prober.State()) == CompressionProbe(prober.ctx, old(prober.State()), accepted)
  {
    var version := BelowTls13(accepted);
    if version.None? {
      return Compression(false, None);
    }
    compression := Compression(true, None);
    var outcome := prober.HandshakeWithRetry(
      CompressionHello(prober.settings.serverName, prober.registry, version.value.version));
    if !outcome.Got? || outcome.flight.serverHello.None? {
      prober.NoteIncomplete("compression", COMPRESSION_SILENT);
      return;
    }
    compression := compression.(selected := Some(outcome.flight.serverHello.value.compressionMethod));
  }

  // --- Groups -------------------------------------------------------------------------------

  function SelectedGroups(accepted: seq<Version>): map<Word, Word> {
    if accepted == [] then map[] else
    var last := accepted[|accepted| - 1];
    var before := SelectedGroups(accepted[..|accepted| - 1]);
    if last.selectedGroup.None? then before else before[last.version := last.selectedGroup.value]
  }

  // Only weak groups, and at TLS 1.3 no key share.
  function GroupsHello(serverName: seq<Byte>, registry: Registry, version: Word): ClientHello {
    var hello := BaseHello(serverName, version, registry.ForVersion(version)).(supportedGroups := WEAK_GROUPS);
    if version >= VERSION_TLS13 then hello.(keyShareGroup := 0) else hello
  }

  // A version is below this whatever it is.
  const NO_LIMIT: nat := 0x1_0000

  // The group a server stooped to: the one its retry request names, or the curve of its
  // key exchange.
  function StoopedTo(flight: Flight): seq<Word> {
    if Declined(flight) then []
    else if flight.serverHello.value.keyShareGroup.Some? then [flight.serverHello.value.keyShareGroup.value]
    else if flight.serverKeyExchange.Some? && flight.serverKeyExchange.value.namedCurve.Some? then
      [flight.serverKeyExchange.value.namedCurve.value]
    else []
  }

  function GroupsProbe(ctx: Context, w: World, accepted: seq<Version>): (Groups, World) {
    var selected := SelectedGroups(accepted);
    var version := NewestBelow(accepted, NO_LIMIT);
    if version.None? then (Groups(true, selected, []), w) else
    var (outcome, w1) := Ask(ctx, w, GroupsHello(ctx.settings.serverName, ctx.registry, version.value.version), 0);
    if !outcome.Got? then (Groups(true, selected, []), w1.Noting("key_exchange_parameters", GROUPS_SILENT))
    else (Groups(true, selected, StoopedTo(outcome.flight)), w1)
  }

  method BestVersion(accepted: seq<Version>) returns (best: Option<Version>)
    ensures best == NewestBelow(accepted, NO_LIMIT)
  {
    best := None;
    for i := 0 to |accepted|
      invariant best == NewestBelow(accepted[..i], NO_LIMIT)
    {
      assert accepted[..i + 1][..i] == accepted[..i];
      if best.None? || accepted[i].version > best.value.version {
        best := Some(accepted[i]);
      }
    }
    assert accepted[..|accepted|] == accepted;
  }

  method ProbeGroups(prober: Prober, accepted: seq<Version>) returns (groups: Groups)
    requires prober.Valid()
    modifies prober
    ensures (groups, prober.State()) == GroupsProbe(prober.ctx, old(prober.State()), accepted)
  {
    groups := Groups(true, map[], []);
    for i := 0 to |accepted|
      invariant groups == Groups(true, SelectedGroups(accepted[..i]), [])
      invariant prober.State() == old(prober.State())
    {
      assert accepted[..i + 1][..i] == accepted[..i];
      if accepted[i].selectedGroup.Some? {
        groups := groups.(selected := groups.selected[accepted[i].version := accepted[i].selectedGroup.value]);
      }
    }
    assert accepted[..|accepted|] == accepted;
    var version := BestVersion(accepted);
    if version.None? {
      return;
    }
    var outcome := prober.HandshakeWithRetry(
      GroupsHello(prober.settings.serverName, prober.registry, version.value.version));
    if !outcome.Got? {
      prober.NoteIncomplete("key_exchange_parameters", GROUPS_SILENT);
      return;
    }
    groups := groups.(weakAccepted := StoopedTo(outcome.flight));
  }

  // --- Signatures -----------------------------------------------------------------------------

  function Signing(registry: Registry, suites: seq<Word>): seq<Word> {
    if suites == [] then [] else
    var last := suites[|suites| - 1];
    Signing(registry, suites[..|suites| - 1]) + (if registry.ForwardSecrecy(last) then [last] else [])
  }

  method ForwardSecretSuites(registry: Registry, suites: seq<Word>) returns (signing: seq<Word>)
    ensures signing == Signing(registry, suites)
  {
    signing := [];
    for i := 0 to |suites|
      invariant signing == Signing(registry, suites[..i])
    {
      assert suites[..i + 1][..i] == suites[..i];
      if registry.ForwardSecrecy(suites[i]) {
        signing := signing + [suites[i]];
      }
    }
    assert suites[..|suites|] == suites;
  }

  function HashHello(serverName: seq<Byte>, version: Word, suites: seq<Word>, algorithms: seq<Word>): ClientHello {
    BaseHello(serverName, version, suites).(signatureAlgorithms := algorithms)
  }

  // Whether a server signs with a retired hash when it is offered nothing else: a refusal
  // says no, and anything else has to be proved by a signature.
  function HashProbe(
    ctx: Context, w: World, name: string, version: Word, suites: seq<Word>, algorithms: seq<Word>, hashes: set<Word>)
    : (Option<bool>, World)
  {
    var (outcome, w1) := Ask(ctx, w, HashHello(ctx.settings.serverName, version, suites, algorithms), 0);
    if !outcome.Got? then (None, w1.Noting(name, HASH_SILENT))
    else if Declined(outcome.flight) then (Some(false), w1)
    else
      var exchange := outcome.flight.serverKeyExchange;
      if exchange.None? || exchange.value.signatureAlgorithm.None? then (None, w1.Noting(name, HASH_UNREADABLE))
      else (Some(exchange.value.signatureAlgorithm.value in hashes), w1)
  }

  method ProbeHash(
    prober: Prober, name: string, version: Word, suites: seq<Word>, algorithms: seq<Word>, hashes: set<Word>)
    returns (used: Option<bool>)
    requires prober.Valid()
    modifies prober
    ensures (used, prober.State())
      == HashProbe(prober.ctx, old(prober.State()), name, version, suites, algorithms, hashes)
  {
    var outcome := prober.HandshakeWithRetry(HashHello(prober.settings.serverName, version, suites, algorithms));
    if !outcome.Got? {
      prober.NoteIncomplete(name, HASH_SILENT);
      return None;
    }
    if Declined(outcome.flight) {
      return Some(false);
    }
    var exchange := outcome.flight.serverKeyExchange;
    if exchange.None? || exchange.value.signatureAlgorithm.None? {
      prober.NoteIncomplete(name, HASH_UNREADABLE);
      return None;
    }
    used := Some(exchange.value.signatureAlgorithm.value in hashes);
  }

  function SignatureProbe(ctx: Context, w: World, accepted: seq<Version>): (Signature, World) {
    var version := NewestBelow(accepted, VERSION_TLS13);
    if version.None? then (Signature(None, None, None), w.Noting("key_exchange_hash", HASH_ONLY_TLS13)) else
    var chosen := version.value.signatureAlgorithm;
    var suites := Signing(ctx.registry, version.value.cipherSuites);
    if suites == [] then (Signature(chosen, None, None), w.Noting("key_exchange_hash", HASH_NOTHING_SIGNED)) else
    var (sha1, w1) := HashProbe(ctx, w, "key_exchange_hash_sha1", version.value.version, suites,
                                SHA1_ALGORITHMS, BAD_HASH_ALGORITHMS);
    var (sha224, w2) := HashProbe(ctx, w1, "key_exchange_hash_sha224", version.value.version, suites,
                                  SHA224_ALGORITHMS, PHASE_OUT_HASH_ALGORITHMS);
    (Signature(chosen, sha1, sha224), w2)
  }

  method ProbeSignature(prober: Prober, accepted: seq<Version>) returns (signature: Signature)
    requires prober.Valid()
    modifies prober
    ensures (signature, prober.State()) == SignatureProbe(prober.ctx, old(prober.State()), accepted)
  {
    signature := Signature(None, None, None);
    var version := BelowTls13(accepted);
    if version.Some? && version.value.signatureAlgorithm.Some? {
      signature := signature.(chosen := version.value.signatureAlgorithm);
    }
    if version.None? {
      prober.NoteIncomplete("key_exchange_hash", HASH_ONLY_TLS13);
      return;
    }
    var suites := ForwardSecretSuites(prober.registry, version.value.cipherSuites);
    if |suites| == 0 {
      prober.NoteIncomplete("key_exchange_hash", HASH_NOTHING_SIGNED);
      return;
    }
    var sha1 := ProbeHash(prober, "key_exchange_hash_sha1", version.value.version, suites,
                          SHA1_ALGORITHMS, BAD_HASH_ALGORITHMS);
    signature := signature.(sha1Accepted := sha1);
    var sha224 := ProbeHash(prober, "key_exchange_hash_sha224", version.value.version, suites,
                            SHA224_ALGORITHMS, PHASE_OUT_HASH_ALGORITHMS);
    signature := signature.(sha224Accepted := sha224);
  }

  // --- Renegotiation ----------------------------------------------------------------------------

  datatype Renegotiation = Renegotiation(
    secureSupported: Option<bool>, clientInitiatedPossible: Option<bool>, clientInitiatedReason: string)

  const RENEGOTIATION_UNASKED :=
    "testing it needs a completed handshake and an encrypted post-handshake message, "
    + "which needs a TLS record layer this does not implement"

  // Read off what the version scan found: nothing is asked for it.
  function RenegotiationFrom(accepted: seq<Version>): Renegotiation {
    var version := NewestBelow(accepted, VERSION_TLS13);
    if version.None? then Renegotiation(None, Some(false), "")
    else Renegotiation(version.value.secureRenegotiation, None, RENEGOTIATION_UNASKED)
  }

  method ReadRenegotiation(accepted: seq<Version>) returns (renegotiation: Renegotiation)
    ensures renegotiation == RenegotiationFrom(accepted)
  {
    var version := BelowTls13(accepted);
    if version.None? {
      return Renegotiation(None, Some(false), "");
    }
    renegotiation := Renegotiation(version.value.secureRenegotiation, None, RENEGOTIATION_UNASKED);
  }

  // --- The session leg --------------------------------------------------------------------------

  datatype Session = Session(
    established: bool, version: Word, cipherSuite: Word, ocspStapled: bool, earlyData: Option<EarlyData>, error: string)

  // What the completed handshake comes to is given; whether there is one is up to the
  // budget.
  function SessionProbe(ctx: Context, w: World, leg: Session): (Session, World) {
    var (ok, w1) := Take(ctx, w);
    if ok then (leg, w1)
    else (Session(false, 0, 0, false, None, SESSION_EXHAUSTED), w1.Noting("session", SESSION_EXHAUSTED))
  }

  method ProbeSession(prober: Prober, leg: Session) returns (session: Session)
    requires prober.Valid()
    modifies prober
    ensures (session, prober.State()) == SessionProbe(prober.ctx, old(prober.State()), leg)
  {
    var ok := prober.TakeConnection();
    if !ok {
      session := Session(false, 0, 0, false, None, SESSION_EXHAUSTED);
      prober.NoteIncomplete("session", session.error);
      return;
    }
    session := leg;
  }

  // --- The run -----------------------------------------------------------------------------------

  datatype Observation = Observation(
    versions: seq<Version>,
    order: Order,
    compression: Compression,
    groups: Groups,
    signature: Signature,
    renegotiation: Renegotiation,
    session: Session,
    incomplete: seq<Phase>)

  function Accepted(versions: seq<Version>): seq<Version> {
    if versions == [] then [] else
    Accepted(versions[..|versions| - 1])
    + (if versions[|versions| - 1].accepted then [versions[|versions| - 1]] else [])
  }

  lemma {:induction false} AcceptedIs(versions: seq<Version>, v: Version)
    ensures v in Accepted(versions) <==> v in versions && v.accepted
  {
    if versions != [] {
      AcceptedIs(versions[..|versions| - 1], v);
      FrontAndLast(versions);
    }
  }

  // Probe from the end of the version scan on: an error when no version was accepted, and
  // otherwise the phases one after another.
  function Observe(ctx: Context, w: World, versions: seq<Version>, leg: Session): (Option<Observation>, World) {
    var accepted := Accepted(versions);
    if accepted == [] then (None, w) else
    var (order, w1) := OrderProbe(ctx, w, accepted);
    var (compression, w2) := CompressionProbe(ctx, w1, accepted);
    var (groups, w3) := GroupsProbe(ctx, w2, accepted);
    var (signature, w4) := SignatureProbe(ctx, w3, accepted);
    var (session, w5) := SessionProbe(ctx, w4, leg);
    (Some(Observation(versions, order, compression, groups, signature, RenegotiationFrom(accepted), session,
                      w5.incomplete)), w5)
  }

  // Every question is asked once, of the versions accepted and in this order, and each
  // answer is reported as its own.
  lemma AskedInTurn(ctx: Context, w: World, versions: seq<Version>, leg: Session)
    requires Observe(ctx, w, versions, leg).0.Some?
    ensures var accepted, observation := Accepted(versions), Observe(ctx, w, versions, leg).0.value;
      var w1 := OrderProbe(ctx, w, accepted).1;
      var w2 := CompressionProbe(ctx, w1, accepted).1;
      var w3 := GroupsProbe(ctx, w2, accepted).1;
      var w4 := SignatureProbe(ctx, w3, accepted).1;
      && observation.order == OrderProbe(ctx, w, accepted).0
      && observation.compression == CompressionProbe(ctx, w1, accepted).0
      && observation.groups == GroupsProbe(ctx, w2, accepted).0
      && observation.signature == SignatureProbe(ctx, w3, accepted).0
      && (observation.session, Observe(ctx, w, versions, leg).1) == SessionProbe(ctx, w4, leg)
      && observation.renegotiation == RenegotiationFrom(accepted)
  {
  }

  method FinishProbe(prober: Prober, versions: seq<Version>, leg: Session) returns (result: Option<Observation>)
    requires prober.Valid()
    modifies prober
    ensures (result, prober.State()) == Observe(prober.ctx, old(prober.State()), versions, leg)
  {
    var accepted: seq<Version> := [];
    for i := 0 to |versions|
      invariant accepted == Accepted(versions[..i])
      invariant prober.State() == old(prober.State())
    {
      assert versions[..i + 1][..i] == versions[..i];
      if versions[i].accepted {
        accepted := accepted + [versions[i]];
      }
    }
    assert versions[..|versions|] == versions;
    if |accepted| == 0 {
      return None;
    }
    var order := ProbeOrder(prober, accepted);
    var compression := ProbeCompression(prober, accepted);
    var groups := ProbeGroups(prober, accepted);
    var signature := ProbeSignature(prober, accepted);
    var renegotiation := ReadRenegotiation(accepted);
    var session := ProbeSession(prober, leg);
    result := Some(Observation(versions, order, compression, groups, signature, renegotiation, session,
                               prober.incomplete));
  }

  // --- No refusal goes unreported ------------------------------------------------------------------

  // The books are in order: the grants are the attempts up to the budget, and every attempt
  // beyond it has left a phase of its own behind.
  ghost predicate Balanced(ctx: Context, w: World) {
    && w.granted == (if w.spent <= ctx.settings.Budget() then w.spent else ctx.settings.Budget())
    && w.spent - w.granted <= |w.incomplete|
  }

  lemma {:induction false} AskKeeps(ctx: Context, w: World, hello: ClientHello, attempt: nat)
    requires Balanced(ctx, w)
    ensures var (outcome, w') := Ask(ctx, w, hello, attempt);
      && w'.incomplete == w.incomplete
      && w'.granted == (if w'.spent <= ctx.settings.Budget() then w'.spent else ctx.settings.Budget())
      && w'.spent - w'.granted <= w.spent - w.granted + (if outcome.Exhausted? then 1 else 0)
    decreases ctx.settings.retryLimit - attempt
  {
    if attempt <= ctx.settings.retryLimit {
      var (ok, w1) := Take(ctx, w);
      if ok && ctx.reply(w1.spent, hello) == Lost(true) {
        AskKeeps(ctx, w1, hello, attempt + 1);
      }
    }
  }

  lemma OrderKeeps(ctx: Context, w: World, accepted: seq<Version>)
    requires Balanced(ctx, w)
    ensures Balanced(ctx, OrderProbe(ctx, w, accepted).1)
  {
    var version := NewestBelow(accepted, VERSION_TLS13);
    if version.Some? && |version.value.cipherSuites| >= 2 {
      var v := version.value;
      var hello := Asking(ctx, v.version, v.cipherSuites);
      AskKeeps(ctx, w, hello, 0);
      var (outcome, w1) := Ask(ctx, w, hello, 0);
      if !outcome.Exhausted? {
        AskKeeps(ctx, w1, Asking(ctx, v.version, Reverse(v.cipherSuites)), 0);
      }
    }
  }

  lemma CompressionKeeps(ctx: Context, w: World, accepted: seq<Version>)
    requires Balanced(ctx, w)
    ensures Balanced(ctx, CompressionProbe(ctx, w, accepted).1)
  {
    var version := NewestBelow(accepted, VERSION_TLS13);
    if version.Some? {
      AskKeeps(ctx, w, CompressionHello(ctx.settings.serverName, ctx.registry, version.value.version), 0);
    }
  }

  lemma GroupsKeep(ctx: Context, w: World, accepted: seq<Version>)
    requires Balanced(ctx, w)
    ensures Balanced(ctx, GroupsProbe(ctx, w, accepted).1)
  {
    var version := NewestBelow(accepted, NO_LIMIT);
    if version.Some? {
      AskKeeps(ctx, w, GroupsHello(ctx.settings.serverName, ctx.registry, version.value.version), 0);
    }
  }

  lemma HashKeeps(
    ctx: Context, w: World, name: string, version: Word, suites: seq<Word>, algorithms: seq<Word>, hashes: set<Word>)
    requires Balanced(ctx, w)
    ensures Balanced(ctx, HashProbe(ctx, w, name, version, suites, algorithms, hashes).1)
  {
    AskKeeps(ctx, w, HashHello(ctx.settings.serverName, version, suites, algorithms), 0);
  }

  lemma SignatureKeeps(ctx: Context, w: World, accepted: seq<Version>)
    requires Balanced(ctx, w)
    ensures Balanced(ctx, SignatureProbe(ctx, w, accepted).1)
  {
    var version := NewestBelow(accepted, VERSION_TLS13);
    if version.Some? {
      var suites := Signing(ctx.registry, version.value.cipherSuites);
      HashKeeps(ctx, w, "key_exchange_hash_sha1", version.value.version, suites, SHA1_ALGORITHMS, BAD_HASH_ALGORITHMS);
      var w1 := HashProbe(ctx, w, "key_exchange_hash_sha1", version.value.version, suites,
                          SHA1_ALGORITHMS, BAD_HASH_ALGORITHMS).1;
      HashKeeps(ctx, w1, "key_exchange_hash_sha224", version.value.version, suites,
                SHA224_ALGORITHMS, PHASE_OUT_HASH_ALGORITHMS);
    }
  }

  lemma ObserveKeeps(ctx: Context, w: World, versions: seq<Version>, leg: Session)
    requires Balanced(ctx, w)
    ensures Balanced(ctx, Observe(ctx, w, versions, leg).1)
    ensures Observe(ctx, w, versions, leg).0.Some? ==>
      Observe(ctx, w, versions, leg).0.value.incomplete == Observe(ctx, w, versions, leg).1.incomplete
  {
    var accepted := Accepted(versions);
    OrderKeeps(ctx, w, accepted);
    var w1 := OrderProbe(ctx, w, accepted).1;
    CompressionKeeps(ctx, w1, accepted);
    var w2 := CompressionProbe(ctx, w1, accepted).1;
    GroupsKeep(ctx, w2, accepted);
    var w3 := GroupsProbe(ctx, w2, accepted).1;
    SignatureKeeps(ctx, w3, accepted);
  }

  // The main result on the budget. Whatever the interleaving of the version scan, whatever
  // the server says and however often it is asked again, the connections granted over the
  // whole run are the attempts up to the budget; and where the run still reports, it
  // reports at least as many phases incomplete as it was refused connections.
  lemma NoRefusalUnreported(
    ctx: Context, probed: seq<Word>, actions: seq<Action>, versions: seq<Version>, leg: Session)
    requires Run(ctx, probed, actions).Some? && AllOver(Run(ctx, probed, actions).value)
    requires |versions| == |probed|
    requires forall i :: 0 <= i < |probed| ==> Run(ctx, probed, actions).value.versions[i] == Some(versions[i])
    ensures var (observation, w) := Observe(ctx, Run(ctx, probed, actions).value.world, versions, leg);
      && w.granted == (if w.spent <= ctx.settings.Budget() then w.spent else ctx.settings.Budget())
      && (observation.Some? ==> w.spent - w.granted <= |observation.value.incomplete|)
  {
    RunOverComplete(ctx, probed, actions);
    ObserveKeeps(ctx, Run(ctx, probed, actions).value.world, versions, leg);
  }
}
