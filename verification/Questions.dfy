/**
 What the questions after the version scan find out (pkg/tls/probe/checks.go): against any
 server, when an answer is missing from the observation; and against servers described
 by the bytes they send, what the answer is.
 */
module Questions {
  import opened Bytes
  import opened Readers
  import opened Framing
  import opened ServerHellos
  import opened KeyExchanges
  import opened Flights
  import opened Answers
  import opened ClientHellos
  import opened Fidelity
  import opened Suites
  import opened Probing
  import opened Enumerations
  import opened Orderings
  import opened Speeches
  import opened Servers
  import opened Phases

  // --- Any server -------------------------------------------------------------------------------

  // What has been noted since.
  function Since(before: World, after: World): seq<Phase>
    requires before.incomplete <= after.incomplete
  {
    after.incomplete[|before.incomplete|..]
  }

  predicate Names(notes: seq<Phase>, name: string) {
    exists i :: 0 <= i < |notes| && notes[i].name == name
  }

  lemma NotedOnce(w: World, spent: World, name: string, reason: string)
    requires spent.incomplete == w.incomplete
    ensures w.incomplete <= spent.Noting(name, reason).incomplete
    ensures Since(w, spent.Noting(name, reason)) == [Phase(name, reason)]
  {
  }

  // Whether the server has an order of its own is missing, where there is a version to ask
  // at, exactly when one of the two questions was noted as unanswered.
  lemma OrderAsked(ctx: Context, w: World, accepted: seq<Version>)
    ensures var (order, w') := OrderProbe(ctx, w, accepted);
      && w.incomplete <= w'.incomplete
      && (order.applicable <==> NewestBelow(accepted, VERSION_TLS13).Some?)
      && |Since(w, w')| <= 1
      && (order.applicable ==> (order.serverEnforces.None? <==> Names(Since(w, w'), "cipher_suite_order")))
      && (!order.applicable || order.serverEnforces.Some? ==> Since(w, w') == [])
      && (order.violation.Some? ==> order.serverEnforces == Some(true))
  {
    var version := NewestBelow(accepted, VERSION_TLS13);
    if version.Some? && |version.value.cipherSuites| >= 2 {
      var suites := version.value.cipherSuites;
      var hello := Asking(ctx, version.value.version, suites);
      AskSpends(ctx, w, hello, 0);
      var w1 := Ask(ctx, w, hello, 0).1;
      AskSpends(ctx, w1, Asking(ctx, version.value.version, Reverse(suites)), 0);
      var w2 := Ask(ctx, w1, Asking(ctx, version.value.version, Reverse(suites)), 0).1;
      NotedOnce(w, w1, "cipher_suite_order", ORDER_FIRST);
      NotedOnce(w, w2, "cipher_suite_order", ORDER_SECOND);
      OnlyNamed([Phase("cipher_suite_order", ORDER_FIRST)], "cipher_suite_order");
      OnlyNamed([Phase("cipher_suite_order", ORDER_SECOND)], "cipher_suite_order");
    }
  }

  // A compression method is missing, where there is one to ask about, exactly when the
  // question was noted as unanswered.
  lemma CompressionAsked(ctx: Context, w: World, accepted: seq<Version>)
    ensures var (compression, w') := CompressionProbe(ctx, w, accepted);
      && w.incomplete <= w'.incomplete
      && (compression.applicable <==> NewestBelow(accepted, VERSION_TLS13).Some?)
      && (compression.applicable ==>
        (compression.selected.None? <==> Since(w, w') == [Phase("compression", COMPRESSION_SILENT)]))
      && (!compression.applicable || compression.selected.Some? ==> Since(w, w') == [])
      && (!compression.applicable ==> compression.selected.None? && w' == w)
  {
    var version := NewestBelow(accepted, VERSION_TLS13);
    if version.Some? {
      var hello := CompressionHello(ctx.settings.serverName, ctx.registry, version.value.version);
      AskSpends(ctx, w, hello, 0);
      NotedOnce(w, Ask(ctx, w, hello, 0).1, "compression", COMPRESSION_SILENT);
    }
  }

  // A silence about weak groups is noted, and reports no group.
  lemma GroupsAsked(ctx: Context, w: World, accepted: seq<Version>)
    ensures var (groups, w') := GroupsProbe(ctx, w, accepted);
      && w.incomplete <= w'.incomplete
      && (Since(w, w') == [] || Since(w, w') == [Phase("key_exchange_parameters", GROUPS_SILENT)])
      && (Since(w, w') != [] ==> groups.weakAccepted == [])
      && |groups.weakAccepted| <= 1
  {
    var version := NewestBelow(accepted, NO_LIMIT);
    if version.Some? {
      var hello := GroupsHello(ctx.settings.serverName, ctx.registry, version.value.version);
      AskSpends(ctx, w, hello, 0);
      NotedOnce(w, Ask(ctx, w, hello, 0).1, "key_exchange_parameters", GROUPS_SILENT);
    }
  }

  lemma HashAsked(
    ctx: Context, w: World, name: string, version: Word, suites: seq<Word>, algorithms: seq<Word>, hashes: set<Word>)
    ensures var (used, w') := HashProbe(ctx, w, name, version, suites, algorithms, hashes);
      && w.incomplete <= w'.incomplete
      && (used.Some? ==> Since(w, w') == [])
      && (used.None? ==> |Since(w, w')| == 1 && Since(w, w')[0].name == name)
  {
    var hello := HashHello(ctx.settings.serverName, version, suites, algorithms);
    AskSpends(ctx, w, hello, 0);
    NotedOnce(w, Ask(ctx, w, hello, 0).1, name, HASH_SILENT);
    NotedOnce(w, Ask(ctx, w, hello, 0).1, name, HASH_UNREADABLE);
  }

  lemma SinceBoth(a: World, b: World, c: World)
    requires a.incomplete <= b.incomplete <= c.incomplete
    ensures Since(a, c) == Since(a, b) + Since(b, c)
  {
  }

  lemma NamesBoth(a: seq<Phase>, b: seq<Phase>, name: string)
    ensures Names(a + b, name) <==> Names(a, name) || Names(b, name)
  {
    if Names(a + b, name) {
      var i :| 0 <= i < |a + b| && (a + b)[i].name == name;
      if i < |a| {
        assert a[i].name == name;
      } else {
        assert b[i - |a|].name == name;
      }
    }
    if Names(a, name) {
      var i :| 0 <= i < |a| && a[i].name == name;
      assert (a + b)[i].name == name;
    }
    if Names(b, name) {
      var i :| 0 <= i < |b| && b[i].name == name;
      assert (a + b)[|a| + i].name == name;
    }
  }

  // Whether a retired hash is accepted is missing exactly when that question, or the
  // whole check, was noted as unanswered.
  lemma SignatureAsked(ctx: Context, w: World, accepted: seq<Version>)
    ensures var (signature, w') := SignatureProbe(ctx, w, accepted);
      && w.incomplete <= w'.incomplete
      && var notes := Since(w, w');
         && (signature.sha1Accepted.None? <==>
           Names(notes, "key_exchange_hash") || Names(notes, "key_exchange_hash_sha1"))
         && (signature.sha224Accepted.None? <==>
           Names(notes, "key_exchange_hash") || Names(notes, "key_exchange_hash_sha224"))
  {
    var version := NewestBelow(accepted, VERSION_TLS13);
    NotedOnce(w, w, "key_exchange_hash", HASH_ONLY_TLS13);
    NotedOnce(w, w, "key_exchange_hash", HASH_NOTHING_SIGNED);
    if version.Some? && Signing(ctx.registry, version.value.cipherSuites) != [] {
      HashesAsked(ctx, w, version.value.version, Signing(ctx.registry, version.value.cipherSuites));
    } else {
      assert Since(w, SignatureProbe(ctx, w, accepted).1)[0].name == "key_exchange_hash";
    }
  }

  lemma HashesAsked(ctx: Context, w: World, version: Word, suites: seq<Word>)
    ensures var (sha1, w1) := HashProbe(ctx, w, "key_exchange_hash_sha1", version, suites,
                                        SHA1_ALGORITHMS, BAD_HASH_ALGORITHMS);
      var (sha224, w2) := HashProbe(ctx, w1, "key_exchange_hash_sha224", version, suites,
                                    SHA224_ALGORITHMS, PHASE_OUT_HASH_ALGORITHMS);
      && w.incomplete <= w2.incomplete
      && !Names(Since(w, w2), "key_exchange_hash")
      && (sha1.None? <==> Names(Since(w, w2), "key_exchange_hash_sha1"))
      && (sha224.None? <==> Names(Since(w, w2), "key_exchange_hash_sha224"))
  {
    var (sha1, w1) := HashProbe(ctx, w, "key_exchange_hash_sha1", version, suites,
                                SHA1_ALGORITHMS, BAD_HASH_ALGORITHMS);
    var (sha224, w2) := HashProbe(ctx, w1, "key_exchange_hash_sha224", version, suites,
                                  SHA224_ALGORITHMS, PHASE_OUT_HASH_ALGORITHMS);
    HashAsked(ctx, w, "key_exchange_hash_sha1", version, suites, SHA1_ALGORITHMS, BAD_HASH_ALGORITHMS);
    HashAsked(ctx, w1, "key_exchange_hash_sha224", version, suites, SHA224_ALGORITHMS, PHASE_OUT_HASH_ALGORITHMS);
    SinceBoth(w, w1, w2);
    DifferentNames();
    OnlyNamed(Since(w, w1), "key_exchange_hash_sha1");
    OnlyNamed(Since(w1, w2), "key_exchange_hash_sha224");
    NamesBoth(Since(w, w1), Since(w1, w2), "key_exchange_hash");
    NamesBoth(Since(w, w1), Since(w1, w2), "key_exchange_hash_sha1");
    NamesBoth(Since(w, w1), Since(w1, w2), "key_exchange_hash_sha224");
  }

  lemma OnlyNamed(notes: seq<Phase>, name: string)
    requires notes == [] || (|notes| == 1 && notes[0].name == name)
    ensures forall other :: Names(notes, other) <==> notes != [] && other == name
  {
    if notes != [] {
      assert forall i :: 0 <= i < |notes| ==> notes[i].name == name;
      assert notes[0].name == name;
    }
  }

  lemma DifferentNames()
    ensures "key_exchange_hash" != "key_exchange_hash_sha1"
    ensures "key_exchange_hash_sha1" != "key_exchange_hash_sha224"
    ensures "key_exchange_hash" != "key_exchange_hash_sha224"
  {
    assert |"key_exchange_hash"| == 17 && |"key_exchange_hash_sha1"| == 22 && |"key_exchange_hash_sha224"| == 24;
  }

  // --- Servers described by their bytes -----------------------------------------------------------

  function SentFields(h: ClientHello, entropy: Entropy): ClientFields {
    ClientFields(h.legacyVersion, RandomOf(h, entropy), SessionIdOf(h, entropy), h.cipherSuites,
                 CompressionOf(h), Sent(h, entropy))
  }

  // The hello fits its record whatever is drawn for it.
  ghost predicate FitsRecord(h: ClientHello) {
    && h.random.None? && h.sessionId.None? && |h.compressionMethods| <= 255 && h.cipherSuites != []
    && forall entropy :: SizeOf(h, entropy) <= 0xffff
  }

  // What the server says to the next question.
  function SaidTo(wire: Wire, manner: Manner, w: World, hello: ClientHello): Speech {
    manner(w.spent + 1, SentFields(hello, wire.entropy(w.spent + 1)))
  }

  lemma QuestionReaches(h: ClientHello, entropy: Entropy)
    requires FitsRecord(h)
    ensures Marshalled(h, entropy).Ok?
    ensures HelloIn(Marshalled(h, entropy).value) == Some(SentFields(h, entropy))
  {
    GoesOut(h, entropy);
    HelloSays(h, entropy);
  }

  lemma SpeechReaches(wire: Wire, ctx: Context, n: nat, hello: ClientHello, speech: Speech) returns (encrypted: bool)
    requires ctx == Over(wire, ctx.settings, ctx.registry)
    requires Marshalled(hello, wire.entropy(n)).Ok?
    requires SaysWhole(ConnectionOf(wire, n, hello), speech, Resolver(ctx.registry))
    ensures speech.Valid(Resolver(ctx.registry))
    ensures ctx.reply(n, hello)
      == Heard(Told(speech, Resolver(ctx.registry), AlertOf(speech, Resolver(ctx.registry)), encrypted))
  {
    var k: nat :|
      && Carrying(ConnectionOf(wire, n, hello), k, speech, Resolver(ctx.registry))
      && AllInTime(ConnectionOf(wire, n, hello).arrivals[..k], speech, Resolver(ctx.registry));
    encrypted := WholeReply(wire, ctx.settings, ctx.registry, n, hello, speech, k);
  }

  lemma AskTold(ctx: Context, w: World, hello: ClientHello, flight: Flight)
    requires ctx.settings.retryLimit >= 0 && w.spent + 1 <= ctx.settings.maxConnections
    requires ctx.reply(w.spent + 1, hello) == Heard(flight)
    ensures Ask(ctx, w, hello, 0) == (Got(flight), Spent(w, 1))
  {
    AskAnswered(ctx, w, hello);
  }

  lemma SaidBack(
    wire: Wire, finiteField: FiniteFieldResolver, manner: Manner, n: nat, bytes: seq<Byte>, fields: ClientFields)
    requires SpeaksLike(wire, finiteField, manner) && HelloIn(bytes) == Some(fields)
    ensures SaysWhole(wire.server(n, bytes), manner(n, fields), finiteField)
  {
    assert HelloIn(bytes).Some?;
  }

  lemma SpeechFollows(
    wire: Wire, finiteField: FiniteFieldResolver, manner: Manner, n: nat, hello: ClientHello, fields: ClientFields)
    requires SpeaksLike(wire, finiteField, manner) && FitsRecord(hello) && fields == SentFields(hello, wire.entropy(n))
    ensures Marshalled(hello, wire.entropy(n)).Ok?
    ensures SaysWhole(ConnectionOf(wire, n, hello), manner(n, fields), finiteField)
  {
    var entropy := wire.entropy(n);
    QuestionReaches(hello, entropy);
    var bytes := Marshalled(hello, entropy).value;
    SaidBack(wire, finiteField, manner, n, bytes, fields);
    assert ConnectionOf(wire, n, hello) == wire.server(n, bytes);
  }

  lemma SpeechArrives(
    wire: Wire, ctx: Context, manner: Manner, n: nat, hello: ClientHello, fields: ClientFields, speech: Speech)
    returns (encrypted: bool)
    requires ctx == Over(wire, ctx.settings, ctx.registry) && SpeaksLike(wire, Resolver(ctx.registry), manner)
    requires FitsRecord(hello) && fields == SentFields(hello, wire.entropy(n)) && speech == manner(n, fields)
    ensures speech.Valid(Resolver(ctx.registry))
    ensures ctx.reply(n, hello)
      == Heard(Told(speech, Resolver(ctx.registry), AlertOf(speech, Resolver(ctx.registry)), encrypted))
  {
    SpeechFollows(wire, Resolver(ctx.registry), manner, n, hello, fields);
    encrypted := SpeechReaches(wire, ctx, n, hello, speech);
  }

  lemma QuestionTold(wire: Wire, ctx: Context, manner: Manner, w: World, hello: ClientHello)
    returns (encrypted: bool)
    requires ctx == Over(wire, ctx.settings, ctx.registry) && SpeaksLike(wire, Resolver(ctx.registry), manner)
    requires ctx.settings.retryLimit >= 0 && w.spent + 1 <= ctx.settings.maxConnections
    requires FitsRecord(hello)
    ensures SaidTo(wire, manner, w, hello).Valid(Resolver(ctx.registry))
    ensures var speech := SaidTo(wire, manner, w, hello);
      Ask(ctx, w, hello, 0)
        == (Got(Told(speech, Resolver(ctx.registry), AlertOf(speech, Resolver(ctx.registry)), encrypted)), Spent(w, 1))
  {
    var n, speech, finiteField := w.spent + 1, SaidTo(wire, manner, w, hello), Resolver(ctx.registry);
    encrypted := SpeechArrives(wire, ctx, manner, n, hello, SentFields(hello, wire.entropy(n)), speech);
    AskTold(ctx, w, hello, Told(speech, finiteField, AlertOf(speech, finiteField), encrypted));
  }

  // What is told refuses exactly when it is a refusal.
  lemma ToldRefuses(speech: Speech, finiteField: FiniteFieldResolver, encrypted: bool)
    requires speech.Valid(finiteField)
    ensures var told := Told(speech, finiteField, AlertOf(speech, finiteField), encrypted);
      && (told.Refused() <==> speech.Refusing?)
      && (told.serverHello.None? <==> speech.Refusing?)
  {
  }

  // --- Compression ----------------------------------------------------------------------------------

  function MethodOf(speech: Speech): Byte
    requires !speech.Refusing?
  {
    if speech.Speaking? then speech.flight.hello.compressionMethod else speech.hello.compressionMethod
  }

  // The method the server picked of DEFLATE and none is the method reported.
  lemma CompressionFromBytes(wire: Wire, ctx: Context, manner: Manner, w: World, accepted: seq<Version>, v: Version)
    requires ctx == Over(wire, ctx.settings, ctx.registry) && SpeaksLike(wire, Resolver(ctx.registry), manner)
    requires ctx.settings.retryLimit >= 0 && w.spent + 1 <= ctx.settings.maxConnections
    requires NewestBelow(accepted, VERSION_TLS13) == Some(v)
    requires FitsRecord(CompressionHello(ctx.settings.serverName, ctx.registry, v.version))
    ensures var hello := CompressionHello(ctx.settings.serverName, ctx.registry, v.version);
      var speech := SaidTo(wire, manner, w, hello);
      && SentFields(hello, wire.entropy(w.spent + 1)).compressionMethods == [1, 0]
      && CompressionProbe(ctx, w, accepted)
        == if speech.Refusing? then
             (Compression(true, None), Spent(w, 1).Noting("compression", COMPRESSION_SILENT))
           else
             (Compression(true, Some(MethodOf(speech))), Spent(w, 1))
  {
    var hello := CompressionHello(ctx.settings.serverName, ctx.registry, v.version);
    var encrypted := QuestionTold(wire, ctx, manner, w, hello);
    ToldRefuses(SaidTo(wire, manner, w, hello), Resolver(ctx.registry), encrypted);
  }

  // --- Weak groups ----------------------------------------------------------------------------------

  // The group a speech settles on: the one its hello names, or the curve of its exchange.
  function GroupOf(speech: Speech): Option<Word> {
    match speech
    case Refusing(_, _) => None
    case Greeting(hello, _) => Meaning(hello).keyShareGroup
    case Speaking(f, _, _) =>
      if Meaning(f.hello).keyShareGroup.Some? then Meaning(f.hello).keyShareGroup
      else if f.exchange.Some? && f.exchange.value.OverCurve? then Some(f.exchange.value.curve)
      else None
  }

  lemma StoopsTo(speech: Speech, finiteField: FiniteFieldResolver, encrypted: bool)
    requires speech.Valid(finiteField)
    ensures StoopedTo(Told(speech, finiteField, AlertOf(speech, finiteField), encrypted))
      == if GroupOf(speech).Some? then [GroupOf(speech).value] else []
  {
    ToldRefuses(speech, finiteField, encrypted);
    if speech.Speaking? && speech.flight.exchange.Some? {
      ExchangeReadBack(speech.flight.exchange.value, Meaning(speech.flight.hello).version);
    }
  }

  // Asked with nothing but weak groups, and at TLS 1.3 with no share for any, the group the
  // server settles on is the one reported, and a refusal reports none.
  lemma GroupsFromBytes(wire: Wire, ctx: Context, manner: Manner, w: World, accepted: seq<Version>, v: Version)
    requires ctx == Over(wire, ctx.settings, ctx.registry) && SpeaksLike(wire, Resolver(ctx.registry), manner)
    requires ctx.settings.retryLimit >= 0 && w.spent + 1 <= ctx.settings.maxConnections
    requires NewestBelow(accepted, NO_LIMIT) == Some(v)
    requires FitsRecord(GroupsHello(ctx.settings.serverName, ctx.registry, v.version))
    ensures var hello := GroupsHello(ctx.settings.serverName, ctx.registry, v.version);
      var group := GroupOf(SaidTo(wire, manner, w, hello));
      var (groups, w') := GroupsProbe(ctx, w, accepted);
      && groups.weakAccepted == (if group.Some? then [group.value] else [])
      && w' == Spent(w, 1)
    ensures var fields := SentFields(GroupsHello(ctx.settings.serverName, ctx.registry, v.version),
                                   wire.entropy(w.spent + 1));
      && Reads(Found(fields.extensions, SUPPORTED_GROUPS), TakeWords, true, WEAK_GROUPS)
      && (v.version >= VERSION_TLS13 ==> Found(fields.extensions, KEY_SHARE) == Some([0, 0]))
  {
    var hello := GroupsHello(ctx.settings.serverName, ctx.registry, v.version);
    var encrypted := QuestionTold(wire, ctx, manner, w, hello);
    StoopsTo(SaidTo(wire, manner, w, hello), Resolver(ctx.registry), encrypted);
    WeakGroupsAsked(ctx, v.version, wire.entropy(w.spent + 1));
  }

  // An exchange over a finite field names no group. So a server that answers an offer of
  // weak groups with one of its finite fields is reported as accepting none, and nothing
  // is noted.
  lemma FiniteFieldGoesUnreported(
    wire: Wire, ctx: Context, manner: Manner, w: World, accepted: seq<Version>, v: Version, speech: Speech)
    requires ctx == Over(wire, ctx.settings, ctx.registry) && SpeaksLike(wire, Resolver(ctx.registry), manner)
    requires ctx.settings.retryLimit >= 0 && w.spent + 1 <= ctx.settings.maxConnections
    requires NewestBelow(accepted, NO_LIMIT) == Some(v)
    requires FitsRecord(GroupsHello(ctx.settings.serverName, ctx.registry, v.version))
    requires speech == SaidTo(wire, manner, w, GroupsHello(ctx.settings.serverName, ctx.registry, v.version))
    requires OverItsField(speech)
    ensures var (groups, w') := GroupsProbe(ctx, w, accepted);
      groups.weakAccepted == [] && w' == Spent(w, 1)
    ensures GROUP_FFDHE2048 in WEAK_GROUPS && GROUP_FFDHE3072 in WEAK_GROUPS && GROUP_FFDHE4096 in WEAK_GROUPS
  {
    GroupsFromBytes(wire, ctx, manner, w, accepted, v);
    NoGroup(speech);
  }

  // A flight with an exchange over a finite field, and no group in its hello.
  predicate OverItsField(speech: Speech) {
    && speech.Speaking?
    && speech.flight.exchange.Some? && speech.flight.exchange.value.OverFiniteField?
    && Meaning(speech.flight.hello).keyShareGroup.None?
  }

  // No group is reported exactly of a refusal and of an answer that names none: no key
  // share in its hello, and no exchange over a named curve.
  lemma NoGroup(speech: Speech)
    ensures GroupOf(speech).None? <==>
      || speech.Refusing?
      || (Meaning(HelloSaid(speech)).keyShareGroup.None?
          && !(speech.Speaking? && speech.flight.exchange.Some? && speech.flight.exchange.value.OverCurve?))
  {
  }

  lemma GroupsFound(h: ClientHello, entropy: Entropy)
    requires 0 < |h.supportedGroups| <= 0x7fff
    ensures Reads(Found(Sent(h, entropy), SUPPORTED_GROUPS), TakeWords, true, h.supportedGroups)
  {
    FoundEach(h, entropy, SUPPORTED_GROUPS);
    WordListReadBack(h.supportedGroups);
  }

  lemma ShareFound(h: ClientHello, entropy: Entropy)
    requires h.keyShareGroup == 0
    ensures h.supportedVersions != [] ==> Found(Sent(h, entropy), KEY_SHARE) == Some([0, 0])
  {
    FoundEach(h, entropy, KEY_SHARE);
  }

  lemma WeakGroupsAsked(ctx: Context, version: Word, entropy: Entropy)
    ensures var hello := GroupsHello(ctx.settings.serverName, ctx.registry, version);
      && Reads(Found(Sent(hello, entropy), SUPPORTED_GROUPS), TakeWords, true, WEAK_GROUPS)
      && (version >= VERSION_TLS13 ==> Found(Sent(hello, entropy), KEY_SHARE) == Some([0, 0]))
  {
    var hello := GroupsHello(ctx.settings.serverName, ctx.registry, version);
    GroupsFound(hello, entropy);
    ShareFound(hello, entropy);
  }

  // --- Hashes ---------------------------------------------------------------------------------------

  // The algorithm a speech is seen to sign with.
  function SignedWith(speech: Speech): Option<Word> {
    if !speech.Speaking? || speech.flight.exchange.None? then None
    else AlgorithmOf(speech.flight.exchange.value.signed, Meaning(speech.flight.hello).version)
  }

  // A refusal says no, a signature says what it is, and nothing else says anything.
  function HashVerdict(speech: Speech, hashes: set<Word>): Option<bool> {
    if speech.Refusing? then Some(false)
    else if SignedWith(speech).Some? then Some(SignedWith(speech).value in hashes)
    else None
  }

  // What the probe makes of one answer about a hash.
  function HashRead(flight: Flight, hashes: set<Word>): Option<bool> {
    if Declined(flight) then Some(false)
    else if flight.serverKeyExchange.Some? && flight.serverKeyExchange.value.signatureAlgorithm.Some? then
      Some(flight.serverKeyExchange.value.signatureAlgorithm.value in hashes)
    else None
  }

  lemma HashAnswered(
    ctx: Context, w: World, name: string, version: Word, suites: seq<Word>, algorithms: seq<Word>, hashes: set<Word>,
    flight: Flight, w1: World)
    requires Ask(ctx, w, HashHello(ctx.settings.serverName, version, suites, algorithms), 0) == (Got(flight), w1)
    ensures var verdict := HashRead(flight, hashes);
      HashProbe(ctx, w, name, version, suites, algorithms, hashes)
        == (verdict, if verdict.Some? then w1 else w1.Noting(name, HASH_UNREADABLE))
  {
  }

  lemma HashReadIs(speech: Speech, finiteField: FiniteFieldResolver, encrypted: bool, hashes: set<Word>)
    requires speech.Valid(finiteField)
    ensures HashRead(Told(speech, finiteField, AlertOf(speech, finiteField), encrypted), hashes)
      == HashVerdict(speech, hashes)
  {
    ToldRefuses(speech, finiteField, encrypted);
    if speech.Speaking? && speech.flight.exchange.Some? {
      ExchangeReadBack(speech.flight.exchange.value, Meaning(speech.flight.hello).version);
    }
  }

  // A hello with nothing but these signature algorithms is read as that.
  predicate OffersOnly(fields: ClientFields, algorithms: seq<Word>) {
    Found(fields.extensions, SIGNATURE_ALGORITHMS).Some?
    && TakeWords(Found(fields.extensions, SIGNATURE_ALGORITHMS).value) == Taken(algorithms, [])
  }

  lemma HashesAlone(h: ClientHello, entropy: Entropy)
    requires h.signatureAlgorithms != [] && |h.signatureAlgorithms| <= 0x7fff
    ensures OffersOnly(SentFields(h, entropy), h.signatureAlgorithms)
  {
    FoundEach(h, entropy, SIGNATURE_ALGORITHMS);
    WordListReadBack(h.signatureAlgorithms);
  }

  lemma HashesHeard(wire: Wire, ctx: Context, manner: Manner, w: World, hello: ClientHello, hashes: set<Word>)
    returns (flight: Flight)
    requires ctx == Over(wire, ctx.settings, ctx.registry) && SpeaksLike(wire, Resolver(ctx.registry), manner)
    requires ctx.settings.retryLimit >= 0 && w.spent + 1 <= ctx.settings.maxConnections
    requires FitsRecord(hello)
    ensures Ask(ctx, w, hello, 0) == (Got(flight), Spent(w, 1))
    ensures HashRead(flight, hashes) == HashVerdict(SaidTo(wire, manner, w, hello), hashes)
  {
    var speech, finiteField := SaidTo(wire, manner, w, hello), Resolver(ctx.registry);
    var encrypted := QuestionTold(wire, ctx, manner, w, hello);
    flight := Told(speech, finiteField, AlertOf(speech, finiteField), encrypted);
    HashReadIs(speech, finiteField, encrypted, hashes);
  }

  lemma SaidToFields(wire: Wire, manner: Manner, w: World, hello: ClientHello, fields: ClientFields)
    requires fields == SentFields(hello, wire.entropy(w.spent + 1))
    ensures SaidTo(wire, manner, w, hello) == manner(w.spent + 1, fields)
    ensures fields.legacyVersion == hello.legacyVersion && fields.cipherSuites == hello.cipherSuites
  {
  }

  lemma HashesTold(wire: Wire, ctx: Context, manner: Manner, w: World, hello: ClientHello, hashes: set<Word>)
    returns (fields: ClientFields, flight: Flight)
    requires ctx == Over(wire, ctx.settings, ctx.registry) && SpeaksLike(wire, Resolver(ctx.registry), manner)
    requires ctx.settings.retryLimit >= 0 && w.spent + 1 <= ctx.settings.maxConnections
    requires FitsRecord(hello) && hello.signatureAlgorithms != [] && |hello.signatureAlgorithms| <= 0x7fff
    ensures fields.legacyVersion == hello.legacyVersion && fields.cipherSuites == hello.cipherSuites
    ensures OffersOnly(fields, hello.signatureAlgorithms)
    ensures Ask(ctx, w, hello, 0) == (Got(flight), Spent(w, 1))
    ensures HashRead(flight, hashes) == HashVerdict(manner(w.spent + 1, fields), hashes)
  {
    fields := SentFields(hello, wire.entropy(w.spent + 1));
    flight := HashesHeard(wire, ctx, manner, w, hello, hashes);
    SaidToFields(wire, manner, w, hello, fields);
    HashesAlone(hello, wire.entropy(w.spent + 1));
  }

  // The question reaches the server as fields that offer only these algorithms, and what
  // the server says to them is the verdict.
  lemma HashFromBytes(
    wire: Wire, ctx: Context, manner: Manner, w: World, name: string, version: Word, suites: seq<Word>,
    algorithms: seq<Word>, hashes: set<Word>)
    returns (fields: ClientFields)
    requires ctx == Over(wire, ctx.settings, ctx.registry) && SpeaksLike(wire, Resolver(ctx.registry), manner)
    requires ctx.settings.retryLimit >= 0 && w.spent + 1 <= ctx.settings.maxConnections
    requires FitsRecord(HashHello(ctx.settings.serverName, version, suites, algorithms))
    requires version < VERSION_TLS13 && algorithms != [] && |algorithms| <= 0x7fff
    ensures fields.legacyVersion == version && fields.cipherSuites == suites && OffersOnly(fields, algorithms)
    ensures var verdict := HashVerdict(manner(w.spent + 1, fields), hashes);
      HashProbe(ctx, w, name, version, suites, algorithms, hashes)
        == (verdict, if verdict.Some? then Spent(w, 1) else Spent(w, 1).Noting(name, HASH_UNREADABLE))
  {
    var hello := HashHello(ctx.settings.serverName, version, suites, algorithms);
    var flight;
    fields, flight := HashesTold(wire, ctx, manner, w, hello, hashes);
    HashAnswered(ctx, w, name, version, suites, algorithms, hashes, flight, Spent(w, 1));
  }

  // A server that signs with one of the hashes whenever it is offered nothing but these
  // algorithms, one that refuses, and one that signs nothing that can be read.
  datatype Conduct = Signs | Refuses | SignsNothing

  ghost predicate Behaves(speech: Speech, hashes: set<Word>, conduct: Conduct) {
    match conduct
    case Signs => SignedWith(speech).Some? && SignedWith(speech).value in hashes
    case Refuses => speech.Refusing?
    case SignsNothing => !speech.Refusing? && SignedWith(speech).None?
  }

  ghost predicate Conducts(
    manner: Manner, version: Word, algorithms: seq<Word>, hashes: set<Word>, conduct: Conduct)
  {
    forall n: nat, fields: ClientFields :: fields.legacyVersion == version && OffersOnly(fields, algorithms) ==>
      Behaves(manner(n, fields), hashes, conduct)
  }

  function Reported(conduct: Conduct): Option<bool> {
    match conduct
    case Signs => Some(true)
    case Refuses => Some(false)
    case SignsNothing => None
  }

  // The conduct of a server towards each retired hash is what is reported of it, and one
  // that cannot be told is noted.
  lemma SignatureFromBytes(
    wire: Wire, ctx: Context, manner: Manner, w: World, accepted: seq<Version>, v: Version,
    sha1: Conduct, sha224: Conduct)
    requires ctx == Over(wire, ctx.settings, ctx.registry) && SpeaksLike(wire, Resolver(ctx.registry), manner)
    requires ctx.settings.retryLimit >= 0 && w.spent + 2 <= ctx.settings.maxConnections
    requires NewestBelow(accepted, VERSION_TLS13) == Some(v) && Signing(ctx.registry, v.cipherSuites) != []
    requires Conducts(manner, v.version, SHA1_ALGORITHMS, BAD_HASH_ALGORITHMS, sha1)
    requires Conducts(manner, v.version, SHA224_ALGORITHMS, PHASE_OUT_HASH_ALGORITHMS, sha224)
    requires var suites := Signing(ctx.registry, v.cipherSuites);
      && FitsRecord(HashHello(ctx.settings.serverName, v.version, suites, SHA1_ALGORITHMS))
      && FitsRecord(HashHello(ctx.settings.serverName, v.version, suites, SHA224_ALGORITHMS))
    ensures var (signature, w') := SignatureProbe(ctx, w, accepted);
      && signature == Signature(v.signatureAlgorithm, Reported(sha1), Reported(sha224))
      && w'.incomplete == w.incomplete
        + (if sha1.SignsNothing? then [Phase("key_exchange_hash_sha1", HASH_UNREADABLE)] else [])
        + (if sha224.SignsNothing? then [Phase("key_exchange_hash_sha224", HASH_UNREADABLE)] else [])
  {
    var suites := Signing(ctx.registry, v.cipherSuites);
    NewestBelowIs(accepted, VERSION_TLS13);
    HashConduct(wire, ctx, manner, w, "key_exchange_hash_sha1", v.version, suites,
                SHA1_ALGORITHMS, BAD_HASH_ALGORITHMS, sha1);
    var w1 := After(w, "key_exchange_hash_sha1", sha1);
    HashConduct(wire, ctx, manner, w1, "key_exchange_hash_sha224", v.version, suites,
                SHA224_ALGORITHMS, PHASE_OUT_HASH_ALGORITHMS, sha224);
    NotedAfter(w, "key_exchange_hash_sha1", sha1);
    NotedAfter(w1, "key_exchange_hash_sha224", sha224);
  }

  // Where a question about a hash leaves the probes.
  function After(w: World, name: string, conduct: Conduct): World {
    if conduct.SignsNothing? then Spent(w, 1).Noting(name, HASH_UNREADABLE) else Spent(w, 1)
  }

  lemma NotedAfter(w: World, name: string, conduct: Conduct)
    ensures After(w, name, conduct).incomplete
      == w.incomplete + (if conduct.SignsNothing? then [Phase(name, HASH_UNREADABLE)] else [])
  {
  }

  lemma HashConduct(
    wire: Wire, ctx: Context, manner: Manner, w: World, name: string, version: Word, suites: seq<Word>,
    algorithms: seq<Word>, hashes: set<Word>, conduct: Conduct)
    requires ctx == Over(wire, ctx.settings, ctx.registry) && SpeaksLike(wire, Resolver(ctx.registry), manner)
    requires ctx.settings.retryLimit >= 0 && w.spent + 1 <= ctx.settings.maxConnections
    requires FitsRecord(HashHello(ctx.settings.serverName, version, suites, algorithms))
    requires version < VERSION_TLS13 && algorithms != [] && |algorithms| <= 0x7fff
    requires Conducts(manner, version, algorithms, hashes, conduct)
    ensures HashProbe(ctx, w, name, version, suites, algorithms, hashes)
      == (Reported(conduct), After(w, name, conduct))
  {
    var fields := HashFromBytes(wire, ctx, manner, w, name, version, suites, algorithms, hashes);
    VerdictOfConduct(manner, version, algorithms, hashes, conduct, w.spent + 1, fields);
  }

  lemma VerdictOfConduct(
    manner: Manner, version: Word, algorithms: seq<Word>, hashes: set<Word>, conduct: Conduct,
    n: nat, fields: ClientFields)
    requires Conducts(manner, version, algorithms, hashes, conduct)
    requires fields.legacyVersion == version && OffersOnly(fields, algorithms)
    ensures HashVerdict(manner(n, fields), hashes) == Reported(conduct)
  {
    assert Behaves(manner(n, fields), hashes, conduct);
  }

  // There is a server for every pair of conducts. To an offer of the one list it says what
  // the one conduct takes, and to anything else what the other does.
  function SignedFlight(algorithm: Word, finiteField: FiniteFieldResolver): ServerFlight {
    var signed := Some(Signed(algorithm, []));
    BareFlight(VERSION_TLS12, ANY_SUITE).(exchange := Some(
      if finiteField(ANY_SUITE) then OverFiniteField([5], [2], [4], signed)
      else OverCurve(GROUP_SECP256R1, [4], signed)))
  }

  const ANY_SUITE: Word := 0xc02f

  lemma SignedIsShort(algorithm: Word, finiteField: FiniteFieldResolver)
    ensures Short(SignedFlight(algorithm, finiteField), finiteField)
  {
    var f := SignedFlight(algorithm, finiteField);
    BareHelloMeans(VERSION_TLS12, ANY_SUITE);
    var exchange := Message(SERVER_KEY_EXCHANGE, PutExchange(f.exchange.value));
    assert Front(f) == [HelloMessage(f), exchange];
    EncodeOne(exchange);
    assert [HelloMessage(f), exchange][1..] == [exchange];
    assert |exchange.body| <= 11;
  }

  function Conducting(conduct: Conduct, algorithm: Word, done: Message, finiteField: FiniteFieldResolver)
    : (speech: Speech)
    requires IsDone(done)
    ensures speech.Valid(finiteField)
    ensures forall hashes: set<Word> :: algorithm in hashes ==> Behaves(speech, hashes, conduct)
  {
    match conduct
    case Refuses => Refusing(VERSION_TLS12, 40)
    case Signs =>
      SignedIsShort(algorithm, finiteField);
      BareHelloMeans(VERSION_TLS12, ANY_SUITE);
      InOneRecord(SignedFlight(algorithm, finiteField), done, finiteField)
    case SignsNothing =>
      BareIsShort(VERSION_TLS12, ANY_SUITE, finiteField);
      InOneRecord(BareFlight(VERSION_TLS12, ANY_SUITE), done, finiteField)
  }

  function Mannered(sha1: Conduct, sha224: Conduct, done: Message, finiteField: FiniteFieldResolver): Manner
    requires IsDone(done)
  {
    (n: nat, fields: ClientFields) =>
      if OffersOnly(fields, SHA1_ALGORITHMS) then Conducting(sha1, SHA1_ALGORITHMS[0], done, finiteField)
      else Conducting(sha224, SHA224_ALGORITHMS[0], done, finiteField)
  }

  lemma SomeServerConducts(
    entropy: nat -> Entropy, registry: Registry, version: Word, sha1: Conduct, sha224: Conduct, done: Message)
    requires IsDone(done)
    ensures var manner := Mannered(sha1, sha224, done, Resolver(registry));
      && SpeaksLike(Reciter(entropy, manner), Resolver(registry), manner)
      && Conducts(manner, version, SHA1_ALGORITHMS, BAD_HASH_ALGORITHMS, sha1)
      && Conducts(manner, version, SHA224_ALGORITHMS, PHASE_OUT_HASH_ALGORITHMS, sha224)
  {
    var finiteField := Resolver(registry);
    var manner := Mannered(sha1, sha224, done, finiteField);
    forall n: nat, fields: ClientFields
      ensures manner(n, fields).Valid(finiteField)
      ensures OffersOnly(fields, SHA1_ALGORITHMS) ==> Behaves(manner(n, fields), BAD_HASH_ALGORITHMS, sha1)
      ensures OffersOnly(fields, SHA224_ALGORITHMS) ==> Behaves(manner(n, fields), PHASE_OUT_HASH_ALGORITHMS, sha224)
    {
      MannerIs(sha1, sha224, done, finiteField, n, fields);
    }
    SomeServerSpeaks(entropy, finiteField, manner);
  }

  lemma MannerIs(
    sha1: Conduct, sha224: Conduct, done: Message, finiteField: FiniteFieldResolver, n: nat, fields: ClientFields)
    requires IsDone(done)
    ensures var said := Mannered(sha1, sha224, done, finiteField)(n, fields);
      && said.Valid(finiteField)
      && (OffersOnly(fields, SHA1_ALGORITHMS) ==> Behaves(said, BAD_HASH_ALGORITHMS, sha1))
      && (OffersOnly(fields, SHA224_ALGORITHMS) ==> Behaves(said, PHASE_OUT_HASH_ALGORITHMS, sha224))
  {
    assert SHA1_ALGORITHMS[0] in BAD_HASH_ALGORITHMS;
    assert SHA224_ALGORITHMS[0] in PHASE_OUT_HASH_ALGORITHMS;
    assert SHA1_ALGORITHMS[0] != SHA224_ALGORITHMS[0];
  }

  // --- A warning ahead of the answer -------------------------------------------------------------

  // A question whose answer is stifled costs its connection and leaves a flight without a
  // hello that refuses nothing.
  lemma StifledAnswer(wire: Wire, ctx: Context, w: World, hello: ClientHello, speech: Speech) returns (flight: Flight)
    requires ctx == Over(wire, ctx.settings, ctx.registry)
    requires ctx.settings.retryLimit >= 0 && w.spent + 1 <= ctx.settings.maxConnections
    requires Marshalled(hello, wire.entropy(w.spent + 1)).Ok?
    requires Stifles(ConnectionOf(wire, w.spent + 1, hello), speech, Resolver(ctx.registry))
    ensures Ask(ctx, w, hello, 0) == (Got(flight), Spent(w, 1))
    ensures flight.serverHello.None? && !flight.Refused()
  {
    StifledReply(wire, ctx.settings, ctx.registry, w.spent + 1, hello, speech);
    AskAnswered(ctx, w, hello);
    flight := ctx.reply(w.spent + 1, hello).flight;
  }

  // The order is noted as undetermined, and so is compression.
  lemma HushedOrder(wire: Wire, ctx: Context, w: World, accepted: seq<Version>, v: Version, speech: Speech)
    requires ctx == Over(wire, ctx.settings, ctx.registry)
    requires ctx.settings.retryLimit >= 0 && w.spent + 1 <= ctx.settings.maxConnections
    requires NewestBelow(accepted, VERSION_TLS13) == Some(v) && |v.cipherSuites| >= 2
    requires var hello := Asking(ctx, v.version, v.cipherSuites);
      && Marshalled(hello, wire.entropy(w.spent + 1)).Ok?
      && Stifles(ConnectionOf(wire, w.spent + 1, hello), speech, Resolver(ctx.registry))
    ensures OrderProbe(ctx, w, accepted)
      == (Order(true, None, None, 0), Spent(w, 1).Noting("cipher_suite_order", ORDER_FIRST))
  {
    var _ := StifledAnswer(wire, ctx, w, Asking(ctx, v.version, v.cipherSuites), speech);
  }

  lemma HushedCompression(wire: Wire, ctx: Context, w: World, accepted: seq<Version>, v: Version, speech: Speech)
    requires ctx == Over(wire, ctx.settings, ctx.registry)
    requires ctx.settings.retryLimit >= 0 && w.spent + 1 <= ctx.settings.maxConnections
    requires NewestBelow(accepted, VERSION_TLS13) == Some(v)
    requires var hello := CompressionHello(ctx.settings.serverName, ctx.registry, v.version);
      && Marshalled(hello, wire.entropy(w.spent + 1)).Ok?
      && Stifles(ConnectionOf(wire, w.spent + 1, hello), speech, Resolver(ctx.registry))
    ensures CompressionProbe(ctx, w, accepted)
      == (Compression(true, None), Spent(w, 1).Noting("compression", COMPRESSION_SILENT))
  {
    var _ := StifledAnswer(
      wire, ctx, w, CompressionHello(ctx.settings.serverName, ctx.registry, v.version), speech);
  }

  // But no weak group is reported and nothing noted, whatever group the server settled on,
  lemma HushedGroups(wire: Wire, ctx: Context, w: World, accepted: seq<Version>, v: Version, speech: Speech)
    requires ctx == Over(wire, ctx.settings, ctx.registry)
    requires ctx.settings.retryLimit >= 0 && w.spent + 1 <= ctx.settings.maxConnections
    requires NewestBelow(accepted, NO_LIMIT) == Some(v)
    requires var hello := GroupsHello(ctx.settings.serverName, ctx.registry, v.version);
      && Marshalled(hello, wire.entropy(w.spent + 1)).Ok?
      && Stifles(ConnectionOf(wire, w.spent + 1, hello), speech, Resolver(ctx.registry))
    ensures GroupsProbe(ctx, w, accepted) == (Groups(true, SelectedGroups(accepted), []), Spent(w, 1))
  {
    var _ := StifledAnswer(wire, ctx, w, GroupsHello(ctx.settings.serverName, ctx.registry, v.version), speech);
  }

  // and a retired hash is reported as not accepted, whatever the server signed with.
  lemma HushedHash(
    wire: Wire, ctx: Context, w: World, name: string, version: Word, suites: seq<Word>, algorithms: seq<Word>,
    hashes: set<Word>, speech: Speech)
    requires ctx == Over(wire, ctx.settings, ctx.registry)
    requires ctx.settings.retryLimit >= 0 && w.spent + 1 <= ctx.settings.maxConnections
    requires var hello := HashHello(ctx.settings.serverName, version, suites, algorithms);
      && Marshalled(hello, wire.entropy(w.spent + 1)).Ok?
      && Stifles(ConnectionOf(wire, w.spent + 1, hello), speech, Resolver(ctx.registry))
    ensures HashProbe(ctx, w, name, version, suites, algorithms, hashes) == (Some(false), Spent(w, 1))
  {
    var _ := StifledAnswer(wire, ctx, w, HashHello(ctx.settings.serverName, version, suites, algorithms), speech);
  }

  // That holds of a server that signs with just such a hash.
  lemma SomeSignerIsHushed(
    algorithm: Word, hashes: set<Word>, done: Message, description: Byte, finiteField: FiniteFieldResolver)
    requires IsDone(done) && algorithm in hashes
    ensures var speech := Conducting(Signs, algorithm, done, finiteField);
      var warning := Warning(VERSION_TLS12, description);
      && speech.Speaking?
      && Behaves(speech, hashes, Signs)
      && Stifles(Opened([Read(warning, false), Read(Spoken(speech), false)]),
                 Speaking(speech.flight, speech.done, [warning] + speech.records), finiteField)
  {
    var speech := Conducting(Signs, algorithm, done, finiteField);
    SignedIsShort(algorithm, finiteField);
    assert speech == InOneRecord(SignedFlight(algorithm, finiteField), done, finiteField);
    OnlyRecord(speech.records[0]);
    WarningStifles(speech, VERSION_TLS12, description, finiteField);
  }

  // --- What is read off the versions ------------------------------------------------------------

  // The suites asked about are those found that keep a recorded session secret, in the
  // order they were found.
  lemma SigningExact(registry: Registry, suites: seq<Word>, secret: seq<Word>)
    requires registry.Valid()
    requires forall id :: id in secret <==>
      (id in suites
        && exists s :: s in registry.catalogue && s.id == id && s.keyExchange in {Ecdhe, Dhe, Negotiated})
    ensures Signing(registry, suites) == Restrict(suites, secret)
  {
    forall id | id in suites ensures id in secret <==> registry.ForwardSecrecy(id) {
      KindsExact(registry, id);
    }
    SigningAmong(registry, suites, secret);
  }

  lemma {:induction false} SigningAmong(registry: Registry, suites: seq<Word>, secret: seq<Word>)
    requires forall id :: id in suites ==> (id in secret <==> registry.ForwardSecrecy(id))
    ensures Signing(registry, suites) == Restrict(suites, secret)
  {
    if suites != [] {
      var n := |suites| - 1;
      FrontAndLast(suites);
      SigningAmong(registry, suites[..n], secret);
      RestrictAppend(suites[..n], [suites[n]], secret);
      assert [suites[n]][1..] == [];
    }
  }

  // At each version the group reported is the one the last result for it settled on, and
  // there is none where no result has one.
  ghost predicate SettledLast(accepted: seq<Version>, version: Word, i: nat) {
    && i < |accepted| && accepted[i].version == version && accepted[i].selectedGroup.Some?
    && forall j :: i < j < |accepted| && accepted[j].version == version ==> accepted[j].selectedGroup.None?
  }

  lemma {:induction false} SelectedExact(accepted: seq<Version>, version: Word)
    ensures version in SelectedGroups(accepted) <==> exists i :: SettledLast(accepted, version, i)
    ensures forall i: nat :: SettledLast(accepted, version, i) ==>
      version in SelectedGroups(accepted) && SelectedGroups(accepted)[version] == accepted[i].selectedGroup.value
  {
    if accepted != [] {
      var n := |accepted| - 1;
      var before := accepted[..n];
      SelectedExact(before, version);
      if accepted[n].version == version && accepted[n].selectedGroup.Some? {
        assert SettledLast(accepted, version, n);
        assert forall i: nat :: SettledLast(accepted, version, i) ==> i == n;
      } else {
        assert forall i: nat :: SettledLast(accepted, version, i) <==> SettledLast(before, version, i);
      }
    }
  }

  // Secure renegotiation is what the newest version below TLS 1.3 echoed. Whether a client
  // can start one is left open there, with a reason; and where only TLS 1.3 is spoken it is
  // ruled out.
  lemma RenegotiationExact(accepted: seq<Version>, v: Version)
    ensures NewestBelow(accepted, VERSION_TLS13) == Some(v) ==>
      && RenegotiationFrom(accepted).secureSupported == v.secureRenegotiation
      && RenegotiationFrom(accepted).clientInitiatedPossible.None?
      && RenegotiationFrom(accepted).clientInitiatedReason != ""
    ensures (forall a :: a in accepted ==> a.version >= VERSION_TLS13) ==>
      && RenegotiationFrom(accepted).secureSupported.None?
      && RenegotiationFrom(accepted).clientInitiatedPossible == Some(false)
  {
    NewestBelowIs(accepted, VERSION_TLS13);
    assert |RENEGOTIATION_UNASKED| > 0;
  }

  // --- The whole observation ---------------------------------------------------------------------

  // What an observation leaves open is named among the phases noted for it.
  ghost predicate OpenIsNamed(observation: Observation, leg: Session, notes: seq<Phase>) {
    && (observation.order.applicable <==> exists v :: v in observation.versions && v.accepted && v.version < 0x0304)
    && (observation.compression.applicable <==> observation.order.applicable)
    && (observation.order.applicable ==>
      (observation.order.serverEnforces.None? <==> Names(notes, "cipher_suite_order")))
    && (observation.compression.applicable ==>
      (observation.compression.selected.None? <==> Names(notes, "compression")))
    && (Names(notes, "key_exchange_parameters") ==> observation.groups.weakAccepted == [])
    && (observation.signature.sha1Accepted.None? <==>
      Names(notes, "key_exchange_hash") || Names(notes, "key_exchange_hash_sha1"))
    && (observation.signature.sha224Accepted.None? <==>
      Names(notes, "key_exchange_hash") || Names(notes, "key_exchange_hash_sha224"))
    && (if Names(notes, "session") then !observation.session.established else observation.session == leg)
  }

  ghost predicate NamedOnly(notes: seq<Phase>, names: set<string>) {
    forall i :: 0 <= i < |notes| ==> notes[i].name in names
  }

  lemma NamesDiffer()
    ensures |"cipher_suite_order"| == 18 && |"compression"| == 11 && |"key_exchange_parameters"| == 23
    ensures |"key_exchange_hash"| == 17 && |"key_exchange_hash_sha1"| == 22 && |"key_exchange_hash_sha224"| == 24
    ensures |"session"| == 7
  {
  }

  lemma OrderNotes(ctx: Context, w: World, accepted: seq<Version>)
    ensures w.incomplete <= OrderProbe(ctx, w, accepted).1.incomplete
    ensures NamedOnly(Since(w, OrderProbe(ctx, w, accepted).1), {"cipher_suite_order"})
  {
    var version := NewestBelow(accepted, VERSION_TLS13);
    if version.Some? && |version.value.cipherSuites| >= 2 {
      var suites := version.value.cipherSuites;
      AskSpends(ctx, w, Asking(ctx, version.value.version, suites), 0);
      var w1 := Ask(ctx, w, Asking(ctx, version.value.version, suites), 0).1;
      AskSpends(ctx, w1, Asking(ctx, version.value.version, Reverse(suites)), 0);
    }
  }

  lemma HashNotes(ctx: Context, w: World, accepted: seq<Version>)
    ensures w.incomplete <= SignatureProbe(ctx, w, accepted).1.incomplete
    ensures NamedOnly(Since(w, SignatureProbe(ctx, w, accepted).1), HashNames())
  {
    var version := NewestBelow(accepted, VERSION_TLS13);
    if version.Some? && Signing(ctx.registry, version.value.cipherSuites) != [] {
      BothHashesNote(ctx, w, version.value.version, Signing(ctx.registry, version.value.cipherSuites));
    }
  }

  function HashNames(): set<string> {
    {"key_exchange_hash", "key_exchange_hash_sha1", "key_exchange_hash_sha224"}
  }

  lemma BothHashesNote(ctx: Context, w: World, version: Word, suites: seq<Word>)
    ensures var w1 := HashProbe(ctx, w, "key_exchange_hash_sha1", version, suites,
                                SHA1_ALGORITHMS, BAD_HASH_ALGORITHMS).1;
      var w2 := HashProbe(ctx, w1, "key_exchange_hash_sha224", version, suites,
                          SHA224_ALGORITHMS, PHASE_OUT_HASH_ALGORITHMS).1;
      w.incomplete <= w2.incomplete && NamedOnly(Since(w, w2), HashNames())
  {
    var w1 := HashProbe(ctx, w, "key_exchange_hash_sha1", version, suites, SHA1_ALGORITHMS, BAD_HASH_ALGORITHMS).1;
    var w2 := HashProbe(ctx, w1, "key_exchange_hash_sha224", version, suites,
                        SHA224_ALGORITHMS, PHASE_OUT_HASH_ALGORITHMS).1;
    HashAsked(ctx, w, "key_exchange_hash_sha1", version, suites, SHA1_ALGORITHMS, BAD_HASH_ALGORITHMS);
    HashAsked(ctx, w1, "key_exchange_hash_sha224", version, suites, SHA224_ALGORITHMS, PHASE_OUT_HASH_ALGORITHMS);
    SinceBoth(w, w1, w2);
    NamedOnlyBoth(Since(w, w1), Since(w1, w2), HashNames());
  }

  lemma NamedOnlyBoth(a: seq<Phase>, b: seq<Phase>, names: set<string>)
    requires NamedOnly(a, names) && NamedOnly(b, names)
    ensures NamedOnly(a + b, names)
  {
  }

  lemma SessionNotes(ctx: Context, w: World, leg: Session)
    ensures var (session, w') := SessionProbe(ctx, w, leg);
      && w.incomplete <= w'.incomplete
      && NamedOnly(Since(w, w'), {"session"})
      && (Names(Since(w, w'), "session") ==> !session.established)
      && (!Names(Since(w, w'), "session") ==> session == leg)
  {
    var w' := SessionProbe(ctx, w, leg).1;
    if !Take(ctx, w).0 {
      assert Since(w, w')[0].name == "session";
    }
  }

  // Five lists of notes end to end, each under names of its own.
  lemma NamesApart(a: seq<Phase>, b: seq<Phase>, c: seq<Phase>, d: seq<Phase>, e: seq<Phase>)
    requires NamedOnly(a, {"cipher_suite_order"}) && NamedOnly(b, {"compression"})
    requires NamedOnly(c, {"key_exchange_parameters"})
    requires NamedOnly(d, HashNames())
    requires NamedOnly(e, {"session"})
    ensures var all := a + (b + (c + (d + e)));
      && (Names(all, "cipher_suite_order") <==> Names(a, "cipher_suite_order"))
      && (Names(all, "compression") <==> Names(b, "compression"))
      && (Names(all, "key_exchange_parameters") <==> Names(c, "key_exchange_parameters"))
      && (Names(all, "key_exchange_hash") <==> Names(d, "key_exchange_hash"))
      && (Names(all, "key_exchange_hash_sha1") <==> Names(d, "key_exchange_hash_sha1"))
      && (Names(all, "key_exchange_hash_sha224") <==> Names(d, "key_exchange_hash_sha224"))
      && (Names(all, "session") <==> Names(e, "session"))
  {
    NamesDiffer();
    forall name ensures Names(a + (b + (c + (d + e))), name) <==>
      Names(a, name) || Names(b, name) || Names(c, name) || Names(d, name) || Names(e, name)
    {
      NamesBoth(a, b + (c + (d + e)), name);
      NamesBoth(b, c + (d + e), name);
      NamesBoth(c, d + e, name);
      NamesBoth(d, e, name);
    }
  }

  lemma SinceFive(w: World, w1: World, w2: World, w3: World, w4: World, w5: World)
    requires w.incomplete <= w1.incomplete <= w2.incomplete <= w3.incomplete <= w4.incomplete <= w5.incomplete
    ensures Since(w, w5) == Since(w, w1) + (Since(w1, w2) + (Since(w2, w3) + (Since(w3, w4) + Since(w4, w5))))
  {
    SinceBoth(w3, w4, w5);
    SinceBoth(w2, w3, w5);
    SinceBoth(w1, w2, w5);
    SinceBoth(w, w1, w5);
  }

  // Whatever the server does: there is an observation exactly where some version was
  // accepted, it has the versions it was given, and what it leaves open is what its
  // incomplete phases since the version scan name.
  lemma OpenIffNoted(ctx: Context, w: World, versions: seq<Version>, leg: Session)
    ensures var (observation, w') := Observe(ctx, w, versions, leg);
      && (observation.Some? <==> exists v :: v in versions && v.accepted)
      && (observation.None? ==> w' == w)
      && (observation.Some? ==>
        && observation.value.versions == versions
        && w.incomplete <= w'.incomplete == observation.value.incomplete
        && OpenIsNamed(observation.value, leg, Since(w, w')))
  {
    SomeAccepted(versions);
    if Accepted(versions) != [] {
      OpenNamed(ctx, w, versions, leg);
    }
  }

  lemma OpenNamed(ctx: Context, w: World, versions: seq<Version>, leg: Session)
    requires Accepted(versions) != []
    ensures var (observation, w') := Observe(ctx, w, versions, leg);
      && w.incomplete <= w'.incomplete
      && OpenIsNamed(observation.value, leg, Since(w, w'))
  {
    var accepted := Accepted(versions);
    var w1 := OrderProbe(ctx, w, accepted).1;
    var w2 := CompressionProbe(ctx, w1, accepted).1;
    var w3 := GroupsProbe(ctx, w2, accepted).1;
    var w4 := SignatureProbe(ctx, w3, accepted).1;
    var w5 := SessionProbe(ctx, w4, leg).1;
    NotesGrow(ctx, w, accepted, leg);
    SinceFive(w, w1, w2, w3, w4, w5);
    FirstThree(ctx, w, versions);
    LastTwo(ctx, w3, accepted, leg);
    OpenByParts(Observe(ctx, w, versions, leg).0.value, leg,
                Since(w, w1), Since(w1, w2), Since(w2, w3), Since(w3, w4), Since(w4, w5));
  }

  // The questions about the versions, and what was noted of each.
  ghost predicate FirstNamed(
    versions: seq<Version>, order: Order, compression: Compression, groups: Groups,
    a: seq<Phase>, b: seq<Phase>, c: seq<Phase>)
  {
    && (order.applicable <==> exists v :: v in versions && v.accepted && v.version < 0x0304)
    && (compression.applicable <==> order.applicable)
    && (order.applicable ==> (order.serverEnforces.None? <==> Names(a, "cipher_suite_order")))
    && (compression.applicable ==> (compression.selected.None? <==> Names(b, "compression")))
    && (c != [] ==> groups.weakAccepted == [])
  }

  lemma FirstThree(ctx: Context, w: World, versions: seq<Version>)
    ensures var accepted := Accepted(versions);
      var (order, w1) := OrderProbe(ctx, w, accepted);
      var (compression, w2) := CompressionProbe(ctx, w1, accepted);
      var (groups, w3) := GroupsProbe(ctx, w2, accepted);
      && w.incomplete <= w1.incomplete <= w2.incomplete <= w3.incomplete
      && FirstNamed(versions, order, compression, groups, Since(w, w1), Since(w1, w2), Since(w2, w3))
  {
    var accepted := Accepted(versions);
    var w1 := OrderProbe(ctx, w, accepted).1;
    var w2 := CompressionProbe(ctx, w1, accepted).1;
    SomeBelow(versions);
    OrderAsked(ctx, w, accepted);
    CompressionNotes(ctx, w1, accepted);
    CompressionAsked(ctx, w1, accepted);
    GroupsAsked(ctx, w2, accepted);
  }

  // The hashes and the session, likewise.
  ghost predicate LastNamed(
    signature: Signature, session: Session, leg: Session, d: seq<Phase>, e: seq<Phase>)
  {
    && (signature.sha1Accepted.None? <==>
      Names(d, "key_exchange_hash") || Names(d, "key_exchange_hash_sha1"))
    && (signature.sha224Accepted.None? <==>
      Names(d, "key_exchange_hash") || Names(d, "key_exchange_hash_sha224"))
    && (if Names(e, "session") then !session.established else session == leg)
  }

  lemma LastTwo(ctx: Context, w: World, accepted: seq<Version>, leg: Session)
    ensures var (signature, w1) := SignatureProbe(ctx, w, accepted);
      var (session, w2) := SessionProbe(ctx, w1, leg);
      && w.incomplete <= w1.incomplete <= w2.incomplete
      && LastNamed(signature, session, leg, Since(w, w1), Since(w1, w2))
  {
    SignatureAsked(ctx, w, accepted);
    SessionNotes(ctx, SignatureProbe(ctx, w, accepted).1, leg);
  }

  // The same, part by part.
  lemma OpenByParts(
    observation: Observation, leg: Session,
    a: seq<Phase>, b: seq<Phase>, c: seq<Phase>, d: seq<Phase>, e: seq<Phase>)
    requires NamedOnly(a, {"cipher_suite_order"}) && NamedOnly(b, {"compression"})
    requires NamedOnly(c, {"key_exchange_parameters"})
    requires NamedOnly(d, HashNames())
    requires NamedOnly(e, {"session"})
    requires FirstNamed(observation.versions, observation.order, observation.compression, observation.groups, a, b, c)
    requires LastNamed(observation.signature, observation.session, leg, d, e)
    ensures OpenIsNamed(observation, leg, a + (b + (c + (d + e))))
  {
    NamesApart(a, b, c, d, e);
    GroupsNamed(c);
  }

  lemma GroupsNamed(notes: seq<Phase>)
    ensures Names(notes, "key_exchange_parameters") ==> notes != []
  {
  }

  lemma CompressionNotes(ctx: Context, w: World, accepted: seq<Version>)
    ensures var (compression, w') := CompressionProbe(ctx, w, accepted);
      && w.incomplete <= w'.incomplete
      && NamedOnly(Since(w, w'), {"compression"})
      && (compression.applicable ==> (compression.selected.None? <==> Names(Since(w, w'), "compression")))
  {
    CompressionAsked(ctx, w, accepted);
    OnlyNamed([Phase("compression", COMPRESSION_SILENT)], "compression");
  }

  lemma NotesGrow(ctx: Context, w: World, accepted: seq<Version>, leg: Session)
    ensures var w1 := OrderProbe(ctx, w, accepted).1;
      var w2 := CompressionProbe(ctx, w1, accepted).1;
      var w3 := GroupsProbe(ctx, w2, accepted).1;
      var w4 := SignatureProbe(ctx, w3, accepted).1;
      var w5 := SessionProbe(ctx, w4, leg).1;
      && w.incomplete <= w1.incomplete <= w2.incomplete <= w3.incomplete <= w4.incomplete <= w5.incomplete
      && NamedOnly(Since(w, w1), {"cipher_suite_order"}) && NamedOnly(Since(w1, w2), {"compression"})
      && NamedOnly(Since(w2, w3), {"key_exchange_parameters"})
      && NamedOnly(Since(w3, w4), HashNames())
      && NamedOnly(Since(w4, w5), {"session"})
  {
    var w1 := OrderProbe(ctx, w, accepted).1;
    var w2 := CompressionProbe(ctx, w1, accepted).1;
    var w3 := GroupsProbe(ctx, w2, accepted).1;
    var w4 := SignatureProbe(ctx, w3, accepted).1;
    OrderNotes(ctx, w, accepted);
    CompressionNotes(ctx, w1, accepted);
    GroupsAsked(ctx, w2, accepted);
    HashNotes(ctx, w3, accepted);
    SessionNotes(ctx, w4, leg);
  }

  lemma SomeBelow(versions: seq<Version>)
    ensures NewestBelow(Accepted(versions), VERSION_TLS13).Some? <==>
      exists v :: v in versions && v.accepted && v.version < 0x0304
  {
    NewestBelowIs(Accepted(versions), VERSION_TLS13);
    forall v ensures v in Accepted(versions) <==> v in versions && v.accepted {
      AcceptedIs(versions, v);
    }
  }

  lemma {:induction false} SomeAccepted(versions: seq<Version>)
    ensures Accepted(versions) != [] <==> exists v :: v in versions && v.accepted
  {
    if versions != [] {
      SomeAccepted(versions[..|versions| - 1]);
      FrontAndLast(versions);
    }
  }

  // --- What is different about a question ---------------------------------------------------------

  // A question is the ordinary hello of its version for these suites, but for what it asks
  // about: nothing else in its fields, and no other kind of extension, is different.
  ghost predicate DiffersIn(question: ClientHello, ordinary: ClientHello, kinds: set<Word>) {
    && question.legacyVersion == ordinary.legacyVersion
    && question.random == ordinary.random && question.sessionId == ordinary.sessionId
    && question.cipherSuites == ordinary.cipherSuites
    && forall entropy: Entropy, kind: Word :: kind !in kinds && kind != 21 ==>
      Found(Sent(question, entropy), kind) == Found(Sent(ordinary, entropy), kind)
  }

  lemma QuestionsDifferIn(name: seq<Byte>, registry: Registry, version: Word, suites: seq<Word>, algorithms: seq<Word>)
    ensures var offer := registry.ForVersion(version);
      && DiffersIn(CompressionHello(name, registry, version), BaseHello(name, version, offer), {})
      && DiffersIn(GroupsHello(name, registry, version), BaseHello(name, version, offer), {10, 51})
      && DiffersIn(HashHello(name, version, suites, algorithms), BaseHello(name, version, suites), {13})
    ensures CompressionHello(name, registry, version).compressionMethods == [1, 0]
    ensures GroupsHello(name, registry, version).compressionMethods == []
    ensures GroupsHello(name, registry, version).supportedGroups == [21, 256, 257, 258]
    ensures GroupsHello(name, registry, version).keyShareGroup == 0
    ensures HashHello(name, version, suites, algorithms).compressionMethods == []
  {
    CompressionDiffers(name, registry, version);
    GroupsDiffers(name, registry, version);
    HashDiffers(name, version, suites, algorithms);
  }

  lemma CompressionDiffers(name: seq<Byte>, registry: Registry, version: Word)
    ensures DiffersIn(CompressionHello(name, registry, version),
                      BaseHello(name, version, registry.ForVersion(version)), {})
  {
    var h, b := CompressionHello(name, registry, version), BaseHello(name, version, registry.ForVersion(version));
    forall entropy: Entropy, kind: Word | kind != 21
      ensures Found(Sent(h, entropy), kind) == Found(Sent(b, entropy), kind)
    {
      SameFound(h, b, entropy, kind);
    }
  }

  lemma GroupsDiffers(name: seq<Byte>, registry: Registry, version: Word)
    ensures DiffersIn(GroupsHello(name, registry, version),
                      BaseHello(name, version, registry.ForVersion(version)), {10, 51})
  {
    var h, b := GroupsHello(name, registry, version), BaseHello(name, version, registry.ForVersion(version));
    forall entropy: Entropy, kind: Word | kind !in {10, 51} && kind != 21
      ensures Found(Sent(h, entropy), kind) == Found(Sent(b, entropy), kind)
    {
      GroupsAside(b, h.supportedGroups, h.keyShareGroup, entropy, kind);
      assert h == b.(supportedGroups := h.supportedGroups, keyShareGroup := h.keyShareGroup);
      SameFound(h, b, entropy, kind);
    }
  }

  lemma GroupsAside(b: ClientHello, groups: seq<Word>, share: Word, entropy: Entropy, kind: Word)
    requires kind !in {10, 51}
    ensures Wanted(b.(supportedGroups := groups, keyShareGroup := share), entropy, kind) == Wanted(b, entropy, kind)
  {
  }

  lemma HashDiffers(name: seq<Byte>, version: Word, suites: seq<Word>, algorithms: seq<Word>)
    ensures DiffersIn(HashHello(name, version, suites, algorithms), BaseHello(name, version, suites), {13})
  {
    var h, b := HashHello(name, version, suites, algorithms), BaseHello(name, version, suites);
    forall entropy: Entropy, kind: Word | kind !in {13} && kind != 21
      ensures Found(Sent(h, entropy), kind) == Found(Sent(b, entropy), kind)
    {
      SameFound(h, b, entropy, kind);
    }
  }

  lemma SameFound(h: ClientHello, b: ClientHello, entropy: Entropy, kind: Word)
    requires kind != PADDING && Wanted(h, entropy, kind) == Wanted(b, entropy, kind)
    ensures Found(Sent(h, entropy), kind) == Found(Sent(b, entropy), kind)
  {
    FoundEach(h, entropy, kind);
    FoundEach(b, entropy, kind);
  }

  // The algorithms offered for a hash are RSA, DSA and ECDSA with it (2 is SHA-1 and 3 is
  // SHA-224, section 7.4.1.4.1 of RFC 5246), a signature with any of them counts, and of
  // others only one with MD5 counts beside SHA-1.
  lemma RetiredAlgorithms(algorithm: Word)
    ensures algorithm in SHA1_ALGORITHMS <==> algorithm / 0x100 == 2 && algorithm % 0x100 in {1, 2, 3}
    ensures algorithm in SHA224_ALGORITHMS <==> algorithm / 0x100 == 3 && algorithm % 0x100 in {1, 2, 3}
    ensures algorithm in BAD_HASH_ALGORITHMS <==> algorithm in SHA1_ALGORITHMS || algorithm == 0x0101
    ensures algorithm in PHASE_OUT_HASH_ALGORITHMS <==> algorithm in SHA224_ALGORITHMS
  {
  }
}
