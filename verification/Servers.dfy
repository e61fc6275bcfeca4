/**
 The whole way round. A server is described by the bytes it sends for the bytes it is
 sent: it reads the hello out of the record, picks a suite by its rule at the version asked
 for, and answers with a flight, or at TLS 1.3 with a hello, in any records and any reads,
 with or without a warning. From that alone, what the version probe and the order probe
 report of it follows.
 */
module Servers {
  import opened Bytes
  import opened Readers
  import opened Framing
  import opened ServerHellos
  import opened KeyExchanges
  import opened Flights
  import opened Answers
  import opened ClientHellos
  import opened Fidelity
  import opened Speeches
  import opened Suites
  import opened Probing
  import opened Enumerations
  import opened Orderings

  // --- What a server is sent ----------------------------------------------------------------

  // The version a hello asks for: the first it lists, and its legacy field where it lists
  // none (section 4.2.1 of RFC 8446).
  function VersionAsked(fields: ClientFields): Word {
    var data := Found(fields.extensions, SUPPORTED_VERSIONS);
    if data.None? || VersionsIn(data.value).Truncated? || VersionsIn(data.value).value == [] then fields.legacyVersion
    else VersionsIn(data.value).value[0]
  }

  // A hello of this version has arrived.
  predicate Asks(bytes: seq<Byte>, version: Word) {
    HelloIn(bytes).Some? && VersionAsked(HelloIn(bytes).value) == version
  }

  lemma {:induction false} NoMoreThan(part: seq<Word>, whole: seq<Word>)
    requires Distinct(part) && Distinct(whole) && forall id :: id in part ==> id in whole
    ensures |part| <= |whole|
  {
    if part != [] {
      assert part[0] in part;
      var i := IndexIn(whole, part[0]);
      IndexInMeans(whole, part[0]);
      RemoveKeeps(whole, i);
      forall id | id in part[1..] ensures id in Remove(whole, i) {
        var k :| 0 <= k < |part[1..]| && part[1..][k] == id;
        assert part[k + 1] == id;
      }
      NoMoreThan(part[1..], Remove(whole, i));
    }
  }

  // Room for the longest hello that is asked at a version, the one that offers everything.
  ghost predicate Writable(ctx: Context, version: Word) {
    forall entropy :: SizeOf(Asking(ctx, version, ctx.registry.ForVersion(version)), entropy) <= 0xffff
  }

  // Offering fewer suites makes a hello shorter by two bytes each and changes nothing else
  // about its size.
  lemma FewerSuites(h: ClientHello, suites: seq<Word>, entropy: Entropy)
    ensures SizeOf(h.(cipherSuites := suites), entropy) + 2 * |h.cipherSuites|
      == SizeOf(h, entropy) + 2 * |suites|
  {
    SameExtensions(h, suites, entropy);
    SizeIs(h.(cipherSuites := suites), entropy);
    SizeIs(h, entropy);
  }

  lemma SameExtensions(h: ClientHello, suites: seq<Word>, entropy: Entropy)
    ensures ExtensionsOf(h.(cipherSuites := suites), entropy) == ExtensionsOf(h, entropy)
  {
  }

  // A hello with no more suites than fit goes out.
  lemma GoesOut(h: ClientHello, entropy: Entropy)
    requires h.sessionId.None? && |h.compressionMethods| <= 255 && h.cipherSuites != []
    requires SizeOf(h, entropy) <= 0xffff
    ensures Marshalled(h, entropy).Ok?
  {
    SizeIs(h, entropy);
    SentSize(h, entropy);
  }

  // Every question goes out whole.
  lemma QuestionGoesOut(ctx: Context, version: Word, suites: seq<Word>, entropy: Entropy)
    requires ctx.registry.Valid() && Writable(ctx, version)
    requires Askable(ctx, version, suites)
    ensures Marshalled(Asking(ctx, version, suites), entropy).Ok?
    ensures SizeOf(Asking(ctx, version, suites), entropy) <= 0xffff
  {
    var all := ctx.registry.ForVersion(version);
    ForVersionExact(ctx.registry, version);
    NoMoreThan(suites, all);
    FewerSuites(Asking(ctx, version, all), suites, entropy);
    GoesOut(Asking(ctx, version, suites), entropy);
  }

  // There is room under a host name of ordinary length and a catalogue of ordinary size.
  lemma {:induction false} MarkedAppend(a: seq<Extension>, b: seq<Extension>)
    ensures |MarkedAll(a + b)| == |MarkedAll(a)| + |MarkedAll(b)|
  {
    if a == [] {
      assert a + b == b;
    } else {
      ConsAppend(a, b);
      MarkedAppend(a[1..], b);
    }
  }

  lemma MarkedWhen(present: bool, kind: Word, data: seq<Byte>)
    ensures |MarkedAll(When(present, kind, data))| == if present then 4 + |data| else 0
  {
    var rest: seq<Extension> := [Extension(kind, data)][1..];
    assert rest == [];
  }

  lemma ThreeMarked(a: seq<Extension>, b: seq<Extension>, c: seq<Extension>)
    ensures |MarkedAll(a + b + c)| == |MarkedAll(a)| + |MarkedAll(b)| + |MarkedAll(c)|
  {
    MarkedAppend(a + b, c);
    MarkedAppend(a, b);
  }

  lemma OffersSize(h: ClientHello)
    ensures |MarkedAll(OffersOf(h))| <= |h.serverName| + 2 * |h.supportedGroups| + 24
  {
    ThreeMarked(When(h.serverName != [], SERVER_NAME, ServerNameList(h.serverName)),
                When(h.statusRequest, STATUS_REQUEST, OCSP_REQUEST),
                When(h.supportedGroups != [], SUPPORTED_GROUPS, WordList(h.supportedGroups)));
    MarkedWhen(h.serverName != [], SERVER_NAME, ServerNameList(h.serverName));
    MarkedWhen(h.statusRequest, STATUS_REQUEST, OCSP_REQUEST);
    MarkedWhen(h.supportedGroups != [], SUPPORTED_GROUPS, WordList(h.supportedGroups));
  }

  lemma FormatsSize(h: ClientHello)
    ensures |MarkedAll(FormatsOf(h))| <= 2 * |h.signatureAlgorithms| + 12
  {
    MarkedAppend(When(h.ecPointFormats, EC_POINT_FORMATS, [1, 0]),
                 When(h.signatureAlgorithms != [], SIGNATURE_ALGORITHMS, WordList(h.signatureAlgorithms)));
    MarkedWhen(h.ecPointFormats, EC_POINT_FORMATS, [1, 0]);
    MarkedWhen(h.signatureAlgorithms != [], SIGNATURE_ALGORITHMS, WordList(h.signatureAlgorithms));
  }

  lemma FlagsSize(h: ClientHello)
    ensures |MarkedAll(FlagsOf(h))| <= 13
  {
    ThreeMarked(When(h.extendedMasterSecret, EXTENDED_MASTER_SECRET, []),
                When(h.sessionTicket, SESSION_TICKET, []),
                When(h.renegotiationInfo, RENEGOTIATION_INFO, [0]));
    MarkedWhen(h.extendedMasterSecret, EXTENDED_MASTER_SECRET, []);
    MarkedWhen(h.sessionTicket, SESSION_TICKET, []);
    MarkedWhen(h.renegotiationInfo, RENEGOTIATION_INFO, [0]);
  }

  lemma Tls13Size(h: ClientHello, entropy: Entropy)
    ensures |MarkedAll(Tls13Of(h, entropy))| <= 2 * |h.supportedVersions| + 154
  {
    var versions, shares := h.supportedVersions != [], h.keyShareGroup != 0 || h.supportedVersions != [];
    ThreeMarked(When(versions, SUPPORTED_VERSIONS, VersionList(h.supportedVersions)),
                When(versions, PSK_KEY_EXCHANGE_MODES, [1, 1]),
                When(shares, KEY_SHARE, ShareOffered(h, entropy)));
    MarkedWhen(versions, SUPPORTED_VERSIONS, VersionList(h.supportedVersions));
    MarkedWhen(versions, PSK_KEY_EXCHANGE_MODES, [1, 1]);
    MarkedWhen(shares, KEY_SHARE, ShareOffered(h, entropy));
  }

  lemma ExtensionsSize(h: ClientHello, entropy: Entropy)
    ensures |MarkedAll(ExtensionsOf(h, entropy))|
      <= |h.serverName| + 2 * |h.supportedGroups| + 2 * |h.signatureAlgorithms| + 2 * |h.supportedVersions| + 203
  {
    ThreeMarked(OffersOf(h), FormatsOf(h), FlagsOf(h));
    MarkedAppend(OffersOf(h) + FormatsOf(h) + FlagsOf(h), Tls13Of(h, entropy));
    OffersSize(h);
    FormatsSize(h);
    FlagsSize(h);
    Tls13Size(h, entropy);
  }

  lemma UsuallyWritable(ctx: Context, version: Word)
    requires |ctx.settings.serverName| <= 0xff && |ctx.registry.ForVersion(version)| <= 0x7000
    ensures Writable(ctx, version)
  {
    var h := Asking(ctx, version, ctx.registry.ForVersion(version));
    forall entropy ensures SizeOf(h, entropy) <= 0xffff {
      ExtensionsSize(h, entropy);
      SizeIs(h, entropy);
    }
  }

  // What a server reads out of a question is what was asked.
  lemma QuestionHeard(ctx: Context, version: Word, suites: seq<Word>, entropy: Entropy)
    requires ctx.registry.Valid() && version <= VERSION_TLS13 && Writable(ctx, version)
    requires Askable(ctx, version, suites)
    ensures var h := Asking(ctx, version, suites);
      && Marshalled(h, entropy).Ok?
      && Says(h, entropy)
      && Asks(Marshalled(h, entropy).value, version)
      && HelloIn(Marshalled(h, entropy).value).value.cipherSuites == suites
  {
    QuestionGoesOut(ctx, version, suites, entropy);
    SaysExactly(Asking(ctx, version, suites), entropy);
  }

  // Every probe starts from the same hello. Below TLS 1.3 it carries extended_master_secret
  // and renegotiation_info, and at TLS 1.3 instead its version, psk_dhe_ke and a share for
  // X25519; at both a request for OCSP, the point format, and the groups and algorithms of
  // an ordinary client; and it never carries a ticket.
  ghost predicate Ordinary(fields: ClientFields, name: seq<Byte>, version: Word, public: seq<Byte>) {
    && fields.legacyVersion == (if version < 0x0304 then version else 0x0303)
    && fields.compressionMethods == [0]
    && OrdinaryLists(fields.extensions, name)
    && OrdinaryFlags(fields.extensions, version)
    && OrdinaryVersion(fields.extensions, version, public)
  }

  ghost predicate OrdinaryLists(extensions: seq<Extension>, name: seq<Byte>) {
    && Reads(Found(extensions, 0), NameIn, name != [], name)
    && Reads(Found(extensions, 10), TakeWords, true, [29, 23, 24, 25, 256, 257, 258])
    && Reads(Found(extensions, 13), TakeWords, true,
             [0x0403, 0x0503, 0x0603, 0x0804, 0x0805, 0x0806, 0x0401, 0x0501, 0x0601, 0x0203, 0x0201])
  }

  predicate OrdinaryFlags(extensions: seq<Extension>, version: Word) {
    && Found(extensions, 5) == Some([1, 0, 0, 0, 0]) && Found(extensions, 11) == Some([1, 0])
    && Found(extensions, 35) == None
    && Carried(extensions, 23, version < 0x0304, [])
    && Carried(extensions, 0xff01, version < 0x0304, [0])
    && Carried(extensions, 45, version >= 0x0304, [1, 1])
  }

  ghost predicate OrdinaryVersion(extensions: seq<Extension>, version: Word, public: seq<Byte>) {
    && Reads(Found(extensions, 43), VersionsIn, version >= 0x0304, [0x0304])
    && (if version >= 0x0304 then Reads(Found(extensions, 51), ShareIn, true, (29, public))
        else Found(extensions, 51) == None)
  }

  lemma QuestionIsOrdinary(ctx: Context, version: Word, suites: seq<Word>, entropy: Entropy)
    requires ctx.registry.Valid() && version <= VERSION_TLS13 && Writable(ctx, version)
    requires Askable(ctx, version, suites)
    ensures var h := Asking(ctx, version, suites);
      && Marshalled(h, entropy).Ok? && HelloIn(Marshalled(h, entropy).value).Some?
      && Ordinary(HelloIn(Marshalled(h, entropy).value).value, ctx.settings.serverName, version,
                  entropy.share(GROUP_X25519))
  {
    QuestionHeard(ctx, version, suites, entropy);
    var h := Asking(ctx, version, suites);
    SaidIsOrdinary(h, entropy, HelloIn(Marshalled(h, entropy).value).value, ctx.settings.serverName, version, suites);
  }

  lemma SaidIsOrdinary(
    h: ClientHello, entropy: Entropy, fields: ClientFields, name: seq<Byte>, version: Word, suites: seq<Word>)
    requires h == BaseHello(name, version, suites) && FieldsSay(h, entropy, fields)
    ensures Ordinary(fields, name, version, entropy.share(GROUP_X25519))
  {
    ListsAreOrdinary(h, entropy, fields.extensions, name, version, suites);
    VersionIsOrdinary(h, entropy, fields.extensions, name, version, suites);
  }

  lemma ListsAreOrdinary(
    h: ClientHello, entropy: Entropy, extensions: seq<Extension>, name: seq<Byte>, version: Word, suites: seq<Word>)
    requires h == BaseHello(name, version, suites) && ListsSay(h, entropy, extensions)
    ensures OrdinaryLists(extensions, name)
  {
    assert h.supportedGroups == [29, 23, 24, 25, 256, 257, 258];
  }

  lemma VersionIsOrdinary(
    h: ClientHello, entropy: Entropy, extensions: seq<Extension>, name: seq<Byte>, version: Word, suites: seq<Word>)
    requires h == BaseHello(name, version, suites) && ListsSay(h, entropy, extensions)
    ensures OrdinaryVersion(extensions, version, entropy.share(GROUP_X25519))
  {
  }

  // --- What it sends back -------------------------------------------------------------------

  // A speech goes by a ranking: its best suite at the version asked, or a refusal when it
  // ranks nothing.
  ghost predicate GoesBy(speech: Speech, version: Word, ranking: seq<Word>, finiteField: FiniteFieldResolver) {
    && speech.Valid(finiteField)
    && (speech.Refusing? <==> ranking == [])
    && (!speech.Refusing? ==>
      && speech.Greeting? == (version >= VERSION_TLS13)
      && Meaning(HelloSaid(speech)).version == version
      && HelloSaid(speech).cipherSuite == ranking[0])
  }

  function HelloSaid(speech: Speech): Fields
    requires !speech.Refusing?
  {
    if speech.Speaking? then speech.flight.hello else speech.hello
  }

  ghost predicate Replies(
    connection: Connection, version: Word, ranking: seq<Word>, finiteField: FiniteFieldResolver)
  {
    exists speech: Speech, k: nat ::
      && Carrying(connection, k, speech, finiteField)
      && GoesBy(speech, version, ranking, finiteField)
      && HelloInTime(connection.arrivals[..k], speech, finiteField)
  }

  // Whatever hello of the version arrives, on whatever connection.
  ghost predicate Serves(wire: Wire, registry: Registry, version: Word, rule: Rule) {
    forall n: nat, bytes: seq<Byte> :: Asks(bytes, version) ==>
      Replies(wire.server(n, bytes), version, rule.Ranking(HelloIn(bytes).value.cipherSuites), Resolver(registry))
  }

  // --- There are such servers -----------------------------------------------------------------

  // What a server says to the fields of a hello, connection by connection.
  type Manner = (nat, ClientFields) -> Speech

  ghost predicate SpeaksLike(wire: Wire, finiteField: FiniteFieldResolver, manner: Manner) {
    forall n: nat, bytes: seq<Byte> :: HelloIn(bytes).Some? ==>
      SaysWhole(wire.server(n, bytes), manner(n, HelloIn(bytes).value), finiteField)
  }

  // For any manner there is a server: one that says what it has to say in a single read.
  function Reciting(manner: Manner, n: nat, bytes: seq<Byte>): Connection {
    if HelloIn(bytes).None? then Opened([]) else Opened([Read(Spoken(manner(n, HelloIn(bytes).value)), false)])
  }

  function Reciter(entropy: nat -> Entropy, manner: Manner): Wire {
    Wire(entropy, (n: nat, bytes: seq<Byte>) => Reciting(manner, n, bytes))
  }

  lemma SomeServerSpeaks(entropy: nat -> Entropy, finiteField: FiniteFieldResolver, manner: Manner)
    requires forall n: nat, fields: ClientFields :: manner(n, fields).Valid(finiteField)
    ensures SpeaksLike(Reciter(entropy, manner), finiteField, manner)
  {
    forall n: nat, bytes: seq<Byte> | HelloIn(bytes).Some?
      ensures SaysWhole(Reciter(entropy, manner).server(n, bytes), manner(n, HelloIn(bytes).value), finiteField)
    {
      SaidAtOnce(manner(n, HelloIn(bytes).value), finiteField);
      assert Reciter(entropy, manner).server(n, bytes) == Reciting(manner, n, bytes);
    }
  }

  // The shortest answers: the hello and nothing more than has to follow it, in one record.
  function BareHello(version: Word, suite: Word): (hello: Fields)
    ensures WellFormed(hello)
  {
    assert |PutExtensions([Stated(version)])| == 6 by {
      PutExtensionsCons(Stated(version), []);
      assert [Stated(version)] + [] == [Stated(version)];
    }
    if version < VERSION_TLS13 then Fields(version, seq(32, _ => 0), [], suite, 0, None)
    else Fields(VERSION_TLS12, seq(32, _ => 0), [], suite, 0, Some([Stated(version)]))
  }

  function Stated(version: Word): Extension {
    Extension(SUPPORTED_VERSIONS, PutUint16(version))
  }

  lemma BareHelloMeans(version: Word, suite: Word)
    ensures Meaning(BareHello(version, suite)).version == version
    ensures !Meaning(BareHello(version, suite)).isHelloRetryRequest
    ensures |Put(BareHello(version, suite))| <= 46
  {
    assert BareHello(version, suite).random[0] != HELLO_RETRY_REQUEST_RANDOM[0];
    if version >= VERSION_TLS13 {
      BareTable(version);
      PutExtensionsCons(Stated(version), []);
      assert [Stated(version)] + [] == [Stated(version)];
    }
  }

  lemma BareTable(version: Word)
    ensures Leading(Table([Stated(version)]), SUPPORTED_VERSIONS) == Some(version)
  {
    LeadingOfLast([Stated(version)], SUPPORTED_VERSIONS);
    assert LastOfKind([Stated(version)], SUPPORTED_VERSIONS, 0);
  }

  function BareFlight(version: Word, suite: Word): ServerFlight {
    ServerFlight(BareHello(version, suite), None, None, None, [])
  }

  ghost predicate IsDone(done: Message) {
    done.kind == SERVER_HELLO_DONE && |done.body| < 0x1000
  }

  lemma EncodeOne(m: Message)
    ensures |Encode(m)| == 4 + |m.body|
    ensures |EncodeAll([m])| == 4 + |m.body|
  {
    var rest: seq<Message> := [m][1..];
    assert rest == [];
  }

  // Any flight short enough for one record can be sent in one.
  ghost predicate Short(flight: ServerFlight, finiteField: FiniteFieldResolver) {
    && PlainFlight(flight, finiteField)
    && (forall m :: m in Front(flight) ==> Sendable(m))
    && |EncodeAll(Front(flight))| < 0x1000
  }

  function InOneRecord(flight: ServerFlight, done: Message, finiteField: FiniteFieldResolver): (speech: Speech)
    requires Short(flight, finiteField) && IsDone(done)
    ensures speech.Valid(finiteField) && speech.Speaking? && speech.flight == flight
  {
    EncodeOne(done);
    var record := Record(HANDSHAKE, flight.hello.legacyVersion, EncodeAll(Front(flight)) + Encode(done));
    OneRecordCarries(flight, done, record, finiteField);
    Speaking(flight, done, [record])
  }

  lemma OnlyRecord(record: seq<Byte>)
    requires RecordLayer.IsFrame(record) && record[0] == HANDSHAKE && Payload(record) != []
    ensures AllFrames(RecordLayer, [record]) && HandshakeBytes([record]) == Payload(record)
    ensures FirstAlert([record]) == None && OfKind(APPLICATION_DATA, [record]) == []
    ensures Prompt([record])
  {
    var rest: seq<seq<Byte>> := [record][1..];
    assert rest == [];
    assert [record][..1] == [record];
    assert RecordsFor(rest, 0) == 0;
  }

  lemma OneRecordCarries(flight: ServerFlight, done: Message, record: seq<Byte>, finiteField: FiniteFieldResolver)
    requires PlainFlight(flight, finiteField) && (forall m :: m in Front(flight) ==> Sendable(m)) && IsDone(done)
    requires RecordLayer.IsFrame(record) && record[0] == HANDSHAKE
    requires Payload(record) == EncodeAll(Front(flight)) + Encode(done)
    ensures Speaking(flight, done, [record]).Valid(finiteField)
  {
    EncodeOne(done);
    OnlyRecord(record);
    FrontEndsNothing(flight, finiteField);
  }

  lemma BareIsShort(version: Word, suite: Word, finiteField: FiniteFieldResolver)
    requires version < VERSION_TLS13
    ensures Short(BareFlight(version, suite), finiteField)
  {
    BareHelloMeans(version, suite);
    var m := HelloMessage(BareFlight(version, suite));
    assert Front(BareFlight(version, suite)) == [m];
    EncodeOne(m);
  }

  function BareGreeting(version: Word, suite: Word, finiteField: FiniteFieldResolver): (speech: Speech)
    requires version >= VERSION_TLS13
    ensures speech.Valid(finiteField) && speech.Greeting? && speech.hello == BareHello(version, suite)
  {
    var hello := BareHello(version, suite);
    var m := Message(SERVER_HELLO, Put(hello));
    BareHelloMeans(version, suite);
    EncodeOne(m);
    var record := Record(HANDSHAKE, VERSION_TLS12, Encode(m));
    GreetingEnds(hello);
    LastAlone(m, record);
    Greeting(hello, [record])
  }

  lemma LastAlone(last: Message, record: seq<Byte>)
    requires Ends(last) && |last.body| < 0x1000
    requires RecordLayer.IsFrame(record) && record[0] == HANDSHAKE && Payload(record) == Encode(last)
    ensures Carries([record], [], last) && Prompt([record]) && NotFatal([record])
  {
    EncodeOne(last);
    OnlyRecord(record);
    assert EncodeAll([]) + Encode(last) == Encode(last);
  }

  lemma GreetingEnds(hello: Fields)
    requires WellFormed(hello) && Meaning(hello).version >= VERSION_TLS13
    ensures Ends(Message(SERVER_HELLO, Put(hello)))
  {
    HelloReadBack(hello);
  }

  // Refusing, or naming the best suite and nothing more.
  function BareSpeech(version: Word, ranking: seq<Word>, done: Message, finiteField: FiniteFieldResolver)
    : (speech: Speech)
    requires IsDone(done)
    ensures GoesBy(speech, version, ranking, finiteField)
  {
    if ranking == [] then Refusing(version, 40) else
    BareHelloMeans(version, ranking[0]);
    if version >= VERSION_TLS13 then BareGreeting(version, ranking[0], finiteField) else
    BareIsShort(version, ranking[0], finiteField);
    InOneRecord(BareFlight(version, ranking[0]), done, finiteField)
  }

  // A server with a rule for every version, as terse as can be.
  function Terse(rules: Word -> Rule, done: Message, finiteField: FiniteFieldResolver): Manner
    requires IsDone(done)
  {
    (n: nat, fields: ClientFields) =>
      var version := VersionAsked(fields);
      BareSpeech(version, rules(version).Ranking(fields.cipherSuites), done, finiteField)
  }

  function TerseWire(entropy: nat -> Entropy, registry: Registry, rules: Word -> Rule, done: Message): Wire
    requires IsDone(done)
  {
    Reciter(entropy, Terse(rules, done, Resolver(registry)))
  }

  lemma SomeServerServes(
    entropy: nat -> Entropy, registry: Registry, rules: Word -> Rule, done: Message, version: Word)
    requires IsDone(done)
    ensures Serves(TerseWire(entropy, registry, rules, done), registry, version, rules(version))
  {
    var finiteField := Resolver(registry);
    var manner, wire := Terse(rules, done, finiteField), TerseWire(entropy, registry, rules, done);
    forall n: nat, fields: ClientFields ensures manner(n, fields).Valid(finiteField) {
      var asked := VersionAsked(fields);
      assert manner(n, fields) == BareSpeech(asked, rules(asked).Ranking(fields.cipherSuites), done, finiteField);
    }
    SomeServerSpeaks(entropy, finiteField, manner);
    forall n: nat, bytes: seq<Byte> | Asks(bytes, version)
      ensures Replies(wire.server(n, bytes), version, rules(version).Ranking(HelloIn(bytes).value.cipherSuites),
                      finiteField)
    {
      var connection, speech := wire.server(n, bytes), manner(n, HelloIn(bytes).value);
      var k: nat :|
        && Carrying(connection, k, speech, finiteField)
        && AllInTime(connection.arrivals[..k], speech, finiteField);
      HelloIsInTime(connection.arrivals[..k], speech, finiteField);
    }
  }

  // --- How that is heard --------------------------------------------------------------------

  // A connection whose speech goes by a ranking is heard as choosing by it if and only if
  // the read that stops the loop brings the hello.
  lemma ChoosesExactly(
    connection: Connection, k: nat, speech: Speech, version: Word, ranking: seq<Word>,
    finiteField: FiniteFieldResolver)
    requires Carrying(connection, k, speech, finiteField) && GoesBy(speech, version, ranking, finiteField)
    ensures var answer := Answer(connection.arrivals, finiteField);
      && answer.Ok?
      && (Chooses(Heard(answer.value), version, ranking)
          <==> HelloInTime(connection.arrivals[..k], speech, finiteField))
      && (!HelloInTime(connection.arrivals[..k], speech, finiteField) ==>
        answer.value.serverHello.None? && !answer.value.Refused())
  {
    if HelloInTime(connection.arrivals[..k], speech, finiteField) {
      ChoiceHeard(connection, k, speech, version, ranking, finiteField);
    } else {
      StifledHeard(connection, speech, finiteField);
    }
  }

  lemma ChoiceHeard(
    connection: Connection, k: nat, speech: Speech, version: Word, ranking: seq<Word>,
    finiteField: FiniteFieldResolver)
    requires Carrying(connection, k, speech, finiteField) && GoesBy(speech, version, ranking, finiteField)
    requires HelloInTime(connection.arrivals[..k], speech, finiteField)
    ensures var answer := Answer(connection.arrivals, finiteField);
      answer.Ok? && Chooses(Heard(answer.value), version, ranking)
  {
    var whole, more := connection.arrivals[..k], connection.arrivals[k..];
    SplitAt(connection.arrivals, k);
    match speech
    case Refusing(_, _) => RefusalHeard(speech, whole, more, finiteField);
    case Speaking(_, _, _) =>
      SpeakingHeard(speech, whole, more, finiteField);
      HelloKeepsSuite(HelloSaid(speech));
    case Greeting(_, _) =>
      GreetingHeard(speech, whole, more, finiteField);
      HelloKeepsSuite(HelloSaid(speech));
  }

  lemma HelloKeepsSuite(fields: Fields)
    ensures Meaning(fields).cipherSuite == fields.cipherSuite
  {
  }

  lemma ReplyHeard(
    connection: Connection, version: Word, ranking: seq<Word>, finiteField: FiniteFieldResolver)
    requires Replies(connection, version, ranking, finiteField)
    ensures connection.Opened?
    ensures var answer := Answer(connection.arrivals, finiteField);
      answer.Ok? && Chooses(Heard(answer.value), version, ranking)
  {
    var speech: Speech, k: nat :|
      && Carrying(connection, k, speech, finiteField)
      && GoesBy(speech, version, ranking, finiteField)
      && HelloInTime(connection.arrivals[..k], speech, finiteField);
    ChoosesExactly(connection, k, speech, version, ranking, finiteField);
  }

  // A server that goes by a rule, byte for byte, is one that follows it as the probes see
  // it.
  lemma ServerFollows(wire: Wire, settings: Settings, registry: Registry, version: Word, rule: Rule)
    requires registry.Valid() && version <= VERSION_TLS13
    requires Writable(Over(wire, settings, registry), version)
    requires Serves(wire, registry, version, rule)
    ensures Follows(Over(wire, settings, registry), version, rule)
  {
    var ctx := Over(wire, settings, registry);
    forall n: nat, suites | Askable(ctx, version, suites)
      ensures Chooses(ctx.reply(n, Asking(ctx, version, suites)), version, rule.Ranking(suites))
    {
      QuestionAnswered(wire, settings, registry, version, rule, n, suites);
    }
  }

  lemma QuestionAnswered(
    wire: Wire, settings: Settings, registry: Registry, version: Word, rule: Rule, n: nat, suites: seq<Word>)
    requires registry.Valid() && version <= VERSION_TLS13
    requires Writable(Over(wire, settings, registry), version)
    requires Serves(wire, registry, version, rule)
    requires Askable(Over(wire, settings, registry), version, suites)
    ensures var ctx := Over(wire, settings, registry);
      Chooses(ctx.reply(n, Asking(ctx, version, suites)), version, rule.Ranking(suites))
  {
    var ctx := Over(wire, settings, registry);
    var hello := Asking(ctx, version, suites);
    QuestionHeard(ctx, version, suites, wire.entropy(n));
    ReplyHeard(ConnectionOf(wire, n, hello), version, rule.Ranking(suites), Resolver(registry));
    ReplyIs(wire, settings, registry, n, hello);
  }

  // --- A server whose warning comes first -----------------------------------------------------

  // On this connection the server goes by the ranking, but its warning stops the reading
  // before the hello is in.
  ghost predicate Hushes(
    connection: Connection, version: Word, ranking: seq<Word>, finiteField: FiniteFieldResolver)
  {
    exists speech: Speech ::
      Stifles(connection, speech, finiteField) && GoesBy(speech, version, ranking, finiteField)
  }

  // Whatever a server has to say, a warning in a read of its own ahead of it is enough.
  function Warning(version: Word, description: Byte): seq<Byte> {
    Record(ALERT, version, [1, description])
  }

  lemma WarningStifles(speech: Speech, version: Word, description: Byte, finiteField: FiniteFieldResolver)
    requires speech.Speaking? && speech.Valid(finiteField) && FirstAlert(speech.records).None?
    ensures var warning := Warning(version, description);
      Stifles(Opened([Read(warning, false), Read(Spoken(speech), false)]),
              Speaking(speech.flight, speech.done, [warning] + speech.records), finiteField)
  {
    var warning := Warning(version, description);
    var warned := Speaking(speech.flight, speech.done, [warning] + speech.records);
    var arrivals := [Read(warning, false), Read(Spoken(speech), false)];
    OneRead(Spoken(speech));
    assert arrivals == [Read(warning, false)] + [Read(Spoken(speech), false)];
    WarningArrives(speech.flight, speech.done, speech.records, warning, [Read(Spoken(speech), false)], finiteField);
    assert arrivals[..2] == arrivals;
    assert Carrying(Opened(arrivals), 2, warned, finiteField);
  }

  lemma SomeServerHushes(
    version: Word, ranking: seq<Word>, done: Message, description: Byte, finiteField: FiniteFieldResolver)
    requires version < VERSION_TLS13 && ranking != [] && IsDone(done)
    ensures var speech := BareSpeech(version, ranking, done, finiteField);
      Hushes(Opened([Read(Warning(version, description), false), Read(Spoken(speech), false)]),
             version, ranking, finiteField)
  {
    var speech := BareSpeech(version, ranking, done, finiteField);
    OnlyRecord(speech.records[0]);
    WarningStifles(speech, version, description, finiteField);
    var warned := Speaking(speech.flight, speech.done, [Warning(version, description)] + speech.records);
    assert GoesBy(warned, version, ranking, finiteField);
  }

  lemma StifledReply(
    wire: Wire, settings: Settings, registry: Registry, n: nat, hello: ClientHello, speech: Speech)
    requires Marshalled(hello, wire.entropy(n)).Ok?
    requires Stifles(ConnectionOf(wire, n, hello), speech, Resolver(registry))
    ensures Unheard(Over(wire, settings, registry).reply(n, hello))
  {
    StifledHeard(ConnectionOf(wire, n, hello), speech, Resolver(registry));
    ReplyIs(wire, settings, registry, n, hello);
  }

  lemma HushedReply(
    wire: Wire, settings: Settings, registry: Registry, version: Word, ranking: seq<Word>, n: nat, suites: seq<Word>)
    requires Marshalled(Asking(Over(wire, settings, registry), version, suites), wire.entropy(n)).Ok?
    requires Hushes(ConnectionOf(wire, n, Asking(Over(wire, settings, registry), version, suites)), version, ranking,
                    Resolver(registry))
    ensures Unheard(Over(wire, settings, registry).reply(n, Asking(Over(wire, settings, registry), version, suites)))
  {
    var hello := Asking(Over(wire, settings, registry), version, suites);
    var speech: Speech :|
      && Stifles(ConnectionOf(wire, n, hello), speech, Resolver(registry))
      && GoesBy(speech, version, ranking, Resolver(registry));
    StifledReply(wire, settings, registry, n, hello, speech);
  }

  // What an enumeration makes of such an answer: it takes it for the end of what the server
  // accepts. Whatever the server picked of what remained is missing from the list, the
  // list is called complete, and nothing is noted.
  lemma HushedEnumeration(
    wire: Wire, settings: Settings, registry: Registry, version: Word, ranking: seq<Word>,
    w: World, remaining: seq<Word>, accepted: seq<Word>)
    requires registry.Valid() && Writable(Over(wire, settings, registry), version)
    requires Askable(Over(wire, settings, registry), version, remaining)
    requires Marshalled(Asking(Over(wire, settings, registry), version, remaining), wire.entropy(w.spent + 1)).Ok?
    requires Hushes(ConnectionOf(wire, w.spent + 1, Asking(Over(wire, settings, registry), version, remaining)),
                    version, ranking, Resolver(registry))
    requires settings.retryLimit >= 0 && w.spent + 1 <= settings.maxConnections
    ensures Rounds(Over(wire, settings, registry), w, version, remaining, accepted)
      == (accepted, true, remaining, Spent(w, 1))
  {
    var ctx := Over(wire, settings, registry);
    HushedReply(wire, settings, registry, version, ranking, w.spent + 1, remaining);
    RoundUnheard(ctx, w, version, remaining, accepted);
  }

  // And where it is the first answer at a version, the version is taken for one the server
  // does not speak, with no alert and nothing noted.
  lemma HushedVersion(
    wire: Wire, settings: Settings, registry: Registry, version: Word, ranking: seq<Word>, w: World)
    requires registry.Valid() && Writable(Over(wire, settings, registry), version)
    requires registry.ForVersion(version) != []
    requires Marshalled(Asking(Over(wire, settings, registry), version, registry.ForVersion(version)),
                        wire.entropy(w.spent + 1)).Ok?
    requires Hushes(
      ConnectionOf(wire, w.spent + 1, Asking(Over(wire, settings, registry), version, registry.ForVersion(version))),
      version, ranking, Resolver(registry))
    requires settings.retryLimit >= 0 && w.spent + 1 <= settings.maxConnections
    ensures VersionProbe(Over(wire, settings, registry), w, version) == (Unprobed(version), Spent(w, 1))
    ensures !Unprobed(version).accepted
  {
    var ctx, offer := Over(wire, settings, registry), registry.ForVersion(version);
    ForVersionExact(registry, version);
    HushedReply(wire, settings, registry, version, ranking, w.spent + 1, offer);
    VersionUnheard(ctx, w, version);
  }

  // --- What is found ------------------------------------------------------------------------------

  // At every version, TLS 1.3 too: against a server described by its bytes alone, the suites
  // it accepts are found exactly, best first and complete.
  lemma EnumeratedFromBytes(
    wire: Wire, settings: Settings, registry: Registry, version: Word, rule: Rule, w: World)
    requires registry.Valid() && Distinct(rule.list) && version <= VERSION_TLS13
    requires Writable(Over(wire, settings, registry), version) && Serves(wire, registry, version, rule)
    requires settings.retryLimit >= 0 && registry.ForVersion(version) != []
    requires w.spent + RoundsNeeded(rule, registry.ForVersion(version)) <= settings.maxConnections
    ensures var (v, w') := VersionProbe(Over(wire, settings, registry), w, version);
      && v.cipherSuites == rule.Ranking(registry.ForVersion(version))
      && (v.accepted <==> exists id :: id in registry.ForVersion(version) && id in rule.list)
      && (v.accepted ==> v.cipherSuitesComplete)
      && w'.incomplete == w.incomplete
      && w'.spent == w.spent + RoundsNeeded(rule, registry.ForVersion(version))
  {
    ServerFollows(wire, settings, registry, version, rule);
    VersionProbeExact(Over(wire, settings, registry), w, version, rule);
  }

  // From bytes to verdict: against a server described by its bytes alone, the suites it
  // accepts are found exactly, best first, and its own order, or its having none, is
  // reported for what it is.
  lemma FoundFromBytes(
    wire: Wire, settings: Settings, registry: Registry, version: Word, rule: Rule, w: World, others: seq<Version>)
    requires registry.Valid() && Distinct(rule.list) && version < VERSION_TLS13
    requires Writable(Over(wire, settings, registry), version)
    requires Serves(wire, registry, version, rule)
    requires settings.retryLimit >= 0 && |rule.Ranking(registry.ForVersion(version))| >= 2
    requires w.spent + RoundsNeeded(rule, registry.ForVersion(version)) + 2 <= settings.maxConnections
    requires forall other :: other in others ==> other.version < version || other.version >= VERSION_TLS13
    ensures var ctx := Over(wire, settings, registry);
      var (v, w1) := VersionProbe(ctx, w, version);
      var (order, w2) := OrderProbe(ctx, w1, others + [v]);
      && v.accepted && v.cipherSuitesComplete
      && v.cipherSuites == rule.Ranking(registry.ForVersion(version))
      && order.serverEnforces == Some(rule.OwnOrder?)
      && (order.violation.Some? <==> rule.OwnOrder? && !InPolicyOrder(registry, v.cipherSuites))
      && w2.incomplete == w.incomplete
  {
    var ctx := Over(wire, settings, registry);
    ServerFollows(wire, settings, registry, version, rule);
    var offer := registry.ForVersion(version);
    assert ctx.registry == registry && ctx.settings == settings;
    if offer == [] {
      NothingToRank(rule);
    }
    VersionProbeExact(ctx, w, version, rule);
    EndToEnd(ctx, w, version, rule, others);
  }

  // The cost is not the accepted suites plus one against a server that accepts everything
  // it is offered: the last question is not asked.
  lemma AcceptingEverythingCostsOneLess(
    entropy: nat -> Entropy, settings: Settings, registry: Registry, version: Word, done: Message, w: World)
    requires registry.Valid() && version <= VERSION_TLS13 && IsDone(done)
    requires registry.ForVersion(version) != []
    requires settings.retryLimit >= 0 && w.spent + |registry.ForVersion(version)| <= settings.maxConnections
    requires Writable(Over(Yielding(entropy, registry, version, done), settings, registry), version)
    ensures var offer := registry.ForVersion(version);
      var (v, w') := VersionProbe(Over(Yielding(entropy, registry, version, done), settings, registry), w, version);
      v.cipherSuites == offer && w'.spent == w.spent + |v.cipherSuites|
  {
    var offer, rules := registry.ForVersion(version), Everything(registry, version);
    var wire := Yielding(entropy, registry, version, done);
    ForVersionExact(registry, version);
    SomeServerServes(entropy, registry, rules, done, version);
    assert rules(version) == ClientOrder(offer);
    ServerFollows(wire, settings, registry, version, ClientOrder(offer));
    RankingSize(ClientOrder(offer), offer);
    RestrictAll(offer, offer);
    VersionProbeExact(Over(wire, settings, registry), w, version, ClientOrder(offer));
  }

  function Everything(registry: Registry, version: Word): Word -> Rule {
    (_: Word) => ClientOrder(registry.ForVersion(version))
  }

  function Yielding(entropy: nat -> Entropy, registry: Registry, version: Word, done: Message): Wire
    requires IsDone(done)
  {
    TerseWire(entropy, registry, Everything(registry, version), done)
  }

  // A server that answers with another version than it was asked for is reported as not
  // speaking the one it was asked for: without suites, for one connection, with nothing
  // noted.
  lemma OtherVersionDeclined(wire: Wire, ctx: Context, version: Word, w: World, speech: Speech, k: nat)
    requires ctx == Over(wire, ctx.settings, ctx.registry) && ctx.registry.ForVersion(version) != []
    requires ctx.settings.retryLimit >= 0 && w.spent + 1 <= ctx.settings.maxConnections
    requires Marshalled(FirstHello(ctx, version), wire.entropy(w.spent + 1)).Ok?
    requires Carrying(ConnectionOf(wire, w.spent + 1, FirstHello(ctx, version)), k, speech, Resolver(ctx.registry))
    requires !speech.Refusing? && Meaning(HelloSaid(speech)).version != version
    ensures var (v, w') := VersionProbe(ctx, w, version);
      && !v.accepted && v.attempted && v.cipherSuites == [] && v.alertDescription.None? && !v.transportError
      && w' == Spent(w, 1)
  {
    var flight := FirstHeard(wire, ctx, version, w, speech, k);
    AskAnswered(ctx, w, FirstHello(ctx, version));
    AcceptedExactly(ctx, w, version, flight, Spent(w, 1));
  }

  // What is heard of a speech, in time or not: no refusal, and at most its hello.
  lemma FirstHeard(wire: Wire, ctx: Context, version: Word, w: World, speech: Speech, k: nat) returns (flight: Flight)
    requires ctx == Over(wire, ctx.settings, ctx.registry)
    requires Marshalled(FirstHello(ctx, version), wire.entropy(w.spent + 1)).Ok?
    requires Carrying(ConnectionOf(wire, w.spent + 1, FirstHello(ctx, version)), k, speech, Resolver(ctx.registry))
    requires !speech.Refusing?
    ensures ctx.reply(w.spent + 1, FirstHello(ctx, version)) == Heard(flight)
    ensures !flight.Refused()
    ensures flight.serverHello.Some? ==> flight.serverHello.value == Meaning(HelloSaid(speech))
  {
    var connection, finiteField := ConnectionOf(wire, w.spent + 1, FirstHello(ctx, version)), Resolver(ctx.registry);
    SpeechHello(connection, k, speech, finiteField);
    flight := Answer(connection.arrivals, finiteField).value;
    ReplyIs(wire, ctx.settings, ctx.registry, w.spent + 1, FirstHello(ctx, version));
  }

  lemma SpeechHello(connection: Connection, k: nat, speech: Speech, finiteField: FiniteFieldResolver)
    requires Carrying(connection, k, speech, finiteField) && !speech.Refusing?
    ensures var answer := Answer(connection.arrivals, finiteField);
      && answer.Ok? && !answer.value.Refused()
      && (answer.value.serverHello.Some? ==> answer.value.serverHello.value == Meaning(HelloSaid(speech)))
  {
    SplitAt(connection.arrivals, k);
    if speech.Speaking? {
      SpeakingHeard(speech, connection.arrivals[..k], connection.arrivals[k..], finiteField);
    } else {
      GreetingHeard(speech, connection.arrivals[..k], connection.arrivals[k..], finiteField);
    }
  }

  // A refusal is reported as one, with the description it gave.
  lemma RefusalReported(wire: Wire, ctx: Context, version: Word, w: World, speech: Speech, k: nat)
    requires ctx == Over(wire, ctx.settings, ctx.registry) && ctx.registry.ForVersion(version) != []
    requires ctx.settings.retryLimit >= 0 && w.spent + 1 <= ctx.settings.maxConnections
    requires Marshalled(FirstHello(ctx, version), wire.entropy(w.spent + 1)).Ok?
    requires Carrying(ConnectionOf(wire, w.spent + 1, FirstHello(ctx, version)), k, speech, Resolver(ctx.registry))
    requires speech.Refusing?
    ensures var (v, w') := VersionProbe(ctx, w, version);
      && !v.accepted && v.attempted && v.cipherSuites == [] && v.alertDescription == Some(speech.description)
      && !v.transportError && w' == Spent(w, 1)
  {
    var connection, finiteField := ConnectionOf(wire, w.spent + 1, FirstHello(ctx, version)), Resolver(ctx.registry);
    SplitAt(connection.arrivals, k);
    RefusalHeard(speech, connection.arrivals[..k], connection.arrivals[k..], finiteField);
    ReplyIs(wire, ctx.settings, ctx.registry, w.spent + 1, FirstHello(ctx, version));
    AskAnswered(ctx, w, FirstHello(ctx, version));
    AcceptedExactly(ctx, w, version, Answer(connection.arrivals, finiteField).value, Spent(w, 1));
  }

  // --- What a version result reports ------------------------------------------------------------

  predicate Sends(f: ServerFlight, kind: Word) {
    && f.hello.extensions.Some?
    && exists i :: 0 <= i < |f.hello.extensions.value| && f.hello.extensions.value[i].kind == kind
  }

  // The group, the finite field and the signature algorithm are those of the exchange.
  ghost predicate ReportsExchange(v: Version, x: Option<Exchange>, version: Word) {
    match x
    case None => v.selectedGroup == None && v.finiteField == None && v.signatureAlgorithm == None
    case Some(OverFiniteField(p, g, _, signed)) =>
      && v.selectedGroup == None
      && (v.finiteField.Some? <==> Value(p) != 0)
      && (v.finiteField.Some? ==>
        IsBitLength(Value(p), v.finiteField.value.primeBits) && (v.finiteField.value.generatorIsTwo <==> g == [2]))
      && v.signatureAlgorithm == AlgorithmOf(signed, version)
    case Some(OverCurve(curve, _, signed)) =>
      && v.selectedGroup == Some(curve) && v.finiteField == None
      && v.signatureAlgorithm == AlgorithmOf(signed, version)
  }

  function AlgorithmOf(signed: Option<Signed>, version: Word): Option<Word> {
    if signed.Some? && version >= VERSION_TLS12 then Some(signed.value.algorithm) else None
  }

  // What one flight settles of a version, in terms of the fields the server encoded.
  lemma HelloSettles(f: ServerFlight, version: Word, finiteField: FiniteFieldResolver)
    requires PlainFlight(f, finiteField)
    ensures var v := WithHello(Unprobed(version).(accepted := true), Meaning(f.hello), ReadExchange(f, finiteField));
      && v.extendedMasterSecret == Some(Sends(f, EXTENDED_MASTER_SECRET))
      && v.secureRenegotiation == Some(Sends(f, RENEGOTIATION_INFO))
      && ReportsExchange(v, f.exchange, Meaning(f.hello).version)
  {
    if f.hello.extensions.Some? {
      TableIsLastWins(f.hello.extensions.value, EXTENDED_MASTER_SECRET);
      TableIsLastWins(f.hello.extensions.value, RENEGOTIATION_INFO);
    }
    if f.exchange.Some? {
      ExchangeReadBack(f.exchange.value, Meaning(f.hello).version);
    }
  }

  // The version probe reports the fields of the first flight it is answered with, whatever
  // records and reads bring it, and whatever the enumeration then finds.
  lemma VersionReports(
    wire: Wire, ctx: Context, version: Word, w: World, speech: Speech, k: nat)
    requires ctx == Over(wire, ctx.settings, ctx.registry) && ctx.registry.ForVersion(version) != []
    requires ctx.settings.retryLimit >= 0 && w.spent + 1 <= ctx.settings.maxConnections
    requires Marshalled(FirstHello(ctx, version), wire.entropy(w.spent + 1)).Ok?
    requires var connection := ConnectionOf(wire, w.spent + 1, FirstHello(ctx, version));
      && Carrying(connection, k, speech, Resolver(ctx.registry))
      && AllInTime(connection.arrivals[..k], speech, Resolver(ctx.registry))
    requires speech.Speaking? && Meaning(speech.flight.hello).version == version
    ensures var v := VersionProbe(ctx, w, version).0;
      && v.accepted
      && v.extendedMasterSecret == Some(Sends(speech.flight, EXTENDED_MASTER_SECRET))
      && v.secureRenegotiation == Some(Sends(speech.flight, RENEGOTIATION_INFO))
      && ReportsExchange(v, speech.flight.exchange, version)
  {
    var _ := WholeReply(
      wire, ctx.settings, ctx.registry, w.spent + 1, FirstHello(ctx, version), speech, k);
    ToldSettles(ctx, version, w, speech);
  }

  function FirstHello(ctx: Context, version: Word): ClientHello {
    Asking(ctx, version, ctx.registry.ForVersion(version))
  }

  lemma ToldSettles(ctx: Context, version: Word, w: World, speech: Speech)
    requires ctx.registry.ForVersion(version) != []
    requires ctx.settings.retryLimit >= 0 && w.spent + 1 <= ctx.settings.maxConnections
    requires speech.Speaking? && speech.Valid(Resolver(ctx.registry)) && Meaning(speech.flight.hello).version == version
    requires ctx.reply(w.spent + 1, FirstHello(ctx, version))
      == Heard(Told(speech, Resolver(ctx.registry), AlertOf(speech, Resolver(ctx.registry)), false))
    ensures var v := VersionProbe(ctx, w, version).0;
      && v.accepted
      && v.extendedMasterSecret == Some(Sends(speech.flight, EXTENDED_MASTER_SECRET))
      && v.secureRenegotiation == Some(Sends(speech.flight, RENEGOTIATION_INFO))
      && ReportsExchange(v, speech.flight.exchange, version)
  {
    var finiteField := Resolver(ctx.registry);
    ProbeKeepsHello(ctx, w, version, Told(speech, finiteField, AlertOf(speech, finiteField), false));
    HelloSettles(speech.flight, version, finiteField);
  }

  // The group is the leading one of the last key share extension that was sent.
  ghost predicate ReportsShare(v: Version, f: Fields) {
    if f.extensions.Some? && exists i :: ShareAt(f.extensions.value, i) then
      exists i :: ShareAt(f.extensions.value, i)
        && v.selectedGroup
          == Some(BigEndian16(f.extensions.value[i].data[0], f.extensions.value[i].data[1]))
    else
      v.selectedGroup.None?
  }

  ghost predicate ShareAt(extensions: seq<Extension>, i: int) {
    LastOfKind(extensions, KEY_SHARE, i) && |extensions[i].data| >= 2
  }

  // At TLS 1.3 the hello is all there is to report, and the group is all it settles.
  lemma GreetingReports(
    wire: Wire, ctx: Context, version: Word, w: World, speech: Speech, k: nat)
    requires ctx == Over(wire, ctx.settings, ctx.registry) && ctx.registry.ForVersion(version) != []
    requires ctx.settings.retryLimit >= 0 && w.spent + 1 <= ctx.settings.maxConnections
    requires Marshalled(FirstHello(ctx, version), wire.entropy(w.spent + 1)).Ok?
    requires var connection := ConnectionOf(wire, w.spent + 1, FirstHello(ctx, version));
      && Carrying(connection, k, speech, Resolver(ctx.registry))
      && AllInTime(connection.arrivals[..k], speech, Resolver(ctx.registry))
    requires speech.Greeting? && Meaning(speech.hello).version == version >= VERSION_TLS13
    ensures var v := VersionProbe(ctx, w, version).0;
      && v.accepted
      && ReportsShare(v, speech.hello)
      && v.extendedMasterSecret.None? && v.secureRenegotiation.None?
      && v.finiteField.None? && v.signatureAlgorithm.None?
  {
    var encrypted := WholeReply(
      wire, ctx.settings, ctx.registry, w.spent + 1, FirstHello(ctx, version), speech, k);
    GreetingSettles(ctx, version, w, speech, encrypted);
  }

  lemma GreetingSettles(ctx: Context, version: Word, w: World, speech: Speech, encrypted: bool)
    requires ctx.registry.ForVersion(version) != []
    requires ctx.settings.retryLimit >= 0 && w.spent + 1 <= ctx.settings.maxConnections
    requires speech.Greeting? && speech.Valid(Resolver(ctx.registry))
    requires Meaning(speech.hello).version == version >= VERSION_TLS13
    requires ctx.reply(w.spent + 1, FirstHello(ctx, version))
      == Heard(Told(speech, Resolver(ctx.registry), AlertOf(speech, Resolver(ctx.registry)), encrypted))
    ensures var v := VersionProbe(ctx, w, version).0;
      && v.accepted
      && ReportsShare(v, speech.hello)
      && v.extendedMasterSecret.None? && v.secureRenegotiation.None?
      && v.finiteField.None? && v.signatureAlgorithm.None?
  {
    var finiteField := Resolver(ctx.registry);
    ProbeKeepsHello(ctx, w, version, Told(speech, finiteField, AlertOf(speech, finiteField), encrypted));
    ShareReported(speech.hello, VersionProbe(ctx, w, version).0);
  }

  lemma ShareReported(f: Fields, v: Version)
    requires v.selectedGroup == Meaning(f).keyShareGroup
    ensures ReportsShare(v, f)
  {
    if f.extensions.Some? {
      LeadingOfLast(f.extensions.value, KEY_SHARE);
      if exists i :: ShareAt(f.extensions.value, i) {
        var i :| ShareAt(f.extensions.value, i);
        assert LastOfKind(f.extensions.value, KEY_SHARE, i);
      } else {
        assert forall i :: LastOfKind(f.extensions.value, KEY_SHARE, i) ==> !ShareAt(f.extensions.value, i);
      }
    }
  }

  lemma ProbeKeepsHello(ctx: Context, w: World, version: Word, flight: Flight)
    requires ctx.registry.ForVersion(version) != []
    requires ctx.settings.retryLimit >= 0 && w.spent + 1 <= ctx.settings.maxConnections
    requires ctx.reply(w.spent + 1, Asking(ctx, version, ctx.registry.ForVersion(version))) == Heard(flight)
    requires !flight.Refused() && flight.serverHello.Some? && flight.serverHello.value.version == version
    ensures var v := VersionProbe(ctx, w, version).0;
      v == WithHello(Unprobed(version).(accepted := true), flight.serverHello.value, flight.serverKeyExchange)
        .(cipherSuites := v.cipherSuites, cipherSuitesComplete := v.cipherSuitesComplete)
  {
    AskAnswered(ctx, w, Asking(ctx, version, ctx.registry.ForVersion(version)));
  }

  // --- How an exchange is read --------------------------------------------------------------------

  // The catalogue decides: a flight's exchange is over a finite field exactly where the
  // entry of the suite it chose says so.
  lemma ExchangeByCatalogue(registry: Registry, f: ServerFlight)
    requires registry.Valid() && PlainFlight(f, Resolver(registry)) && f.exchange.Some?
    ensures f.exchange.value.OverFiniteField? <==>
      exists s :: s in registry.catalogue && s.id == f.hello.cipherSuite && s.keyExchange in {Dhe, DhAnon}
  {
    KindsExact(registry, f.hello.cipherSuite);
  }
}
