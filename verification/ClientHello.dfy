/**
 Printing a ClientHello (pkg/tls/wire/client_hello.go): nested length prefixes, a
 padding extension for the sizes some middleboxes reject, and lengths that are written
 as zero when they do not fit their field (section 4.1.2 of RFC 8446, RFC 7685).
 */
module ClientHellos {
  import opened Bytes
  import opened Readers
  import opened Framing
  import opened ServerHellos

  const CLIENT_HELLO: Byte := 1

  const SERVER_NAME: Word := 0
  const STATUS_REQUEST: Word := 5
  const SUPPORTED_GROUPS: Word := 10
  const EC_POINT_FORMATS: Word := 11
  const SIGNATURE_ALGORITHMS: Word := 13
  const PADDING: Word := 21
  const SESSION_TICKET: Word := 35
  const PSK_KEY_EXCHANGE_MODES: Word := 45

  const GROUP_SECP256R1: Word := 23
  const GROUP_SECP384R1: Word := 24
  const GROUP_SECP521R1: Word := 25
  const GROUP_X25519: Word := 29

  // Status type ocsp, with no responder ids and no extensions.
  const OCSP_REQUEST: seq<Byte> := [1, 0, 0, 0, 0]

  // The fields a hello is written from. Without a random or a session id, fresh ones are
  // drawn for it.
  datatype ClientHello = ClientHello(
    legacyVersion: Word,
    random: Option<seq<Byte>>,
    sessionId: Option<seq<Byte>>,
    cipherSuites: seq<Word>,
    compressionMethods: seq<Byte>,
    serverName: seq<Byte>,
    supportedGroups: seq<Word>,
    signatureAlgorithms: seq<Word>,
    supportedVersions: seq<Word>,
    keyShareGroup: Word,
    renegotiationInfo: bool,
    extendedMasterSecret: bool,
    statusRequest: bool,
    ecPointFormats: bool,
    sessionTicket: bool)

  type Bytes32 = s: seq<Byte> | |s| == 32 witness seq(32, _ => 0)

  // No public key is longer than an uncompressed point of P-521.
  type PublicKey = s: seq<Byte> | |s| <= 133

  // What a hello draws from the random source: 32 bytes each for the two fields, and a
  // public key for each of the groups a key share can be generated in.
  datatype Entropy = Entropy(random: Bytes32, sessionId: Bytes32, share: Word -> PublicKey)

  datatype Refusal = NoCipherSuites | SessionIdTooLong | TooManyCompressionMethods | TooManyCipherSuites | HelloTooLong

  // --- Lengths ------------------------------------------------------------------------

  // A length that does not fit its field is written as zero.
  function ToUint16(n: nat): Word {
    if n > 0xffff then 0 else n
  }

  function ToByte(n: nat): Byte {
    if n > 0xff then 0 else n
  }

  function CheckLengths(sessionId: seq<Byte>, compressionMethods: seq<Byte>, cipherSuites: seq<Word>): Option<Refusal> {
    if |sessionId| > 32 then Some(SessionIdTooLong)
    else if |compressionMethods| > 255 then Some(TooManyCompressionMethods)
    else if |cipherSuites| > 0xffff / 2 then Some(TooManyCipherSuites)
    else None
  }

  // --- Extensions -----------------------------------------------------------------------

  function Marked(e: Extension): seq<Byte> {
    PutUint16(e.kind) + PutUint16(ToUint16(|e.data|)) + e.data
  }

  function MarkedAll(extensions: seq<Extension>): seq<Byte> {
    if extensions == [] then [] else Marked(extensions[0]) + MarkedAll(extensions[1..])
  }

  lemma {:induction false} MarkedSnoc(extensions: seq<Extension>, e: Extension)
    ensures MarkedAll(extensions + [e]) == MarkedAll(extensions) + Marked(e)
  {
    if extensions == [] {
      assert [] + [e] == [e];
      assert MarkedAll([e]) == Marked(e) + MarkedAll([]);
    } else {
      MarkedSnoc(extensions[1..], e);
      assert (extensions + [e])[1..] == extensions[1..] + [e];
      Associate(Marked(extensions[0]), MarkedAll(extensions[1..]), Marked(e));
    }
  }

  // A list of 16-bit values behind its length in bytes.
  function WordList(words: seq<Word>): seq<Byte> {
    PutUint16(ToUint16(2 * |words|)) + PutWords(words)
  }

  function ServerNameEntry(name: seq<Byte>): seq<Byte> {
    [0] + PutUint16(ToUint16(|name|)) + name
  }

  function ServerNameList(name: seq<Byte>): seq<Byte> {
    PutUint16(ToUint16(|ServerNameEntry(name)|)) + ServerNameEntry(name)
  }

  function VersionList(versions: seq<Word>): seq<Byte> {
    [ToByte(2 * |versions|)] + PutWords(versions)
  }

  function ShareEntry(group: Word, public: seq<Byte>): seq<Byte> {
    PutUint16(group) + PutUint16(ToUint16(|public|)) + public
  }

  // A real share for the groups one can be generated in, and none for the others.
  function KeyShare(group: Word, entropy: Entropy): seq<Byte> {
    if group in {GROUP_X25519, GROUP_SECP256R1, GROUP_SECP384R1, GROUP_SECP521R1} then
      var entry := ShareEntry(group, entropy.share(group));
      PutUint16(ToUint16(|entry|)) + entry
    else
      [0, 0]
  }

  function When(present: bool, kind: Word, data: seq<Byte>): seq<Extension> {
    if present then [Extension(kind, data)] else []
  }

  function ShareOffered(h: ClientHello, entropy: Entropy): seq<Byte> {
    if h.keyShareGroup != 0 then KeyShare(h.keyShareGroup, entropy) else [0, 0]
  }

  // The extensions a hello carries, in the order they are written; the last three are
  // what a TLS 1.3 hello says.
  function ExtensionsOf(h: ClientHello, entropy: Entropy): seq<Extension> {
    OffersOf(h) + FormatsOf(h) + FlagsOf(h) + Tls13Of(h, entropy)
  }

  function OffersOf(h: ClientHello): seq<Extension> {
    When(h.serverName != [], SERVER_NAME, ServerNameList(h.serverName))
    + When(h.statusRequest, STATUS_REQUEST, OCSP_REQUEST)
    + When(h.supportedGroups != [], SUPPORTED_GROUPS, WordList(h.supportedGroups))
  }

  function FormatsOf(h: ClientHello): seq<Extension> {
    When(h.ecPointFormats, EC_POINT_FORMATS, [1, 0])
    + When(h.signatureAlgorithms != [], SIGNATURE_ALGORITHMS, WordList(h.signatureAlgorithms))
  }

  function FlagsOf(h: ClientHello): seq<Extension> {
    When(h.extendedMasterSecret, EXTENDED_MASTER_SECRET, [])
    + When(h.sessionTicket, SESSION_TICKET, [])
    + When(h.renegotiationInfo, RENEGOTIATION_INFO, [0])
  }

  function Tls13Of(h: ClientHello, entropy: Entropy): seq<Extension> {
    When(h.supportedVersions != [], SUPPORTED_VERSIONS, VersionList(h.supportedVersions))
    + When(h.supportedVersions != [], PSK_KEY_EXCHANGE_MODES, [1, 1])
    + When(h.keyShareGroup != 0 || h.supportedVersions != [], KEY_SHARE, ShareOffered(h, entropy))
  }

  method MarshalUint16List(values: seq<Word>) returns (marshalled: seq<Byte>)
    ensures marshalled == WordList(values)
  {
    marshalled := PutUint16(ToUint16(2 * |values|));
    marshalled := AppendWords(marshalled, values);
  }

  method AppendWords(start: seq<Byte>, values: seq<Word>) returns (out: seq<Byte>)
    ensures out == start + PutWords(values)
  {
    out := start;
    assert start + PutWords([]) == start;
    for i := 0 to |values|
      invariant out == start + PutWords(values[..i])
    {
      PutWordsSnoc(values[..i], values[i]);
      assert values[..i + 1] == values[..i] + [values[i]];
      Associate(start, PutWords(values[..i]), PutUint16(values[i]));
      out := out + PutUint16(values[i]);
    }
    assert values[..|values|] == values;
  }

  method AppendExtension(extensions: seq<Byte>, kind: Word, data: seq<Byte>) returns (appended: seq<Byte>)
    ensures appended == extensions + Marked(Extension(kind, data))
  {
    appended := extensions + PutUint16(kind);
    appended := appended + PutUint16(ToUint16(|data|));
    appended := appended + data;
    assert appended == extensions + Marked(Extension(kind, data));
  }

  // One extension of a hello: appended when the hello asks for it.
  method AppendWhen(extensions: seq<Byte>, ghost list: seq<Extension>, present: bool, kind: Word, data: seq<Byte>)
    returns (appended: seq<Byte>)
    requires extensions == MarkedAll(list)
    ensures appended == MarkedAll(list + When(present, kind, data))
  {
    appended := extensions;
    if present {
      appended := AppendExtension(extensions, kind, data);
      MarkedSnoc(list, Extension(kind, data));
    } else {
      assert list + [] == list;
    }
  }

  method MarshalExtensions(h: ClientHello, entropy: Entropy) returns (extensions: seq<Byte>)
    ensures extensions == MarkedAll(ExtensionsOf(h, entropy))
  {
    extensions := AppendOffers([], [], h);
    assert [] + OffersOf(h) == OffersOf(h);
    extensions := AppendFormats(extensions, OffersOf(h), h);
    extensions := AppendFlags(extensions, OffersOf(h) + FormatsOf(h), h);
    extensions := AppendTls13(extensions, OffersOf(h) + FormatsOf(h) + FlagsOf(h), h, entropy);
  }

  method AppendOffers(extensions: seq<Byte>, ghost list: seq<Extension>, h: ClientHello) returns (appended: seq<Byte>)
    requires extensions == MarkedAll(list)
    ensures appended == MarkedAll(list + OffersOf(h))
  {
    var names := ServerNameList(h.serverName);
    var groups := MarshalUint16List(h.supportedGroups);
    ghost var e1 := When(h.serverName != [], SERVER_NAME, names);
    ghost var e2 := When(h.statusRequest, STATUS_REQUEST, OCSP_REQUEST);
    ghost var e3 := When(h.supportedGroups != [], SUPPORTED_GROUPS, groups);
    appended := AppendWhen(extensions, list, h.serverName != [], SERVER_NAME, names);
    appended := AppendWhen(appended, list + e1, h.statusRequest, STATUS_REQUEST, OCSP_REQUEST);
    appended := AppendWhen(appended, list + e1 + e2, h.supportedGroups != [], SUPPORTED_GROUPS, groups);
    Associate4(list, e1, e2, e3);
  }

  method AppendFormats(extensions: seq<Byte>, ghost list: seq<Extension>, h: ClientHello) returns (appended: seq<Byte>)
    requires extensions == MarkedAll(list)
    ensures appended == MarkedAll(list + FormatsOf(h))
  {
    var algorithms := MarshalUint16List(h.signatureAlgorithms);
    ghost var e1 := When(h.ecPointFormats, EC_POINT_FORMATS, [1, 0]);
    appended := AppendWhen(extensions, list, h.ecPointFormats, EC_POINT_FORMATS, [1, 0]);
    appended := AppendWhen(appended, list + e1, h.signatureAlgorithms != [], SIGNATURE_ALGORITHMS, algorithms);
    Associate(list, e1, When(h.signatureAlgorithms != [], SIGNATURE_ALGORITHMS, algorithms));
  }

  method AppendFlags(extensions: seq<Byte>, ghost list: seq<Extension>, h: ClientHello) returns (appended: seq<Byte>)
    requires extensions == MarkedAll(list)
    ensures appended == MarkedAll(list + FlagsOf(h))
  {
    ghost var e1 := When(h.extendedMasterSecret, EXTENDED_MASTER_SECRET, []);
    ghost var e2 := When(h.sessionTicket, SESSION_TICKET, []);
    ghost var e3 := When(h.renegotiationInfo, RENEGOTIATION_INFO, [0]);
    appended := AppendWhen(extensions, list, h.extendedMasterSecret, EXTENDED_MASTER_SECRET, []);
    appended := AppendWhen(appended, list + e1, h.sessionTicket, SESSION_TICKET, []);
    appended := AppendWhen(appended, list + e1 + e2, h.renegotiationInfo, RENEGOTIATION_INFO, [0]);
    Associate4(list, e1, e2, e3);
  }

  method AppendTls13(extensions: seq<Byte>, ghost list: seq<Extension>, h: ClientHello, entropy: Entropy)
    returns (appended: seq<Byte>)
    requires extensions == MarkedAll(list)
    ensures appended == MarkedAll(list + Tls13Of(h, entropy))
  {
    var offered := h.supportedVersions != [];
    var versions := AppendWords([ToByte(2 * |h.supportedVersions|)], h.supportedVersions);
    ghost var e1 := When(offered, SUPPORTED_VERSIONS, versions);
    ghost var e2 := When(offered, PSK_KEY_EXCHANGE_MODES, [1, 1]);
    ghost var e3 := When(h.keyShareGroup != 0 || offered, KEY_SHARE, ShareOffered(h, entropy));
    appended := AppendWhen(extensions, list, offered, SUPPORTED_VERSIONS, versions);
    appended := AppendWhen(appended, list + e1, offered, PSK_KEY_EXCHANGE_MODES, [1, 1]);
    appended := AppendWhen(
      appended, list + e1 + e2, h.keyShareGroup != 0 || offered, KEY_SHARE, ShareOffered(h, entropy));
    Associate4(list, e1, e2, e3);
  }

  lemma Associate4<T>(a: seq<T>, b: seq<T>, c: seq<T>, d: seq<T>)
    ensures a + b + c + d == a + (b + c + d)
  {
  }

  // --- The whole record -------------------------------------------------------------------

  function HeadOf(h: ClientHello, random: seq<Byte>, sessionId: seq<Byte>, compressionMethods: seq<Byte>): seq<Byte> {
    PutUint16(h.legacyVersion) + (random + ([ToByte(|sessionId|)] + (sessionId +
    (PutUint16(ToUint16(2 * |h.cipherSuites|)) + (PutWords(h.cipherSuites) +
    ([ToByte(|compressionMethods|)] + compressionMethods))))))
  }

  function Padding(n: nat): Extension {
    Extension(PADDING, seq(n, _ => 0))
  }

  // A record of 256 to 511 bytes is padded out of that range. RFC 7685.
  function PaddingFor(total: nat): seq<Extension> {
    if 256 <= total < 512 then [Padding(512 - total + 4)] else []
  }

  function BodyOf(head: seq<Byte>, extensions: seq<Extension>): seq<Byte> {
    head + PutUint16(ToUint16(|MarkedAll(extensions)|)) + MarkedAll(extensions)
  }

  function RandomOf(h: ClientHello, entropy: Entropy): seq<Byte> {
    if h.random.Some? then h.random.value else entropy.random
  }

  function SessionIdOf(h: ClientHello, entropy: Entropy): seq<Byte> {
    if h.sessionId.Some? then h.sessionId.value else entropy.sessionId
  }

  function CompressionOf(h: ClientHello): seq<Byte> {
    if h.compressionMethods == [] then [0] else h.compressionMethods
  }

  function HeadFor(h: ClientHello, entropy: Entropy): seq<Byte> {
    HeadOf(h, RandomOf(h, entropy), SessionIdOf(h, entropy), CompressionOf(h))
  }

  // The extensions as they go out, padding included.
  function Sent(h: ClientHello, entropy: Entropy): seq<Extension> {
    var extensions := ExtensionsOf(h, entropy);
    extensions + PaddingFor(|BodyOf(HeadFor(h, entropy), extensions)| + 4 + 5)
  }

  function SentBody(h: ClientHello, entropy: Entropy): seq<Byte> {
    BodyOf(HeadFor(h, entropy), Sent(h, entropy))
  }

  function HandshakeOf(body: seq<Byte>): seq<Byte> {
    [CLIENT_HELLO] + PutUint24(|body|) + body
  }

  // Every hello goes out under record version 0x0301.
  function RecordOf(handshake: seq<Byte>): seq<Byte> {
    [HANDSHAKE, 0x03, 0x01] + PutUint16(ToUint16(|handshake|)) + handshake
  }

  function Marshalled(h: ClientHello, entropy: Entropy): Result<seq<Byte>, Refusal> {
    if h.cipherSuites == [] then Err(NoCipherSuites) else
    var refused := CheckLengths(SessionIdOf(h, entropy), CompressionOf(h), h.cipherSuites);
    if refused.Some? then Err(refused.value)
    else if |SentBody(h, entropy)| > 0xff_ffff then Err(HelloTooLong)
    else Ok(RecordOf(HandshakeOf(SentBody(h, entropy))))
  }

  // repadded: everything before the extension block is kept, and the block grows by a
  // padding extension.
  method Repadded(
    body: seq<Byte>, extensions: seq<Byte>, padding: nat, ghost head: seq<Byte>, ghost list: seq<Extension>)
    returns (rebuilt: seq<Byte>)
    requires extensions == MarkedAll(list) && body == BodyOf(head, list)
    ensures rebuilt == BodyOf(head, list + [Padding(padding)])
  {
    if |body| < 2 + |extensions| {
      return body;
    }
    var padded := AppendExtension(extensions, PADDING, seq(padding, _ => 0));
    MarkedSnoc(list, Padding(padding));
    var kept := body[..|body| - 2 - |extensions|];
    assert kept == head;
    rebuilt := kept + PutUint16(ToUint16(|padded|));
    rebuilt := rebuilt + padded;
  }

  method Marshal(h: ClientHello, entropy: Entropy) returns (record: Result<seq<Byte>, Refusal>)
    ensures record == Marshalled(h, entropy)
  {
    if |h.cipherSuites| == 0 {
      return Err(NoCipherSuites);
    }
    var random := RandomOf(h, entropy);
    var sessionId := SessionIdOf(h, entropy);
    var compressionMethods := CompressionOf(h);
    var refused := CheckLengths(sessionId, compressionMethods, h.cipherSuites);
    if refused.Some? {
      return Err(refused.value);
    }
    var body := MarshalBody(h, entropy);
    if |body| > 0xff_ffff {
      return Err(HelloTooLong);
    }
    var out := MarshalHeaders(body);
    record := Ok(out);
  }

  // Everything after the two headers, padding included.
  method MarshalBody(h: ClientHello, entropy: Entropy) returns (body: seq<Byte>)
    ensures body == SentBody(h, entropy)
  {
    var head := MarshalHead(h, RandomOf(h, entropy), SessionIdOf(h, entropy), CompressionOf(h));
    var extensions := MarshalExtensions(h, entropy);
    ghost var list := ExtensionsOf(h, entropy);
    body := head + PutUint16(ToUint16(|extensions|));
    body := body + extensions;
    assert body == BodyOf(head, list);
    var total := |body| + 4 + 5;
    if total >= 256 && total < 512 {
      body := Repadded(body, extensions, 512 - total + 4, head, list);
    } else {
      assert list + [] == list;
    }
  }

  method MarshalHeaders(body: seq<Byte>) returns (record: seq<Byte>)
    ensures record == RecordOf(HandshakeOf(body))
  {
    var handshake := [CLIENT_HELLO] + PutUint24(|body|);
    handshake := handshake + body;
    record := [HANDSHAKE, 0x03, 0x01] + PutUint16(ToUint16(|handshake|));
    record := record + handshake;
  }

  method MarshalHead(h: ClientHello, random: seq<Byte>, sessionId: seq<Byte>, compressionMethods: seq<Byte>)
    returns (body: seq<Byte>)
    ensures body == HeadOf(h, random, sessionId, compressionMethods)
  {
    body := PutUint16(h.legacyVersion);
    body := body + random;
    body := body + [ToByte(|sessionId|)];
    body := body + sessionId;
    body := body + PutUint16(ToUint16(2 * |h.cipherSuites|));
    body := AppendWords(body, h.cipherSuites);
    body := body + [ToByte(|compressionMethods|)];
    body := body + compressionMethods;
    HeadAssociates(PutUint16(h.legacyVersion), random, [ToByte(|sessionId|)], sessionId,
                   PutUint16(ToUint16(2 * |h.cipherSuites|)), PutWords(h.cipherSuites),
                   [ToByte(|compressionMethods|)], compressionMethods);
  }

  lemma HeadAssociates(
    a: seq<Byte>, b: seq<Byte>, c: seq<Byte>, d: seq<Byte>, e: seq<Byte>, f: seq<Byte>, g: seq<Byte>, h: seq<Byte>)
    ensures a + b + c + d + e + f + g + h == a + (b + (c + (d + (e + (f + (g + h))))))
  {
    Associate(a + b + c + d + e + f, g, h);
    Associate(a + b + c + d + e, f, g + h);
    Associate(a + b + c + d, e, f + (g + h));
    Associate(a + b + c, d, e + (f + (g + h)));
    Associate(a + b, c, d + (e + (f + (g + h))));
    Associate(a, b, c + (d + (e + (f + (g + h)))));
  }

  // --- Reading a hello back -----------------------------------------------------------------

  // The fields a server finds in the message (section 4.1.2 of RFC 8446).
  datatype ClientFields = ClientFields(
    legacyVersion: Word,
    random: seq<Byte>,
    sessionId: seq<Byte>,
    cipherSuites: seq<Word>,
    compressionMethods: seq<Byte>,
    extensions: seq<Extension>)

  function TakeWords(s: seq<Byte>): Taken<seq<Word>> {
    var (block, rest) :- TakeBlock16(s);
    if |block| % 2 != 0 then Truncated else Taken(Words(block), rest)
  }

  function TakeClientFields(body: seq<Byte>): Taken<ClientFields> {
    var (legacyVersion, s1) :- TakeUint16(body);
    var (random, s2) :- TakeBytes(s1, 32);
    var (sessionId, s3) :- TakeBlock8(s2);
    var (cipherSuites, s4) :- TakeWords(s3);
    var (compressionMethods, s5) :- TakeBlock8(s4);
    var (block, s6) :- TakeBlock16(s5);
    var (extensions, _) :- TakeExtensions(block);
    Taken(ClientFields(legacyVersion, random, sessionId, cipherSuites, compressionMethods, extensions), s6)
  }

  // A block whose lengths all fit is an ordinary extension block.
  lemma {:induction false} MarkedFits(extensions: seq<Extension>)
    requires |MarkedAll(extensions)| <= 0xffff
    ensures Fit(extensions) && PutExtensions(extensions) == MarkedAll(extensions)
  {
    if extensions != [] {
      MarkedFits(extensions[1..]);
      assert extensions == [extensions[0]] + extensions[1..];
      PutExtensionsCons(extensions[0], extensions[1..]);
      Associate(PutUint16(extensions[0].kind), PutUint16(|extensions[0].data|), extensions[0].data);
    }
  }

  lemma TakeWordsInverse(words: seq<Word>, rest: seq<Byte>)
    requires 2 * |words| <= 0xffff
    ensures TakeWords(WordList(words) + rest) == Taken(words, rest)
  {
    TakeBlock16Iff(WordList(words) + rest, PutWords(words), rest);
    WordsInverse(words);
  }

  lemma TakeClientFieldsInverse(
    h: ClientHello, random: seq<Byte>, sessionId: seq<Byte>, compressionMethods: seq<Byte>, extensions: seq<Extension>)
    requires |random| == 32 && CheckLengths(sessionId, compressionMethods, h.cipherSuites).None?
    requires |MarkedAll(extensions)| <= 0xffff
    ensures TakeClientFields(BodyOf(HeadOf(h, random, sessionId, compressionMethods), extensions)) ==
      Taken(ClientFields(h.legacyVersion, random, sessionId, h.cipherSuites, compressionMethods, extensions), [])
  {
    var block := MarkedAll(extensions);
    MarkedFits(extensions);
    var s5 := PutBlock16(block);
    var s4 := PutBlock8(compressionMethods) + s5;
    var s3 := WordList(h.cipherSuites) + s4;
    var s2 := PutBlock8(sessionId) + s3;
    var s1 := random + s2;
    BodyAssociates(h, random, sessionId, compressionMethods, block);
    TakeUint16Iff(PutUint16(h.legacyVersion) + s1, h.legacyVersion, s1);
    TakeBytesIff(s1, random, s2);
    TakeBlock8Iff(s2, sessionId, s3);
    TakeWordsInverse(h.cipherSuites, s4);
    TakeBlock8Iff(s4, compressionMethods, s5);
    assert s5 + [] == s5;
    TakeBlock16Iff(s5, block, []);
    TakeExtensionsIff(block, extensions);
  }

  lemma BodyAssociates(
    h: ClientHello, random: seq<Byte>, sessionId: seq<Byte>, compressionMethods: seq<Byte>, block: seq<Byte>)
    requires CheckLengths(sessionId, compressionMethods, h.cipherSuites).None? && |block| <= 0xffff
    ensures HeadOf(h, random, sessionId, compressionMethods) + PutUint16(ToUint16(|block|)) + block ==
      PutUint16(h.legacyVersion) + (random + (PutBlock8(sessionId) +
      (WordList(h.cipherSuites) + (PutBlock8(compressionMethods) + PutBlock16(block)))))
  {
    var tail := PutBlock16(block);
    var head := HeadOf(h, random, sessionId, compressionMethods);
    Associate(head, PutUint16(|block|), block);
    var a, c := PutUint16(h.legacyVersion), [|sessionId|];
    var e, g := PutUint16(2 * |h.cipherSuites|), [|compressionMethods|];
    var words := PutWords(h.cipherSuites);
    var p7 := g + compressionMethods;
    var p6 := words + p7;
    var p5 := e + p6;
    var p4 := sessionId + p5;
    var p3 := c + p4;
    Associate(a, random + p3, tail);
    Associate(random, p3, tail);
    Associate(c, p4, tail);
    Associate(sessionId, p5, tail);
    Associate(e, p6, tail);
    Associate(words, p7, tail);
    Associate(c, sessionId, p5 + tail);
    Associate(e, words, p7 + tail);
  }

  // What a hello takes up without padding, from the handshake header on.
  function SizeOf(h: ClientHello, entropy: Entropy): nat {
    4 + |BodyOf(HeadFor(h, entropy), ExtensionsOf(h, entropy))|
  }

  lemma BodySize(head: seq<Byte>, extensions: seq<Extension>, padding: nat)
    ensures |BodyOf(head, extensions)| == |head| + 2 + |MarkedAll(extensions)|
    ensures |BodyOf(head, extensions + [Padding(padding)])| == |BodyOf(head, extensions)| + 4 + padding
  {
    MarkedSnoc(extensions, Padding(padding));
  }

  // The size from the parts.
  lemma SizeIs(h: ClientHello, entropy: Entropy)
    ensures |HeadFor(h, entropy)|
      == 6 + |RandomOf(h, entropy)| + |SessionIdOf(h, entropy)| + 2 * |h.cipherSuites| + |CompressionOf(h)|
    ensures SizeOf(h, entropy) == 6 + |HeadFor(h, entropy)| + |MarkedAll(ExtensionsOf(h, entropy))|
  {
  }

  lemma SentIs(h: ClientHello, entropy: Entropy)
    ensures Sent(h, entropy) == ExtensionsOf(h, entropy) + PaddingFor(5 + SizeOf(h, entropy))
  {
  }

  lemma PaddingIs(total: nat)
    ensures PaddingFor(total) == if 256 <= total < 512 then [Extension(PADDING, seq(516 - total, _ => 0))] else []
  {
  }

  lemma PaddedSize(head: seq<Byte>, extensions: seq<Extension>, total: nat)
    requires total == 9 + |BodyOf(head, extensions)|
    ensures 9 + |BodyOf(head, extensions + PaddingFor(total))| == if 256 <= total < 512 then 520 else total
  {
    if 256 <= total < 512 {
      BodySize(head, extensions, 516 - total);
    } else {
      assert extensions + PaddingFor(total) == extensions;
    }
  }

  lemma SentSize(h: ClientHello, entropy: Entropy)
    ensures var unpadded := 5 + SizeOf(h, entropy);
      && 9 + |SentBody(h, entropy)| == (if 256 <= unpadded < 512 then 520 else unpadded)
      && Sent(h, entropy) == ExtensionsOf(h, entropy)
        + (if 256 <= unpadded < 512 then [Extension(PADDING, seq(516 - unpadded, _ => 0))] else [])
  {
    SentIs(h, entropy);
    PaddingIs(5 + SizeOf(h, entropy));
    PaddedSize(HeadFor(h, entropy), ExtensionsOf(h, entropy), 5 + SizeOf(h, entropy));
  }

  // No hello goes out at a size in the rejected range: one that would is padded to 520
  // bytes exactly, and every other goes out at the size it has. Nothing before the
  // extension block changes, and the block gains one extension of zeros at its end.
  lemma PaddedOutOfRange(h: ClientHello, entropy: Entropy)
    requires Marshalled(h, entropy).Ok?
    ensures var record, unpadded := Marshalled(h, entropy).value, 5 + SizeOf(h, entropy);
      && |record| == (if 256 <= unpadded < 512 then 520 else unpadded)
      && !(256 <= |record| < 512)
      && record[9..] == BodyOf(HeadFor(h, entropy), ExtensionsOf(h, entropy)
        + (if 256 <= unpadded < 512 then [Extension(PADDING, seq(516 - unpadded, _ => 0))] else []))
  {
    SentSize(h, entropy);
    AfterHeaders(SentBody(h, entropy));
  }

  lemma AfterHeaders(body: seq<Byte>)
    ensures |RecordOf(HandshakeOf(body))| == 9 + |body|
    ensures RecordOf(HandshakeOf(body))[9..] == body
  {
  }

  // The exact condition for a marshalled hello to be one record: that it fits the
  // record's length field.
  lemma OneRecordExactly(h: ClientHello, entropy: Entropy)
    requires Marshalled(h, entropy).Ok?
    ensures var record := Marshalled(h, entropy).value;
      Frames(RecordLayer, record) == [record] <==> SizeOf(h, entropy) <= 0xffff
  {
    var handshake := HandshakeOf(SentBody(h, entropy));
    SentSize(h, entropy);
    if SizeOf(h, entropy) <= 0xffff {
      RecordIsRead(handshake);
    } else {
      OversizedRecord(handshake);
      FirstFrame(RecordLayer, RecordOf(handshake));
    }
  }

  // When it does, the whole of it is read back, padding included.
  lemma MarshalRoundTrip(h: ClientHello, entropy: Entropy)
    requires Marshalled(h, entropy).Ok? && |RandomOf(h, entropy)| == 32
    ensures var record := Marshalled(h, entropy).value;
      && (Frames(RecordLayer, record) == [record] <==> SizeOf(h, entropy) <= 0xffff)
      && (SizeOf(h, entropy) <= 0xffff ==>
        && Reassembly(record).alert == None
        && Reassembly(record).encrypted == []
        && Messages(Reassembly(record).handshake) == [Message(CLIENT_HELLO, SentBody(h, entropy))]
        && TakeClientFields(SentBody(h, entropy)) ==
          Taken(ClientFields(h.legacyVersion, RandomOf(h, entropy), SessionIdOf(h, entropy), h.cipherSuites,
                             CompressionOf(h), Sent(h, entropy)), []))
  {
    var body := SentBody(h, entropy);
    OneRecordExactly(h, entropy);
    SentSize(h, entropy);
    if SizeOf(h, entropy) <= 0xffff {
      RecordIsRead(HandshakeOf(body));
      MessageIsRead(body);
      TakeClientFieldsInverse(h, RandomOf(h, entropy), SessionIdOf(h, entropy), CompressionOf(h), Sent(h, entropy));
    }
  }

  lemma FirstFrame(layer: Layer, s: seq<Byte>)
    requires layer.Ready(s) && layer.Size(s) < |s|
    ensures Frames(layer, s) != [s]
  {
    assert Frames(layer, s)[0] == s[..layer.Size(s)];
  }

  // A handshake too long for the record's length field is announced as empty.
  lemma OversizedRecord(handshake: seq<Byte>)
    requires |handshake| > 0xffff
    ensures RecordLayer.Ready(RecordOf(handshake)) && RecordLayer.Size(RecordOf(handshake)) == 5
  {
    assert ToUint16(|handshake|) == 0;
    RecordHeader(HANDSHAKE, 0x03, 0x01, 0, handshake);
  }

  lemma RecordHeader(kind: Byte, major: Byte, minor: Byte, length: Word, rest: seq<Byte>)
    ensures var s := [kind, major, minor] + PutUint16(length) + rest;
      RecordLayer.Announced(s) == length
  {
    var s := [kind, major, minor] + PutUint16(length) + rest;
    assert s[3] == PutUint16(length)[0] && s[4] == PutUint16(length)[1];
  }

  lemma RecordIsRead(handshake: seq<Byte>)
    requires |handshake| <= 0xffff
    ensures Frames(RecordLayer, RecordOf(handshake)) == [RecordOf(handshake)]
    ensures Reassembly(RecordOf(handshake)) == Reassembled(handshake, None, false, [])
  {
    var record := RecordOf(handshake);
    assert record[3] == PutUint16(|handshake|)[0] && record[4] == PutUint16(|handshake|)[1];
    assert record[5..] == handshake;
    assert Concat([record]) + [] == record;
    FramesUnique(RecordLayer, [record], []);
    assert [record][1..] == [];
    assert HandshakeBytes([record]) == Payload(record) + HandshakeBytes([]);
    assert FirstAlert([record]) == FirstAlert([]);
    assert forall kind :: kind != HANDSHAKE ==> OfKind(kind, [record]) == OfKind(kind, []);
  }

  lemma MessageIsRead(body: seq<Byte>)
    requires |body| < 0x100_0000
    ensures Messages(HandshakeOf(body)) == [Message(CLIENT_HELLO, body)]
  {
    var m := Message(CLIENT_HELLO, body);
    MessageFirst(m, []);
    assert Encode(m) + [] == HandshakeOf(body);
    assert [m] + Messages([]) == [m];
  }

  // What the lists inside the extensions say. Each is read back exactly when its length
  // fits the field in front of it; for the versions that field is a single byte.
  lemma WordListReadBack(words: seq<Word>)
    ensures TakeWords(WordList(words)) == Taken(words, []) <==> 2 * |words| <= 0xffff
  {
    if 2 * |words| <= 0xffff {
      TakeWordsInverse(words, []);
      assert WordList(words) + [] == WordList(words);
    }
  }

  lemma VersionListReadBack(versions: seq<Word>)
    ensures TakeBlock8(VersionList(versions)) == Taken(PutWords(versions), []) <==> |versions| <= 127
    ensures Words(PutWords(versions)) == versions
  {
    var words := PutWords(versions);
    WordsInverse(versions);
    CountedBlock(words);
  }

  lemma CountedBlock(block: seq<Byte>)
    ensures TakeBlock8([ToByte(|block|)] + block) == Taken(block, []) <==> |block| <= 0xff
  {
    var s := [ToByte(|block|)] + block;
    assert s[1..] == block;
    assert TakeUint8(s) == Taken(ToByte(|block|), block);
    assert block[..|block|] == block && block[|block|..] == [];
  }

  lemma ServerNameReadBack(name: seq<Byte>)
    requires name != []
    ensures (exists entry ::
        && TakeBlock16(ServerNameList(name)) == Taken(entry, [])
        && entry != [] && entry[0] == 0
        && TakeBlock16(entry[1..]) == Taken(name, []))
      <==> |name| + 3 <= 0xffff
  {
    var entry := ServerNameEntry(name);
    if |name| + 3 <= 0xffff {
      assert ServerNameList(name) == PutBlock16(entry) + [];
      TakeBlock16Iff(ServerNameList(name), entry, []);
      assert entry[1..] == PutBlock16(name) + [];
      TakeBlock16Iff(entry[1..], name, []);
    } else {
      assert TakeBlock16(ServerNameList(name)).rest == entry;
    }
  }

  // The claim that no conversion can quietly produce a hello that says something else
  // than was asked for fails: a long enough server name is accepted, and what goes out
  // is not one record.
  lemma LongNameGoesOutBroken(entropy: Entropy)
    ensures exists h ::
      && Marshalled(h, entropy).Ok?
      && |RandomOf(h, entropy)| == 32
      && Frames(RecordLayer, Marshalled(h, entropy).value) != [Marshalled(h, entropy).value]
  {
    var name: seq<Byte> := seq(0x1_0000, _ => 97);
    var h := ClientHello(0x0303, None, None, [0x002f], [], name, [], [], [], 0, false, false, false, false, false);
    var e := Extension(SERVER_NAME, ServerNameList(name));
    assert ExtensionsOf(h, entropy) == [e];
    assert MarkedAll([e]) == Marked(e) + MarkedAll([]);
    assert |MarkedAll([e])| == 0x1_0000 + 9;
    assert |HeadFor(h, entropy)| == 73;
    assert PaddingFor(5 + SizeOf(h, entropy)) == [];
    assert Sent(h, entropy) == [e];
    MarshalRoundTrip(h, entropy);
  }

  // --- What is refused ------------------------------------------------------------------------

  // A hello is refused for the first of these that is so, and for nothing else: no suites,
  // a session id over 32 bytes, over 255 compression methods, over 32767 suites, or a
  // message too long for its length field.
  lemma RefusedExactly(h: ClientHello, entropy: Entropy)
    ensures var id := if h.sessionId.Some? then |h.sessionId.value| else 32;
      var out := Marshalled(h, entropy);
      && (out == Err(NoCipherSuites) <==> h.cipherSuites == [])
      && (out == Err(SessionIdTooLong) <==> h.cipherSuites != [] && id > 32)
      && (out == Err(TooManyCompressionMethods) <==>
        h.cipherSuites != [] && id <= 32 && |h.compressionMethods| > 255)
      && (out == Err(TooManyCipherSuites) <==>
        id <= 32 && |h.compressionMethods| <= 255 && |h.cipherSuites| > 32767)
      && (out == Err(HelloTooLong) <==>
        && h.cipherSuites != [] && id <= 32 && |h.compressionMethods| <= 255 && |h.cipherSuites| <= 32767
        && SizeOf(h, entropy) > 0x100_0003)
  {
    SentSize(h, entropy);
  }

  // A handshake too long for its record is announced as empty.
  lemma OversizedIsEmpty(h: ClientHello, entropy: Entropy)
    requires Marshalled(h, entropy).Ok? && SizeOf(h, entropy) > 0xffff
    ensures var record := Marshalled(h, entropy).value;
      RecordLayer.Ready(record) && RecordLayer.Size(record) == 5 && Payload(record[..5]) == []
  {
    SentSize(h, entropy);
    OversizedRecord(HandshakeOf(SentBody(h, entropy)));
  }
}
