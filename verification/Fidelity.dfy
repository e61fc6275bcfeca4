/**
 When a hello that goes out says what was asked for. The lengths in
 pkg/tls/wire/client_hello.go are written as zero where they do not fit, so a hello can
 be accepted and come out as something else; this is the exact condition.
 */
module Fidelity {
  import opened Bytes
  import opened Readers
  import opened Framing
  import opened ServerHellos
  import opened ClientHellos

  // --- Reading a hello as a server does -----------------------------------------------------

  // The hello in what arrived, where there is exactly one.
  function HelloIn(bytes: seq<Byte>): Option<ClientFields> {
    var messages := Messages(Reassembly(bytes).handshake);
    if |messages| != 1 || messages[0].kind != CLIENT_HELLO then None else
    match TakeClientFields(messages[0].body)
    case Taken(fields, _) => Some(fields)
    case Truncated => None
  }

  // The data of the first extension of a kind.
  function Found(extensions: seq<Extension>, kind: Word): Option<seq<Byte>> {
    if extensions == [] then None
    else if extensions[0].kind == kind then Some(extensions[0].data)
    else Found(extensions[1..], kind)
  }

  // The host name of a server name list (section 3 of RFC 6066).
  function NameIn(data: seq<Byte>): Taken<seq<Byte>> {
    var (entry, _) :- TakeBlock16(data);
    var (kind, rest) :- TakeUint8(entry);
    if kind != 0 then Truncated else TakeBlock16(rest)
  }

  function VersionsIn(data: seq<Byte>): Taken<seq<Word>> {
    var (block, rest) :- TakeBlock8(data);
    if |block| % 2 != 0 then Truncated else Taken(Words(block), rest)
  }

  // The one share of a key share list (section 4.2.8 of RFC 8446).
  function ShareIn(data: seq<Byte>): Taken<(Word, seq<Byte>)> {
    var (entry, _) :- TakeBlock16(data);
    var (group, rest) :- TakeUint16(entry);
    var (public, rest') :- TakeBlock16(rest);
    Taken((group, public), rest')
  }

  // A list is absent where nothing was asked for, and otherwise there and read to its
  // end as what was asked for.
  ghost predicate Reads<T>(data: Option<seq<Byte>>, read: seq<Byte> -> Taken<T>, present: bool, wanted: T) {
    if present then data.Some? && read(data.value) == Taken(wanted, []) else data.None?
  }

  // What was asked for is what a server finds: one handshake record under version 0x0301,
  // one hello, its six fields, and in its extensions the name, the lists and the flags
  // that were asked for, each kind at most once and no kind that was not.
  ghost predicate Says(h: ClientHello, entropy: Entropy) {
    Marshalled(h, entropy).Ok? &&
    var record := Marshalled(h, entropy).value;
    && Frames(RecordLayer, record) == [record]
    && |record| >= 5 && record[..3] == [22, 3, 1]
    && HelloIn(record).Some?
    && FieldsSay(h, entropy, HelloIn(record).value)
  }

  ghost predicate FieldsSay(h: ClientHello, entropy: Entropy, fields: ClientFields) {
    && fields.legacyVersion == h.legacyVersion
    && fields.random == (if h.random.Some? then h.random.value else entropy.random)
    && fields.sessionId == (if h.sessionId.Some? then h.sessionId.value else entropy.sessionId)
    && fields.cipherSuites == h.cipherSuites
    && fields.compressionMethods == (if h.compressionMethods == [] then [0] else h.compressionMethods)
    && fields.extensions == Sent(h, entropy)
    && ListsSay(h, entropy, fields.extensions)
    && FlagsSay(h, fields.extensions)
    && Single(fields.extensions)
  }

  // The lists: server_name, supported_groups, signature_algorithms, supported_versions and
  // key_share.
  ghost predicate ListsSay(h: ClientHello, entropy: Entropy, extensions: seq<Extension>) {
    && Reads(Found(extensions, 0), NameIn, h.serverName != [], h.serverName)
    && Reads(Found(extensions, 10), TakeWords, h.supportedGroups != [], h.supportedGroups)
    && Reads(Found(extensions, 13), TakeWords, h.signatureAlgorithms != [], h.signatureAlgorithms)
    && Reads(Found(extensions, 43), VersionsIn, h.supportedVersions != [], h.supportedVersions)
    && (Generated(h.keyShareGroup) ==>
      Reads(Found(extensions, 51), ShareIn, true, (h.keyShareGroup, entropy.share(h.keyShareGroup))))
    && (!Generated(h.keyShareGroup) ==>
      Carried(extensions, 51, h.keyShareGroup != 0 || h.supportedVersions != [], [0, 0]))
  }

  // An extension of this kind is there exactly when it was asked for, with this data.
  predicate Carried(extensions: seq<Extension>, kind: Word, present: bool, data: seq<Byte>) {
    Found(extensions, kind) == if present then Some(data) else None
  }

  // The flags: status_request for OCSP, the uncompressed point format,
  // extended_master_secret, session_ticket, psk_dhe_ke and an empty renegotiation_info.
  predicate FlagsSay(h: ClientHello, extensions: seq<Extension>) {
    && Carried(extensions, 5, h.statusRequest, [1, 0, 0, 0, 0])
    && Carried(extensions, 11, h.ecPointFormats, [1, 0])
    && Carried(extensions, 23, h.extendedMasterSecret, [])
    && Carried(extensions, 35, h.sessionTicket, [])
    && Carried(extensions, 45, h.supportedVersions != [], [1, 1])
    && Carried(extensions, 0xff01, h.renegotiationInfo, [0])
  }

  // How often a kind occurs.
  function Times(extensions: seq<Extension>, kind: Word): nat {
    if extensions == [] then 0 else (if extensions[0].kind == kind then 1 else 0) + Times(extensions[1..], kind)
  }

  // No kind occurs twice, and none but the twelve above and padding occurs at all.
  ghost predicate Single(extensions: seq<Extension>) {
    forall kind: Word :: Times(extensions, kind) <=
      if kind in {0, 5, 10, 11, 13, 21, 23, 35, 43, 45, 51, 0xff01} then 1 else 0
  }

  // A share can be generated in this group.
  predicate Generated(group: Word) {
    group in {GROUP_X25519, GROUP_SECP256R1, GROUP_SECP384R1, GROUP_SECP521R1}
  }

  // --- Where each extension stands ------------------------------------------------------------

  lemma {:induction false} FoundAppend(a: seq<Extension>, b: seq<Extension>, kind: Word)
    ensures Found(a + b, kind) == if Found(a, kind).Some? then Found(a, kind) else Found(b, kind)
  {
    if a == [] {
      assert a + b == b;
    } else {
      ConsAppend(a, b);
      FoundAppend(a[1..], b, kind);
    }
  }

  lemma FoundWhen(present: bool, of: Word, data: seq<Byte>, kind: Word)
    ensures Found(When(present, of, data), kind) == if present && of == kind then Some(data) else None
  {
  }

  lemma OffersFound(h: ClientHello, kind: Word)
    ensures Found(OffersOf(h), kind) ==
      if h.serverName != [] && kind == SERVER_NAME then Some(ServerNameList(h.serverName))
      else if h.statusRequest && kind == STATUS_REQUEST then Some(OCSP_REQUEST)
      else if h.supportedGroups != [] && kind == SUPPORTED_GROUPS then Some(WordList(h.supportedGroups))
      else None
  {
    var a := When(h.serverName != [], SERVER_NAME, ServerNameList(h.serverName));
    var b := When(h.statusRequest, STATUS_REQUEST, OCSP_REQUEST);
    var c := When(h.supportedGroups != [], SUPPORTED_GROUPS, WordList(h.supportedGroups));
    FoundAppend(a + b, c, kind);
    FoundAppend(a, b, kind);
    FoundWhen(h.serverName != [], SERVER_NAME, ServerNameList(h.serverName), kind);
    FoundWhen(h.statusRequest, STATUS_REQUEST, OCSP_REQUEST, kind);
    FoundWhen(h.supportedGroups != [], SUPPORTED_GROUPS, WordList(h.supportedGroups), kind);
  }

  lemma FormatsFound(h: ClientHello, kind: Word)
    ensures Found(FormatsOf(h), kind) ==
      if h.ecPointFormats && kind == EC_POINT_FORMATS then Some([1, 0])
      else if h.signatureAlgorithms != [] && kind == SIGNATURE_ALGORITHMS then Some(WordList(h.signatureAlgorithms))
      else None
  {
    FoundAppend(When(h.ecPointFormats, EC_POINT_FORMATS, [1, 0]),
                When(h.signatureAlgorithms != [], SIGNATURE_ALGORITHMS, WordList(h.signatureAlgorithms)), kind);
    FoundWhen(h.ecPointFormats, EC_POINT_FORMATS, [1, 0], kind);
    FoundWhen(h.signatureAlgorithms != [], SIGNATURE_ALGORITHMS, WordList(h.signatureAlgorithms), kind);
  }

  lemma FlagsFound(h: ClientHello, kind: Word)
    ensures Found(FlagsOf(h), kind) ==
      if h.extendedMasterSecret && kind == EXTENDED_MASTER_SECRET then Some([])
      else if h.sessionTicket && kind == SESSION_TICKET then Some([])
      else if h.renegotiationInfo && kind == RENEGOTIATION_INFO then Some([0])
      else None
  {
    var a := When(h.extendedMasterSecret, EXTENDED_MASTER_SECRET, []);
    var b := When(h.sessionTicket, SESSION_TICKET, []);
    var c := When(h.renegotiationInfo, RENEGOTIATION_INFO, [0]);
    FoundAppend(a + b, c, kind);
    FoundAppend(a, b, kind);
    FoundWhen(h.extendedMasterSecret, EXTENDED_MASTER_SECRET, [], kind);
    FoundWhen(h.sessionTicket, SESSION_TICKET, [], kind);
    FoundWhen(h.renegotiationInfo, RENEGOTIATION_INFO, [0], kind);
  }

  lemma Tls13Found(h: ClientHello, entropy: Entropy, kind: Word)
    ensures Found(Tls13Of(h, entropy), kind) ==
      if h.supportedVersions != [] && kind == SUPPORTED_VERSIONS then Some(VersionList(h.supportedVersions))
      else if h.supportedVersions != [] && kind == PSK_KEY_EXCHANGE_MODES then Some([1, 1])
      else if (h.keyShareGroup != 0 || h.supportedVersions != []) && kind == KEY_SHARE then
        Some(ShareOffered(h, entropy))
      else None
  {
    var versions, shares := h.supportedVersions != [], h.keyShareGroup != 0 || h.supportedVersions != [];
    var a := When(versions, SUPPORTED_VERSIONS, VersionList(h.supportedVersions));
    var b := When(versions, PSK_KEY_EXCHANGE_MODES, [1, 1]);
    var c := When(shares, KEY_SHARE, ShareOffered(h, entropy));
    FoundAppend(a + b, c, kind);
    FoundAppend(a, b, kind);
    FoundWhen(versions, SUPPORTED_VERSIONS, VersionList(h.supportedVersions), kind);
    FoundWhen(versions, PSK_KEY_EXCHANGE_MODES, [1, 1], kind);
    FoundWhen(shares, KEY_SHARE, ShareOffered(h, entropy), kind);
  }

  lemma PaddingFound(total: nat, kind: Word)
    requires kind != PADDING
    ensures Found(PaddingFor(total), kind) == None
  {
  }

  lemma SentFound(h: ClientHello, entropy: Entropy, kind: Word)
    requires kind != PADDING
    ensures Found(Sent(h, entropy), kind) ==
      if Found(OffersOf(h), kind).Some? then Found(OffersOf(h), kind)
      else if Found(FormatsOf(h), kind).Some? then Found(FormatsOf(h), kind)
      else if Found(FlagsOf(h), kind).Some? then Found(FlagsOf(h), kind)
      else Found(Tls13Of(h, entropy), kind)
  {
    var o, f, g, t := OffersOf(h), FormatsOf(h), FlagsOf(h), Tls13Of(h, entropy);
    var total := |BodyOf(HeadFor(h, entropy), ExtensionsOf(h, entropy))| + 9;
    FoundAppend(ExtensionsOf(h, entropy), PaddingFor(total), kind);
    PaddingFound(total, kind);
    FoundAppend(o + f + g, t, kind);
    FoundAppend(o + f, g, kind);
    FoundAppend(o, f, kind);
  }

  // The data a hello asks for by kind, whatever the order it is written in.
  function Wanted(h: ClientHello, entropy: Entropy, kind: Word): Option<seq<Byte>> {
    if kind == SERVER_NAME then If(h.serverName != [], ServerNameList(h.serverName))
    else if kind == STATUS_REQUEST then If(h.statusRequest, OCSP_REQUEST)
    else if kind == SUPPORTED_GROUPS then If(h.supportedGroups != [], WordList(h.supportedGroups))
    else if kind == EC_POINT_FORMATS then If(h.ecPointFormats, [1, 0])
    else if kind == SIGNATURE_ALGORITHMS then If(h.signatureAlgorithms != [], WordList(h.signatureAlgorithms))
    else if kind == EXTENDED_MASTER_SECRET then If(h.extendedMasterSecret, [])
    else if kind == SESSION_TICKET then If(h.sessionTicket, [])
    else if kind == RENEGOTIATION_INFO then If(h.renegotiationInfo, [0])
    else if kind == SUPPORTED_VERSIONS then If(h.supportedVersions != [], VersionList(h.supportedVersions))
    else if kind == PSK_KEY_EXCHANGE_MODES then If(h.supportedVersions != [], [1, 1])
    else if kind == KEY_SHARE then If(h.keyShareGroup != 0 || h.supportedVersions != [], ShareOffered(h, entropy))
    else None
  }

  function If(present: bool, data: seq<Byte>): Option<seq<Byte>> {
    if present then Some(data) else None
  }

  lemma FoundEach(h: ClientHello, entropy: Entropy, kind: Word)
    requires kind != PADDING
    ensures Found(Sent(h, entropy), kind) == Wanted(h, entropy, kind)
  {
    SentFound(h, entropy, kind);
    OffersWanted(h, entropy, kind);
    FormatsWanted(h, entropy, kind);
    FlagsWanted(h, entropy, kind);
    Tls13Wanted(h, entropy, kind);
  }

  // What one part of the extensions has of a kind is what is wanted of it.
  ghost predicate PartOf(part: Option<seq<Byte>>, wanted: Option<seq<Byte>>, kinds: set<Word>, kind: Word) {
    if kind in kinds then part == wanted else part.None?
  }

  lemma OffersWanted(h: ClientHello, entropy: Entropy, kind: Word)
    ensures PartOf(Found(OffersOf(h), kind), Wanted(h, entropy, kind),
                   {SERVER_NAME, STATUS_REQUEST, SUPPORTED_GROUPS}, kind)
  {
    OffersFound(h, kind);
  }

  lemma FormatsWanted(h: ClientHello, entropy: Entropy, kind: Word)
    ensures PartOf(Found(FormatsOf(h), kind), Wanted(h, entropy, kind),
                   {EC_POINT_FORMATS, SIGNATURE_ALGORITHMS}, kind)
  {
    FormatsFound(h, kind);
  }

  lemma FlagsWanted(h: ClientHello, entropy: Entropy, kind: Word)
    ensures PartOf(Found(FlagsOf(h), kind), Wanted(h, entropy, kind),
                   {EXTENDED_MASTER_SECRET, SESSION_TICKET, RENEGOTIATION_INFO}, kind)
  {
    FlagsFound(h, kind);
  }

  lemma Tls13Wanted(h: ClientHello, entropy: Entropy, kind: Word)
    ensures PartOf(Found(Tls13Of(h, entropy), kind), Wanted(h, entropy, kind),
                   {SUPPORTED_VERSIONS, PSK_KEY_EXCHANGE_MODES, KEY_SHARE}, kind)
  {
    Tls13Found(h, entropy, kind);
  }

  lemma CarriedAsWanted(h: ClientHello, entropy: Entropy, kind: Word, present: bool, data: seq<Byte>)
    requires kind != PADDING && Wanted(h, entropy, kind) == If(present, data)
    ensures Carried(Sent(h, entropy), kind, present, data)
  {
    FoundEach(h, entropy, kind);
  }

  lemma FlagsAreSaid(h: ClientHello, entropy: Entropy)
    ensures FlagsSay(h, Sent(h, entropy))
  {
    CarriedAsWanted(h, entropy, 5, h.statusRequest, [1, 0, 0, 0, 0]);
    CarriedAsWanted(h, entropy, 11, h.ecPointFormats, [1, 0]);
    CarriedAsWanted(h, entropy, 23, h.extendedMasterSecret, []);
    CarriedAsWanted(h, entropy, 35, h.sessionTicket, []);
    CarriedAsWanted(h, entropy, 45, h.supportedVersions != [], [1, 1]);
    CarriedAsWanted(h, entropy, 0xff01, h.renegotiationInfo, [0]);
  }

  lemma {:induction false} TimesAppend(a: seq<Extension>, b: seq<Extension>, kind: Word)
    ensures Times(a + b, kind) == Times(a, kind) + Times(b, kind)
  {
    if a == [] {
      assert a + b == b;
    } else {
      ConsAppend(a, b);
      TimesAppend(a[1..], b, kind);
    }
  }

  lemma TimesWhen(present: bool, of: Word, data: seq<Byte>, kind: Word)
    ensures Times(When(present, of, data), kind) == if present && of == kind then 1 else 0
  {
  }

  lemma TimesOfThree(a: seq<Extension>, b: seq<Extension>, c: seq<Extension>, kind: Word)
    ensures Times(a + b + c, kind) == Times(a, kind) + Times(b, kind) + Times(c, kind)
  {
    TimesAppend(a + b, c, kind);
    TimesAppend(a, b, kind);
  }

  lemma OffersTimes(h: ClientHello, kind: Word)
    ensures Times(OffersOf(h), kind) <= if kind in {SERVER_NAME, STATUS_REQUEST, SUPPORTED_GROUPS} then 1 else 0
  {
    TimesOfThree(When(h.serverName != [], SERVER_NAME, ServerNameList(h.serverName)),
                 When(h.statusRequest, STATUS_REQUEST, OCSP_REQUEST),
                 When(h.supportedGroups != [], SUPPORTED_GROUPS, WordList(h.supportedGroups)), kind);
    TimesWhen(h.serverName != [], SERVER_NAME, ServerNameList(h.serverName), kind);
    TimesWhen(h.statusRequest, STATUS_REQUEST, OCSP_REQUEST, kind);
    TimesWhen(h.supportedGroups != [], SUPPORTED_GROUPS, WordList(h.supportedGroups), kind);
  }

  lemma FormatsTimes(h: ClientHello, kind: Word)
    ensures Times(FormatsOf(h), kind) <= if kind in {EC_POINT_FORMATS, SIGNATURE_ALGORITHMS} then 1 else 0
  {
    TimesAppend(When(h.ecPointFormats, EC_POINT_FORMATS, [1, 0]),
                When(h.signatureAlgorithms != [], SIGNATURE_ALGORITHMS, WordList(h.signatureAlgorithms)), kind);
    TimesWhen(h.ecPointFormats, EC_POINT_FORMATS, [1, 0], kind);
    TimesWhen(h.signatureAlgorithms != [], SIGNATURE_ALGORITHMS, WordList(h.signatureAlgorithms), kind);
  }

  lemma FlagsTimes(h: ClientHello, kind: Word)
    ensures Times(FlagsOf(h), kind)
      <= if kind in {EXTENDED_MASTER_SECRET, SESSION_TICKET, RENEGOTIATION_INFO} then 1 else 0
  {
    TimesOfThree(When(h.extendedMasterSecret, EXTENDED_MASTER_SECRET, []),
                 When(h.sessionTicket, SESSION_TICKET, []),
                 When(h.renegotiationInfo, RENEGOTIATION_INFO, [0]), kind);
    TimesWhen(h.extendedMasterSecret, EXTENDED_MASTER_SECRET, [], kind);
    TimesWhen(h.sessionTicket, SESSION_TICKET, [], kind);
    TimesWhen(h.renegotiationInfo, RENEGOTIATION_INFO, [0], kind);
  }

  lemma Tls13Times(h: ClientHello, entropy: Entropy, kind: Word)
    ensures Times(Tls13Of(h, entropy), kind)
      <= if kind in {SUPPORTED_VERSIONS, PSK_KEY_EXCHANGE_MODES, KEY_SHARE} then 1 else 0
  {
    var versions, shares := h.supportedVersions != [], h.keyShareGroup != 0 || h.supportedVersions != [];
    TimesOfThree(When(versions, SUPPORTED_VERSIONS, VersionList(h.supportedVersions)),
                 When(versions, PSK_KEY_EXCHANGE_MODES, [1, 1]),
                 When(shares, KEY_SHARE, ShareOffered(h, entropy)), kind);
    TimesWhen(versions, SUPPORTED_VERSIONS, VersionList(h.supportedVersions), kind);
    TimesWhen(versions, PSK_KEY_EXCHANGE_MODES, [1, 1], kind);
    TimesWhen(shares, KEY_SHARE, ShareOffered(h, entropy), kind);
  }

  lemma PaddingTimes(total: nat, kind: Word)
    ensures Times(PaddingFor(total), kind) <= if kind == PADDING then 1 else 0
  {
    if 256 <= total < 512 {
      assert PaddingFor(total)[1..] == [];
    }
  }

  lemma SentTimes(h: ClientHello, entropy: Entropy, kind: Word)
    ensures Times(Sent(h, entropy), kind)
      == Times(OffersOf(h), kind) + Times(FormatsOf(h), kind) + Times(FlagsOf(h), kind)
        + Times(Tls13Of(h, entropy), kind) + Times(PaddingFor(5 + SizeOf(h, entropy)), kind)
  {
    SentIs(h, entropy);
    TimesAppend(ExtensionsOf(h, entropy), PaddingFor(5 + SizeOf(h, entropy)), kind);
    TimesAppend(OffersOf(h) + FormatsOf(h) + FlagsOf(h), Tls13Of(h, entropy), kind);
    TimesOfThree(OffersOf(h), FormatsOf(h), FlagsOf(h), kind);
  }

  lemma SentOnce(h: ClientHello, entropy: Entropy)
    ensures Single(Sent(h, entropy))
  {
    forall kind: Word
      ensures Times(Sent(h, entropy), kind) <=
        if kind in {0, 5, 10, 11, 13, 21, 23, 35, 43, 45, 51, 0xff01} then 1 else 0
    {
      SentTimes(h, entropy, kind);
      OffersTimes(h, kind);
      FormatsTimes(h, kind);
      FlagsTimes(h, kind);
      Tls13Times(h, entropy, kind);
      PaddingTimes(5 + SizeOf(h, entropy), kind);
    }
  }

  // --- Whether each list is read back -----------------------------------------------------------

  lemma {:induction false} DataFits(extensions: seq<Extension>, kind: Word)
    ensures Found(extensions, kind).Some? ==> |Found(extensions, kind).value| <= |MarkedAll(extensions)|
  {
    if extensions != [] {
      DataFits(extensions[1..], kind);
    }
  }

  lemma NameReadBack(name: seq<Byte>)
    requires name != [] && |name| + 5 <= 0xffff
    ensures NameIn(ServerNameList(name)) == Taken(name, [])
  {
    var entry := ServerNameEntry(name);
    assert ServerNameList(name) == PutBlock16(entry) + [];
    TakeBlock16Iff(ServerNameList(name), entry, []);
    assert entry[1..] == PutBlock16(name) + [];
    TakeBlock16Iff(entry[1..], name, []);
  }

  lemma VersionsReadBack(versions: seq<Word>)
    ensures VersionsIn(VersionList(versions)) == Taken(versions, []) <==> |versions| <= 127
  {
    var words := PutWords(versions);
    VersionListReadBack(versions);
    if |versions| > 127 {
      assert VersionList(versions)[1..] == words;
      assert ToByte(2 * |versions|) == 0;
      assert TakeBlock8(VersionList(versions)) == Taken([], words);
    }
  }

  lemma ShareReadBack(group: Word, public: seq<Byte>)
    requires |ShareEntry(group, public)| + 2 <= 0xffff
    ensures ShareIn(PutUint16(ToUint16(|ShareEntry(group, public)|)) + ShareEntry(group, public))
      == Taken((group, public), [])
  {
    var entry := ShareEntry(group, public);
    var data := PutUint16(ToUint16(|entry|)) + entry;
    assert data == PutBlock16(entry) + [];
    TakeBlock16Iff(data, entry, []);
    var rest := PutUint16(|public|) + public;
    assert entry == PutUint16(group) + rest;
    TakeUint16Iff(entry, group, rest);
    assert rest == PutBlock16(public) + [];
    TakeBlock16Iff(rest, public, []);
  }

  lemma SizeBounds(h: ClientHello, entropy: Entropy, kind: Word)
    requires SizeOf(h, entropy) <= 0xffff && kind != PADDING
    ensures Found(Sent(h, entropy), kind).Some? ==> |Found(Sent(h, entropy), kind).value| <= 0xffff
  {
    var extensions := ExtensionsOf(h, entropy);
    var total := |BodyOf(HeadFor(h, entropy), extensions)| + 9;
    FoundAppend(extensions, PaddingFor(total), kind);
    PaddingFound(total, kind);
    DataFits(extensions, kind);
  }

  lemma NameSays(h: ClientHello, entropy: Entropy)
    requires SizeOf(h, entropy) <= 0xffff
    ensures Reads(Found(Sent(h, entropy), SERVER_NAME), NameIn, h.serverName != [], h.serverName)
  {
    FoundEach(h, entropy, SERVER_NAME);
    SizeBounds(h, entropy, SERVER_NAME);
    if h.serverName != [] {
      assert |ServerNameList(h.serverName)| == |h.serverName| + 5;
      NameReadBack(h.serverName);
    }
  }

  lemma WordsSay(words: seq<Word>)
    requires words != [] ==> |WordList(words)| <= 0xffff
    ensures Reads(if words != [] then Some(WordList(words)) else None, TakeWords, words != [], words)
  {
    WordListReadBack(words);
  }

  lemma WordListsSay(h: ClientHello, entropy: Entropy)
    requires SizeOf(h, entropy) <= 0xffff
    ensures Reads(Found(Sent(h, entropy), SUPPORTED_GROUPS), TakeWords, h.supportedGroups != [], h.supportedGroups)
    ensures Reads(Found(Sent(h, entropy), SIGNATURE_ALGORITHMS), TakeWords,
                  h.signatureAlgorithms != [], h.signatureAlgorithms)
  {
    FoundEach(h, entropy, SUPPORTED_GROUPS);
    FoundEach(h, entropy, SIGNATURE_ALGORITHMS);
    SizeBounds(h, entropy, SUPPORTED_GROUPS);
    SizeBounds(h, entropy, SIGNATURE_ALGORITHMS);
    WordsSay(h.supportedGroups);
    WordsSay(h.signatureAlgorithms);
  }

  lemma VersionsSay(h: ClientHello, entropy: Entropy)
    ensures
      Reads(Found(Sent(h, entropy), SUPPORTED_VERSIONS), VersionsIn, h.supportedVersions != [], h.supportedVersions)
      <==> |h.supportedVersions| <= 127
  {
    FoundEach(h, entropy, SUPPORTED_VERSIONS);
    VersionsReadBack(h.supportedVersions);
  }

  lemma ShareIs(h: ClientHello, entropy: Entropy)
    requires Generated(h.keyShareGroup)
    ensures var entry := ShareEntry(h.keyShareGroup, entropy.share(h.keyShareGroup));
      && Wanted(h, entropy, KEY_SHARE) == Some(PutUint16(ToUint16(|entry|)) + entry)
      && |entry| <= 137
  {
  }

  lemma ShareSays(h: ClientHello, entropy: Entropy)
    requires SizeOf(h, entropy) <= 0xffff && Generated(h.keyShareGroup)
    ensures Reads(Found(Sent(h, entropy), KEY_SHARE), ShareIn, true,
                  (h.keyShareGroup, entropy.share(h.keyShareGroup)))
  {
    FoundEach(h, entropy, KEY_SHARE);
    ShareIs(h, entropy);
    ShareReadBack(h.keyShareGroup, entropy.share(h.keyShareGroup));
  }

  lemma ListsSayExactly(h: ClientHello, entropy: Entropy)
    requires SizeOf(h, entropy) <= 0xffff
    ensures ListsSay(h, entropy, Sent(h, entropy)) <==> |h.supportedVersions| <= 127
  {
    NameSays(h, entropy);
    WordListsSay(h, entropy);
    VersionsSay(h, entropy);
    if Generated(h.keyShareGroup) {
      ShareSays(h, entropy);
    } else {
      FoundEach(h, entropy, KEY_SHARE);
    }
  }

  lemma RecordOpensWith(h: ClientHello, entropy: Entropy)
    requires Marshalled(h, entropy).Ok?
    ensures var record := Marshalled(h, entropy).value; |record| >= 5 && record[..3] == [22, 3, 1]
  {
  }

  lemma RandomIsWhole(bytes: seq<Byte>)
    requires HelloIn(bytes).Some?
    ensures |HelloIn(bytes).value.random| == 32
  {
  }

  lemma HelloSays(h: ClientHello, entropy: Entropy)
    requires Marshalled(h, entropy).Ok? && SizeOf(h, entropy) <= 0xffff && |RandomOf(h, entropy)| == 32
    ensures HelloIn(Marshalled(h, entropy).value)
      == Some(ClientFields(h.legacyVersion, RandomOf(h, entropy), SessionIdOf(h, entropy), h.cipherSuites,
                           CompressionOf(h), Sent(h, entropy)))
  {
    MarshalRoundTrip(h, entropy);
  }

  // The exact condition for a hello that goes out to say what was asked for: that the
  // whole of it fits the record's length field, that the versions are at most 127, and
  // that a random given is 32 bytes.
  lemma SaysExactly(h: ClientHello, entropy: Entropy)
    requires Marshalled(h, entropy).Ok?
    ensures Says(h, entropy) <==>
      SizeOf(h, entropy) <= 0xffff && |h.supportedVersions| <= 127 && |RandomOf(h, entropy)| == 32
  {
    OneRecordExactly(h, entropy);
    if HelloIn(Marshalled(h, entropy).value).Some? {
      RandomIsWhole(Marshalled(h, entropy).value);
    }
    if SizeOf(h, entropy) <= 0xffff && |RandomOf(h, entropy)| == 32 {
      HelloSays(h, entropy);
      ListsSayExactly(h, entropy);
      FlagsAreSaid(h, entropy);
      SentOnce(h, entropy);
      RecordOpensWith(h, entropy);
    }
  }

  // A hello with nothing in it but versions.
  predicate OnlyVersions(h: ClientHello) {
    && h.random.None? && h.sessionId.None? && |h.cipherSuites| == 1 && h.compressionMethods == []
    && h.serverName == [] && h.supportedGroups == [] && h.signatureAlgorithms == []
    && h.supportedVersions != [] && h.keyShareGroup == 0
    && !h.renegotiationInfo && !h.extendedMasterSecret && !h.statusRequest && !h.ecPointFormats
    && !h.sessionTicket
  }

  // A second way the claim fails: 128 versions are accepted, go out as one record, and
  // are announced as none.
  lemma ManyVersionsGoOutAsNone(h: ClientHello, entropy: Entropy)
    requires OnlyVersions(h) && |h.supportedVersions| == 128
    ensures Marshalled(h, entropy).Ok? && |RandomOf(h, entropy)| == 32
    ensures var record := Marshalled(h, entropy).value; Frames(RecordLayer, record) == [record]
    ensures Found(Sent(h, entropy), SUPPORTED_VERSIONS) == Some(VersionList(h.supportedVersions))
    ensures VersionsIn(VersionList(h.supportedVersions)) == Taken([], PutWords(h.supportedVersions))
    ensures !Says(h, entropy)
  {
    ManyVersionsSize(h, entropy);
    ManyVersionsMarshalled(h, entropy);
    OneRecordExactly(h, entropy);
    SaysExactly(h, entropy);
    FoundEach(h, entropy, SUPPORTED_VERSIONS);
    ManyVersionsRead(h.supportedVersions);
  }

  // There is such a hello: one record that goes out and says something else.
  lemma VersionsGoOutBroken(entropy: Entropy)
    ensures exists h ::
      && Marshalled(h, entropy).Ok?
      && Frames(RecordLayer, Marshalled(h, entropy).value) == [Marshalled(h, entropy).value]
      && |RandomOf(h, entropy)| == 32
      && !Says(h, entropy)
  {
    var h := ClientHello(0x0303, None, None, [0x1301], [], [], [], [], seq(128, _ => 0x0304), 0,
                         false, false, false, false, false);
    ManyVersionsGoOutAsNone(h, entropy);
  }

  lemma ManyVersionsRead(versions: seq<Word>)
    requires |versions| == 128
    ensures VersionsIn(VersionList(versions)) == Taken([], PutWords(versions))
  {
    assert VersionList(versions)[1..] == PutWords(versions);
    assert ToByte(256) == 0;
  }

  lemma ManyVersionsMarshalled(h: ClientHello, entropy: Entropy)
    requires OnlyVersions(h) && SizeOf(h, entropy) <= 0xffff
    ensures Marshalled(h, entropy).Ok?
  {
    SentSize(h, entropy);
  }

  lemma EachMarked(a: Extension, b: Extension, c: Extension)
    ensures |MarkedAll([a, b, c])| == |a.data| + |b.data| + |c.data| + 12
  {
    var none: seq<Extension> := [];
    assert none + [a] == [a] && [a] + [b] == [a, b] && [a, b] + [c] == [a, b, c];
    MarkedSnoc(none, a);
    MarkedSnoc([a], b);
    MarkedSnoc([a, b], c);
  }

  lemma OnlyTls13(h: ClientHello, entropy: Entropy)
    requires OnlyVersions(h)
    ensures ExtensionsOf(h, entropy) == [
      Extension(SUPPORTED_VERSIONS, VersionList(h.supportedVersions)), Extension(PSK_KEY_EXCHANGE_MODES, [1, 1]),
      Extension(KEY_SHARE, [0, 0])]
  {
    assert OffersOf(h) == [] && FormatsOf(h) == [] && FlagsOf(h) == [];
  }

  lemma ManyVersionsSize(h: ClientHello, entropy: Entropy)
    requires OnlyVersions(h) && |h.supportedVersions| == 128
    ensures SizeOf(h, entropy) == 352
  {
    OnlyTls13(h, entropy);
    EachMarked(Extension(SUPPORTED_VERSIONS, VersionList(h.supportedVersions)),
                Extension(PSK_KEY_EXCHANGE_MODES, [1, 1]), Extension(KEY_SHARE, [0, 0]));
    SizeIs(h, entropy);
  }
}
