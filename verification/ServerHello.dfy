/**
 The ServerHello message: how it is read (pkg/tls/wire/server_response.go) and the
 encoding that reading undoes (sections 4.1.3 and 4.2 of RFC 8446).
 */
module ServerHellos {
  import opened Bytes
  import opened Readers

  const SUPPORTED_VERSIONS: Word := 43
  const KEY_SHARE: Word := 51
  const EXTENDED_MASTER_SECRET: Word := 23
  const RENEGOTIATION_INFO: Word := 0xff01

  const VERSION_TLS12: Word := 0x0303
  const VERSION_TLS13: Word := 0x0304

  // The random that marks a hello retry request (section 4.1.3 of RFC 8446).
  const HELLO_RETRY_REQUEST_RANDOM: seq<Byte> := [
    0xCF, 0x21, 0xAD, 0x74, 0xE5, 0x9A, 0x61, 0x11,
    0xBE, 0x1D, 0x8C, 0x02, 0x1E, 0x65, 0xB8, 0x91,
    0xC2, 0xA2, 0x11, 0x16, 0x7A, 0xBB, 0x8C, 0x5E,
    0x07, 0x9E, 0x09, 0xE2, 0xC8, 0xA8, 0x33, 0x9C
  ]

  datatype Extension = Extension(kind: Word, data: seq<Byte>)

  // --- The extension block --------------------------------------------------------

  function TakeExtensions(block: seq<Byte>): Taken<seq<Extension>>
    decreases |block|
  {
    if block == [] then Taken([], []) else
    var (kind, s1) :- TakeUint16(block);
    var (data, s2) :- TakeBlock16(s1);
    var (more, s3) :- TakeExtensions(s2);
    Taken([Extension(kind, data)] + more, s3)
  }

  ghost predicate Fit(extensions: seq<Extension>) {
    forall e :: e in extensions ==> |e.data| < 0x1_0000
  }

  function PutExtension(e: Extension): seq<Byte>
    requires |e.data| < 0x1_0000
  {
    PutUint16(e.kind) + PutBlock16(e.data)
  }

  function PutExtensions(extensions: seq<Extension>): seq<Byte>
    requires Fit(extensions)
  {
    if extensions == [] then [] else PutExtension(extensions[0]) + PutExtensions(extensions[1..])
  }

  lemma PutExtensionsCons(e: Extension, more: seq<Extension>)
    requires |e.data| < 0x1_0000 && Fit(more)
    ensures Fit([e] + more)
    ensures PutExtensions([e] + more) == PutExtension(e) + PutExtensions(more)
  {
    assert ([e] + more)[1..] == more;
  }

  // The walk reads each extension inside its own length prefix and uses up the block:
  // it yields a list exactly when the block is that list's encoding.
  lemma {:induction false} TakeExtensionsIff(block: seq<Byte>, extensions: seq<Extension>)
    ensures TakeExtensions(block) == Taken(extensions, [])
      <==> Fit(extensions) && block == PutExtensions(extensions)
    decreases |block|
  {
    if extensions != [] && Fit(extensions) {
      var e, more := extensions[0], extensions[1..];
      assert extensions == [e] + more;
      Associate(PutUint16(e.kind), PutBlock16(e.data), PutExtensions(more));
      if block == PutExtensions(extensions) {
        TakeUint16Iff(block, e.kind, PutBlock16(e.data) + PutExtensions(more));
        TakeBlock16Iff(block[2..], e.data, PutExtensions(more));
        TakeExtensionsIff(PutExtensions(more), more);
      }
    }
    if TakeExtensions(block) == Taken(extensions, []) && block != [] {
      TakeExtensionsStep(block, extensions);
      var e, more := extensions[0], extensions[1..];
      var rest := TakeBlock16(block[2..]).rest;
      TakeExtensionsIff(rest, more);
      PutExtensionsCons(e, more);
      assert extensions == [e] + more;
    }
  }

  lemma TakeExtensionsStep(block: seq<Byte>, extensions: seq<Extension>)
    requires block != [] && TakeExtensions(block) == Taken(extensions, [])
    ensures extensions != [] && |extensions[0].data| < 0x1_0000
    ensures |block| >= 2 && TakeBlock16(block[2..]).Taken?
    ensures TakeExtensions(TakeBlock16(block[2..]).rest) == Taken(extensions[1..], [])
    ensures block == PutExtension(extensions[0]) + TakeBlock16(block[2..]).rest
  {
    var kind, s1 := TakeUint16(block).value, block[2..];
    var data, s2 := TakeBlock16(s1).value, TakeBlock16(s1).rest;
    TakeUint16Iff(block, kind, s1);
    TakeBlock16Iff(s1, data, s2);
    Associate(PutUint16(kind), PutBlock16(data), s2);
  }

  // The map the parser fills: a later extension of the same kind overwrites.
  function Table(extensions: seq<Extension>): map<Word, seq<Byte>> {
    if extensions == [] then map[] else
    var last := extensions[|extensions| - 1];
    Table(extensions[..|extensions| - 1])[last.kind := last.data]
  }

  // Every entry is the last extension of its kind, and every kind that was sent has one.
  lemma {:induction false} TableIsLastWins(extensions: seq<Extension>, kind: Word)
    ensures kind in Table(extensions) <==> exists i :: 0 <= i < |extensions| && extensions[i].kind == kind
    ensures kind in Table(extensions) ==>
      exists i :: 0 <= i < |extensions| && extensions[i] == Extension(kind, Table(extensions)[kind])
        && forall j :: i < j < |extensions| ==> extensions[j].kind != kind
  {
    if extensions != [] {
      var n := |extensions| - 1;
      var before := extensions[..n];
      TableIsLastWins(before, kind);
      if extensions[n].kind == kind {
        assert extensions[n] == Extension(kind, Table(extensions)[kind]);
      } else if kind in Table(extensions) {
        var i :| 0 <= i < |before| && before[i] == Extension(kind, Table(before)[kind])
          && forall j :: i < j < |before| ==> before[j].kind != kind;
        assert extensions[i] == Extension(kind, Table(extensions)[kind]);
        forall j | i < j < |extensions| ensures extensions[j].kind != kind {
          if j < n {
            assert before[j].kind != kind;
          }
        }
      } else {
        forall i | 0 <= i < |extensions| ensures extensions[i].kind != kind {
          if i < n {
            assert before[i].kind != kind;
          }
        }
      }
    }
  }

  // --- The message ------------------------------------------------------------------

  // The fields of the message as a server writes them. A server that speaks nothing
  // newer than TLS 1.2 may leave the extension block out.
  datatype Fields = Fields(
    legacyVersion: Word,
    random: seq<Byte>,
    sessionId: seq<Byte>,
    cipherSuite: Word,
    compressionMethod: Byte,
    extensions: Option<seq<Extension>>)

  // The choices a hello makes known, with the negotiated version already settled.
  datatype ServerHello = ServerHello(
    legacyVersion: Word,
    version: Word,
    random: seq<Byte>,
    sessionId: seq<Byte>,
    cipherSuite: Word,
    compressionMethod: Byte,
    extensions: map<Word, seq<Byte>>,
    isHelloRetryRequest: bool,
    keyShareGroup: Option<Word>)
  {
    predicate HasExtension(kind: Word) {
      kind in extensions
    }
  }

  // The 16-bit value an extension opens with, when it is there and long enough.
  function Leading(table: map<Word, seq<Byte>>, kind: Word): Option<Word> {
    if kind in table && |table[kind]| >= 2 then
      Some(BigEndian16(table[kind][0], table[kind][1]))
    else
      None
  }

  // What the fields mean: the negotiated version is the one in supported_versions when
  // there is one, and the legacy field otherwise.
  function Meaning(f: Fields): ServerHello {
    var table := if f.extensions.Some? then Table(f.extensions.value) else map[];
    var stated := Leading(table, SUPPORTED_VERSIONS);
    ServerHello(
      f.legacyVersion,
      if stated.Some? then stated.value else f.legacyVersion,
      f.random, f.sessionId, f.cipherSuite, f.compressionMethod,
      table,
      f.random == HELLO_RETRY_REQUEST_RANDOM,
      Leading(table, KEY_SHARE))
  }

  function TakeExtensionBlock(s: seq<Byte>): Taken<Option<seq<Extension>>> {
    if s == [] then Taken(None, []) else
    var (block, rest) :- TakeBlock16(s);
    var (extensions, _) :- TakeExtensions(block);
    Taken(Some(extensions), rest)
  }

  function TakeFields(body: seq<Byte>): Taken<Fields> {
    var (legacyVersion, s1) :- TakeUint16(body);
    var (random, s2) :- TakeBytes(s1, 32);
    var (sessionId, s3) :- TakeBlock8(s2);
    var (cipherSuite, s4) :- TakeUint16(s3);
    var (compressionMethod, s5) :- TakeUint8(s4);
    var (extensions, s6) :- TakeExtensionBlock(s5);
    Taken(Fields(legacyVersion, random, sessionId, cipherSuite, compressionMethod, extensions), s6)
  }

  // What ParseServerHello answers; bytes after the extension block are not looked at.
  function Parse(body: seq<Byte>): Option<ServerHello> {
    match TakeFields(body)
    case Taken(f, _) => Some(Meaning(f))
    case Truncated => None
  }

  ghost predicate WellFormed(f: Fields) {
    && |f.random| == 32
    && |f.sessionId| < 0x100
    && (f.extensions.Some? ==> Fit(f.extensions.value) && |PutExtensions(f.extensions.value)| < 0x1_0000)
  }

  function PutExtensionBlock(extensions: Option<seq<Extension>>): seq<Byte>
    requires extensions.Some? ==> Fit(extensions.value) && |PutExtensions(extensions.value)| < 0x1_0000
  {
    if extensions.None? then [] else PutBlock16(PutExtensions(extensions.value))
  }

  function Put(f: Fields): seq<Byte>
    requires WellFormed(f)
  {
    PutUint16(f.legacyVersion) + (f.random + (PutBlock8(f.sessionId) + (PutUint16(f.cipherSuite) +
    ([f.compressionMethod] + PutExtensionBlock(f.extensions)))))
  }

  lemma {:induction false} TakeExtensionsUsesAll(block: seq<Byte>)
    ensures TakeExtensions(block).Taken? ==> TakeExtensions(block).rest == []
    decreases |block|
  {
    if TakeExtensions(block).Taken? && block != [] {
      TakeExtensionsUsesAll(TakeBlock16(block[2..]).rest);
    }
  }

  lemma TakeExtensionBlockIff(s: seq<Byte>, extensions: Option<seq<Extension>>, rest: seq<Byte>)
    ensures TakeExtensionBlock(s) == Taken(extensions, rest) <==>
      && (extensions.Some? ==> Fit(extensions.value) && |PutExtensions(extensions.value)| < 0x1_0000)
      && s == PutExtensionBlock(extensions) + rest
      && (extensions.None? ==> rest == [])
  {
    if TakeExtensionBlock(s) == Taken(extensions, rest) && s != [] {
      var block := TakeBlock16(s).value;
      TakeBlock16Iff(s, block, rest);
      TakeExtensionsUsesAll(block);
      TakeExtensionsIff(block, extensions.value);
    }
    if extensions.Some? && Fit(extensions.value) && |PutExtensions(extensions.value)| < 0x1_0000 {
      var block := PutExtensions(extensions.value);
      TakeBlock16Iff(s, block, rest);
      TakeExtensionsIff(block, extensions.value);
    }
  }

  // Parsing inverts encoding, both ways: fields come back, with what was left unread,
  // exactly when the body is their encoding followed by it. Only a hello with an
  // extension block can leave anything unread.
  lemma TakeFieldsInverse(f: Fields, rest: seq<Byte>)
    requires WellFormed(f)
    requires f.extensions.None? ==> rest == []
    ensures TakeFields(Put(f) + rest) == Taken(f, rest)
  {
    var s5 := PutExtensionBlock(f.extensions) + rest;
    var s4 := [f.compressionMethod] + s5;
    var s3 := PutUint16(f.cipherSuite) + s4;
    var s2 := PutBlock8(f.sessionId) + s3;
    var s1 := f.random + s2;
    PutThenRest(f, rest);
    TakeUint16Iff(Put(f) + rest, f.legacyVersion, s1);
    TakeBytesIff(s1, f.random, s2);
    TakeBlock8Iff(s2, f.sessionId, s3);
    TakeUint16Iff(s3, f.cipherSuite, s4);
    TakeUint8Iff(s4, f.compressionMethod, s5);
    TakeExtensionBlockIff(s5, f.extensions, rest);
  }

  lemma PutThenRest(f: Fields, rest: seq<Byte>)
    requires WellFormed(f)
    ensures Put(f) + rest == PutUint16(f.legacyVersion) + (f.random + (PutBlock8(f.sessionId) +
      (PutUint16(f.cipherSuite) + ([f.compressionMethod] + (PutExtensionBlock(f.extensions) + rest)))))
  {
    var p5 := PutExtensionBlock(f.extensions);
    var p4 := [f.compressionMethod] + p5;
    var p3 := PutUint16(f.cipherSuite) + p4;
    var p2 := PutBlock8(f.sessionId) + p3;
    Associate(PutUint16(f.legacyVersion), f.random + p2, rest);
    Associate(f.random, p2, rest);
    Associate(PutBlock8(f.sessionId), p3, rest);
    Associate(PutUint16(f.cipherSuite), p4, rest);
    Associate([f.compressionMethod], p5, rest);
  }

  lemma TakeFieldsSound(body: seq<Byte>)
    requires TakeFields(body).Taken?
    ensures WellFormed(TakeFields(body).value)
    ensures body == Put(TakeFields(body).value) + TakeFields(body).rest
    ensures TakeFields(body).value.extensions.None? ==> TakeFields(body).rest == []
  {
    var Taken(f, rest) := TakeFields(body);
    var s1 := TakeUint16(body).rest;
    var s2 := TakeBytes(s1, 32).rest;
    var s3 := TakeBlock8(s2).rest;
    var s4 := TakeUint16(s3).rest;
    var s5 := TakeUint8(s4).rest;
    TakeUint16Iff(body, f.legacyVersion, s1);
    TakeBytesIff(s1, f.random, s2);
    TakeBlock8Iff(s2, f.sessionId, s3);
    TakeUint16Iff(s3, f.cipherSuite, s4);
    TakeUint8Iff(s4, f.compressionMethod, s5);
    TakeExtensionBlockIff(s5, f.extensions, rest);
    PutThenRest(f, rest);
  }

  lemma TakeFieldsIff(body: seq<Byte>, f: Fields, rest: seq<Byte>)
    ensures TakeFields(body) == Taken(f, rest) <==>
      && WellFormed(f)
      && body == Put(f) + rest
      && (f.extensions.None? ==> rest == [])
  {
    if TakeFields(body).Taken? {
      TakeFieldsSound(body);
    }
    if WellFormed(f) && (f.extensions.None? ==> rest == []) {
      TakeFieldsInverse(f, rest);
    }
  }

  // The version a parsed hello reports, in terms of the list that was sent: the value
  // of the last supported_versions extension if that holds two bytes, and otherwise the
  // legacy field.
  ghost predicate LastOfKind(list: seq<Extension>, kind: Word, i: int) {
    && 0 <= i < |list|
    && list[i].kind == kind
    && forall j :: i < j < |list| ==> list[j].kind != kind
  }

  lemma LeadingOfLast(list: seq<Extension>, kind: Word)
    ensures if exists i :: LastOfKind(list, kind, i) && |list[i].data| >= 2 then
        exists i :: LastOfKind(list, kind, i) && |list[i].data| >= 2
          && Leading(Table(list), kind) == Some(BigEndian16(list[i].data[0], list[i].data[1]))
      else
        Leading(Table(list), kind) == None
  {
    TableIsLastWins(list, kind);
    if kind in Table(list) {
      var i :| 0 <= i < |list| && list[i] == Extension(kind, Table(list)[kind])
        && forall j :: i < j < |list| ==> list[j].kind != kind;
      assert LastOfKind(list, kind, i);
      forall k | LastOfKind(list, kind, k) ensures k == i {
      }
    }
  }

  // The negotiated version, from the encoded fields: the first two bytes of the last
  // supported_versions extension, where that has two, and the legacy field otherwise.
  lemma VersionOfLastExtension(f: Fields)
    requires WellFormed(f)
    ensures var h := Parse(Put(f));
      && h.Some?
      && (f.extensions.None? ==> h.value.version == f.legacyVersion)
      && (f.extensions.Some? ==>
        var list := f.extensions.value;
        if exists i :: LastOfKind(list, SUPPORTED_VERSIONS, i) && |list[i].data| >= 2 then
          exists i :: LastOfKind(list, SUPPORTED_VERSIONS, i) && |list[i].data| >= 2
            && h.value.version == BigEndian16(list[i].data[0], list[i].data[1])
        else
          h.value.version == f.legacyVersion)
  {
    TakeFieldsInverse(f, []);
    assert Put(f) + [] == Put(f);
    if f.extensions.Some? {
      LeadingOfLast(f.extensions.value, SUPPORTED_VERSIONS);
    }
  }

  method ParseServerHello(body: seq<Byte>) returns (hello: Option<ServerHello>)
    ensures hello == Parse(body)
  {
    var reader := new Reader(body);
    var legacyVersion := reader.Uint16();
    if legacyVersion.None? {
      return None;
    }
    var version := legacyVersion.value;
    var random := reader.Bytes(32);
    if random.None? {
      return None;
    }
    var sessionId := reader.Uint8LengthPrefixed();
    if sessionId == null {
      return None;
    }
    var session := sessionId.Rest();
    var cipherSuite := reader.Uint16();
    if cipherSuite.None? {
      return None;
    }
    var compressionMethod := reader.Uint8();
    if compressionMethod.None? {
      return None;
    }
    var retry := random.value == HELLO_RETRY_REQUEST_RANDOM;
    var table: map<Word, seq<Byte>> := map[];
    var done := reader.Empty();
    if done {
      return Some(ServerHello(legacyVersion.value, version, random.value, session, cipherSuite.value,
                              compressionMethod.value, table, retry, None));
    }
    var extensions := reader.Uint16LengthPrefixed();
    if extensions == null {
      return None;
    }
    var read := ReadExtensions(extensions);
    if read.None? {
      return None;
    }
    table := read.value;
    var stated := Leading(table, SUPPORTED_VERSIONS);
    if stated.Some? {
      version := stated.value;
    }
    var group := Leading(table, KEY_SHARE);
    hello := Some(ServerHello(legacyVersion.value, version, random.value, session, cipherSuite.value,
                              compressionMethod.value, table, retry, group));
  }

  // The loop over the extension block, filling the map as it goes.
  method ReadExtensions(extensions: Reader) returns (table: Option<map<Word, seq<Byte>>>)
    modifies extensions
    ensures match TakeExtensions(old(extensions.data))
            case Taken(list, _) => table == Some(Table(list))
            case Truncated => table == None
  {
    ghost var block := extensions.data;
    ghost var read: seq<Extension> := [];
    var filled: map<Word, seq<Byte>> := map[];
    if TakeExtensions(block).Taken? {
      assert read + TakeExtensions(block).value == TakeExtensions(block).value;
    }
    while extensions.data != []
      invariant filled == Table(read)
      invariant match TakeExtensions(extensions.data)
                case Taken(list, rest) => TakeExtensions(block) == Taken(read + list, rest)
                case Truncated => TakeExtensions(block) == Truncated
      decreases |extensions.data|
    {
      ghost var before := extensions.data;
      var kind := extensions.Uint16();
      if kind.None? {
        return None;
      }
      var data := extensions.Uint16LengthPrefixed();
      if data == null {
        return None;
      }
      var value := data.Rest();
      ghost var e := Extension(kind.value, value);
      assert TakeExtensions(before).Taken? ==>
        TakeExtensions(before).value == [e] + TakeExtensions(extensions.data).value;
      if TakeExtensions(before).Taken? {
        Associate(read, [e], TakeExtensions(extensions.data).value);
      }
      filled := filled[kind.value := value];
      assert (read + [e])[..|read|] == read;
      read := read + [e];
    }
    assert read + [] == read;
    table := Some(filled);
  }
}
