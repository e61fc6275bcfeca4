/**
 Whether a server offers 0-RTT, read out of its recorded byte stream
 (pkg/tls/probe/early_data.go; sections 4.6.1, 5.2 and 5.3 of RFC 8446). Record
 protection is ideal: a vault holds what was sealed, and a record opens exactly when it
 was sealed with the same key, nonce and header.
 */
module EarlyDatas {
  import opened Bytes
  import opened Readers
  import opened Framing
  import opened ServerHellos
  import opened KeyExchanges

  const NEW_SESSION_TICKET: Byte := 4
  const FINISHED: Byte := 20
  const EARLY_DATA: Word := 42

  const SEQUENCE_LIMIT: nat := 0x1_0000_0000_0000_0000

  // --- Nonces -----------------------------------------------------------------------

  // Exclusive or of the bottom bits of two numbers, bit by bit.
  function XorBits(a: nat, b: nat, bits: nat): (c: nat)
    ensures c < Pow2(bits)
  {
    if bits == 0 then 0
    else 2 * XorBits(a / 2, b / 2, bits - 1) + (if a % 2 == b % 2 then 0 else 1)
  }

  function Xor(a: Byte, b: Byte): Byte {
    EightBits();
    XorBits(a, b, 8)
  }

  lemma EightBits()
    ensures Pow2(8) == 0x100
  {
    assert Pow2(3) == 8;
    assert Pow2(6) == 64;
  }

  lemma {:induction false} XorBitsInjective(a: nat, b: nat, c: nat, bits: nat)
    requires b < Pow2(bits) && c < Pow2(bits)
    requires XorBits(a, b, bits) == XorBits(a, c, bits)
    ensures b == c
  {
    if bits > 0 {
      XorBitsInjective(a / 2, b / 2, c / 2, bits - 1);
    }
  }

  lemma XorInjective(a: Byte, b: Byte, c: Byte)
    requires Xor(a, b) == Xor(a, c)
    ensures b == c
  {
    EightBits();
    XorBitsInjective(a, b, c, 8);
  }

  // A number in a fixed count of bytes, big end first.
  function BigEndian(n: nat, width: nat): (bytes: seq<Byte>)
    ensures |bytes| == width
  {
    if width == 0 then [] else BigEndian(n / 0x100, width - 1) + [n % 0x100]
  }

  function Pow256(n: nat): nat {
    if n == 0 then 1 else 0x100 * Pow256(n - 1)
  }

  lemma {:induction false} BigEndianValue(n: nat, width: nat)
    requires n < Pow256(width)
    ensures Value(BigEndian(n, width)) == n
  {
    if width > 0 {
      BigEndianValue(n / 0x100, width - 1);
      var bytes := BigEndian(n, width);
      assert bytes[..width - 1] == BigEndian(n / 0x100, width - 1);
    }
  }

  function Xored(a: seq<Byte>, b: seq<Byte>): (c: seq<Byte>)
    requires |a| == |b|
    ensures |c| == |a|
    ensures forall i :: 0 <= i < |c| ==> c[i] == Xor(a[i], b[i])
  {
    seq(|a|, i requires 0 <= i < |a| => Xor(a[i], b[i]))
  }

  type Iv = s: seq<Byte> | |s| == 12 witness seq(12, _ => 0)

  // The iv with the sequence number added into its last eight bytes.
  function Nonce(iv: Iv, sequence: nat): seq<Byte> {
    iv[..4] + Xored(iv[4..], BigEndian(sequence, 8))
  }

  // No two sequence numbers of an epoch share a nonce.
  lemma NonceInjective(iv: Iv, a: nat, b: nat)
    requires a < SEQUENCE_LIMIT && b < SEQUENCE_LIMIT
    requires Nonce(iv, a) == Nonce(iv, b)
    ensures a == b
  {
    var x, y := BigEndian(a, 8), BigEndian(b, 8);
    var high := iv[4..];
    assert Nonce(iv, a)[4..] == Xored(high, x);
    assert Nonce(iv, b)[4..] == Xored(high, y);
    forall i | 0 <= i < 8 ensures x[i] == y[i] {
      assert Xored(high, x)[i] == Xored(high, y)[i];
      XorInjective(high[i], x[i], y[i]);
    }
    assert x == y;
    EightBytes();
    BigEndianValue(a, 8);
    BigEndianValue(b, 8);
  }

  lemma EightBytes()
    ensures Pow256(8) == SEQUENCE_LIMIT
  {
    assert Pow256(2) == 0x1_0000;
    assert Pow256(4) == 0x1_0000_0000;
    assert Pow256(6) == 0x1_0000_0000_0000;
  }

  // --- Tickets ------------------------------------------------------------------------

  // The size in the first early_data extension of a ticket, if that can be read.
  function FindEarlyData(block: seq<Byte>): Option<nat>
    decreases |block|
  {
    if block == [] then None else
    match TakeUint16(block)
    case Truncated => None
    case Taken(kind, s1) =>
      match TakeBlock16(s1)
      case Truncated => None
      case Taken(data, s2) =>
        if kind != EARLY_DATA then FindEarlyData(s2) else
        var size := TakeUint32(data);
        if size.Taken? then Some(size.value) else None
  }

  // lifetime and age_add, nonce, ticket, extensions.
  function TakeTicketExtensions(body: seq<Byte>): Taken<seq<Byte>> {
    var (_, s1) :- TakeUint32(body);
    var (_, s2) :- TakeUint32(s1);
    var (_, s3) :- TakeBlock8(s2);
    var (_, s4) :- TakeBlock16(s3);
    TakeBlock16(s4)
  }

  function SizeInTicket(body: seq<Byte>): Option<nat> {
    match TakeTicketExtensions(body)
    case Truncated => None
    case Taken(block, _) => FindEarlyData(block)
  }

  datatype Ticket = Ticket(times: seq<Byte>, nonce: seq<Byte>, ticket: seq<Byte>, extensions: seq<Extension>)

  ghost predicate TicketFits(t: Ticket) {
    && |t.times| == 8 && |t.nonce| < 0x100 && |t.ticket| < 0x1_0000
    && Fit(t.extensions) && |PutExtensions(t.extensions)| < 0x1_0000
  }

  function PutTicket(t: Ticket): seq<Byte>
    requires TicketFits(t)
  {
    t.times + (PutBlock8(t.nonce) + (PutBlock16(t.ticket) + PutBlock16(PutExtensions(t.extensions))))
  }

  // What a ticket offers: what its first early_data extension says.
  function Offered(extensions: seq<Extension>): Option<nat> {
    if extensions == [] then None
    else if extensions[0].kind != EARLY_DATA then Offered(extensions[1..])
    else
      var size := TakeUint32(extensions[0].data);
      if size.Taken? then Some(size.value) else None
  }

  lemma {:induction false} FindInExtensions(extensions: seq<Extension>)
    requires Fit(extensions)
    ensures FindEarlyData(PutExtensions(extensions)) == Offered(extensions)
  {
    if extensions != [] {
      var e, more := extensions[0], PutExtensions(extensions[1..]);
      Associate(PutUint16(e.kind), PutBlock16(e.data), more);
      TakeUint16Iff(PutExtensions(extensions), e.kind, PutBlock16(e.data) + more);
      TakeBlock16Iff(PutBlock16(e.data) + more, e.data, more);
      FindInExtensions(extensions[1..]);
    }
  }

  // Every ticket is read for what it offers.
  lemma TicketRoundTrip(t: Ticket)
    requires TicketFits(t)
    ensures SizeInTicket(PutTicket(t)) == Offered(t.extensions)
  {
    var block := PutExtensions(t.extensions);
    var s4 := PutBlock16(block);
    var s3 := PutBlock16(t.ticket) + s4;
    var s2 := PutBlock8(t.nonce) + s3;
    var body := PutTicket(t);
    assert body[4..] == t.times[4..] + s2;
    assert body[4..][4..] == s2;
    TakeBlock8Iff(s2, t.nonce, s3);
    TakeBlock16Iff(s3, t.ticket, s4);
    assert s4 + [] == s4;
    TakeBlock16Iff(s4, block, []);
    FindInExtensions(t.extensions);
  }

  method EarlyDataFromTicket(body: seq<Byte>) returns (size: Option<nat>)
    ensures size == SizeInTicket(body)
  {
    var reader := new Reader(body);
    var lifetime := reader.Uint32();
    if lifetime.None? {
      return None;
    }
    var ageAdd := reader.Uint32();
    if ageAdd.None? {
      return None;
    }
    var nonce := reader.Uint8LengthPrefixed();
    if nonce == null {
      return None;
    }
    var ticket := reader.Uint16LengthPrefixed();
    if ticket == null {
      return None;
    }
    var extensions := reader.Uint16LengthPrefixed();
    if extensions == null {
      return None;
    }
    size := FirstEarlyData(extensions);
  }

  method FirstEarlyData(extensions: Reader) returns (size: Option<nat>)
    modifies extensions
    ensures size == FindEarlyData(old(extensions.data))
  {
    while extensions.data != []
      invariant FindEarlyData(old(extensions.data)) == FindEarlyData(extensions.data)
      decreases |extensions.data|
    {
      var kind := extensions.Uint16();
      if kind.None? {
        return None;
      }
      var data := extensions.Uint16LengthPrefixed();
      if data == null {
        return None;
      }
      if kind.value != EARLY_DATA {
        continue;
      }
      size := data.Uint32();
      return;
    }
    size := None;
  }

  // --- Opening a record -------------------------------------------------------------------

  datatype Keys = Keys(key: seq<Byte>, iv: Iv)

  datatype Sealing = Sealing(key: seq<Byte>, nonce: seq<Byte>, header: seq<Byte>, payload: seq<Byte>)

  // Everything that was ever sealed, and what it held.
  type Vault = map<Sealing, seq<Byte>>

  function SealingOf(keys: Keys, sequence: nat, record: seq<Byte>): Sealing
    requires |record| >= 5
  {
    Sealing(keys.key, Nonce(keys.iv, sequence), record[..5], record[5..])
  }

  function Zeros(n: nat): (s: seq<Byte>)
    ensures |s| == n
  {
    seq(n, _ => 0)
  }

  // The real content type is the last byte that is not zero; after it is padding.
  function Strip(plain: seq<Byte>): Option<(seq<Byte>, Byte)> {
    if plain == [] then None else
    var n := |plain| - 1;
    if plain[n] != 0 then Some((plain[..n], plain[n])) else Strip(plain[..n])
  }

  lemma {:induction false} StripPadded(content: seq<Byte>, kind: Byte, padding: nat)
    requires kind != 0
    ensures Strip(content + [kind] + Zeros(padding)) == Some((content, kind))
  {
    var plain := content + [kind] + Zeros(padding);
    if padding == 0 {
      assert plain[..|plain| - 1] == content;
    } else {
      assert plain[..|plain| - 1] == content + [kind] + Zeros(padding - 1);
      StripPadded(content, kind, padding - 1);
    }
  }

  // Stripping inverts padding, both ways.
  lemma {:induction false} StripIff(plain: seq<Byte>, content: seq<Byte>, kind: Byte)
    ensures Strip(plain) == Some((content, kind)) <==>
      kind != 0 && exists padding: nat :: plain == content + [kind] + Zeros(padding)
  {
    if kind != 0 && exists padding: nat :: plain == content + [kind] + Zeros(padding) {
      var padding: nat :| plain == content + [kind] + Zeros(padding);
      StripPadded(content, kind, padding);
    }
    if Strip(plain) == Some((content, kind)) {
      var n := |plain| - 1;
      if plain[n] != 0 {
        assert plain == content + [kind] + Zeros(0);
      } else {
        StripIff(plain[..n], content, kind);
        var padding: nat :| plain[..n] == content + [kind] + Zeros(padding);
        assert plain == content + [kind] + Zeros(padding + 1);
      }
    }
  }

  function Next(sequence: nat): nat {
    (sequence + 1) % SEQUENCE_LIMIT
  }

  class Epoch {
    const keys: Keys
    var sequence: nat

    constructor (keys: Keys)
      ensures this.keys == keys && sequence == 0
    {
      this.keys := keys;
      sequence := 0;
    }

    // A record that opens moves the sequence number, even one that turns out to hold
    // nothing but padding; one that does not open leaves it.
    method Open(vault: Vault, record: seq<Byte>) returns (unsealed: Option<(seq<Byte>, Byte)>)
      requires |record| >= 5
      modifies this
      ensures var sealing := SealingOf(keys, old(sequence), record);
        if sealing in vault then
          unsealed == Strip(vault[sealing]) && sequence == Next(old(sequence))
        else
          unsealed == None && sequence == old(sequence)
    {
      var nonce := XorIn(keys.iv, sequence);
      var sealing := Sealing(keys.key, nonce, record[..5], record[5..]);
      if sealing !in vault {
        return None;
      }
      sequence := Next(sequence);
      unsealed := StripPadding(vault[sealing]);
    }
  }

  // The iv is copied and the sequence number xored into its end, byte by byte.
  method XorIn(iv: Iv, sequence: nat) returns (result: seq<Byte>)
    ensures result == Nonce(iv, sequence)
  {
    var nonce := new Byte[12](i requires 0 <= i < 12 => iv[i]);
    var big := BigEndian(sequence, 8);
    ghost var expected := Nonce(iv, sequence);
    for index := 0 to 8
      invariant forall i :: 0 <= i < 4 + index ==> nonce[i] == expected[i]
      invariant forall i :: 4 + index <= i < 12 ==> nonce[i] == iv[i]
    {
      assert expected[4 + index] == Xored(iv[4..], big)[index];
      nonce[4 + index] := Xor(nonce[4 + index], big[index]);
    }
    result := nonce[..];
  }

  method StripPadding(plain: seq<Byte>) returns (result: Option<(seq<Byte>, Byte)>)
    ensures result == Strip(plain)
  {
    var index := |plain| - 1;
    assert plain[..index + 1] == plain;
    while index >= 0
      invariant -1 <= index < |plain|
      invariant Strip(plain) == Strip(plain[..index + 1])
    {
      assert plain[..index + 1][..index] == plain[..index];
      if plain[index] != 0 {
        return Some((plain[..index], plain[index]));
      }
      index := index - 1;
    }
    result := None;
  }

  // --- Walking the records ------------------------------------------------------------------

  datatype EarlyData = Determined(maxSize: Option<nat>) | Undetermined(reason: string)

  const NO_SECRETS := "the connection's traffic secrets were not available"
  const NO_CIPHER := "the negotiated cipher suite is not one whose records this can open"
  const LOST := "a record could not be opened after the key change"
  const LOST_FIRST := "the first record after the key change could not be opened"
  const NO_TICKET := "the server sent no session ticket this could read"

  datatype Secrets = Secrets(handshake: Keys, application: Keys) {
    function Of(application: bool): Keys {
      if application then this.application else handshake
    }
  }

  // Where the walk stands: whether the keys have changed, and both sequence numbers.
  datatype Walk = Walk(switched: bool, handshake: nat, application: nat) {
    function Sequence(): nat {
      if switched then application else handshake
    }

    function Opened(): Walk {
      if switched then this.(application := Next(application)) else this.(handshake := Next(handshake))
    }
  }

  // One successful opening: which epoch's keys, and which sequence number.
  datatype Opening = Opening(application: bool, sequence: nat)

  datatype Verdict = Stop(result: EarlyData) | GoOn

  function TryOpen(vault: Vault, secrets: Secrets, walk: Walk, record: seq<Byte>)
    : (Option<(seq<Byte>, Byte)>, Walk, seq<Opening>)
    requires |record| >= 5
  {
    var sealing := SealingOf(secrets.Of(walk.switched), walk.Sequence(), record);
    if sealing !in vault then (None, walk, [])
    else (Strip(vault[sealing]), walk.Opened(), [Opening(walk.switched, walk.Sequence())])
  }

  // What an offer comes to: a size of zero is not one.
  function Verdicts(size: nat): EarlyData {
    Determined(if size == 0 then None else Some(size))
  }

  function ScanMessages(messages: seq<Message>, switched: bool): (Verdict, bool) {
    if messages == [] then (GoOn, switched) else
    var m := messages[0];
    var now := switched || m.kind == FINISHED;
    var size := if m.kind == NEW_SESSION_TICKET then SizeInTicket(m.body) else None;
    if size.Some? then (Stop(Verdicts(size.value)), now) else ScanMessages(messages[1..], now)
  }

  function ReadContent(unsealed: (seq<Byte>, Byte), walk: Walk): (Verdict, Walk) {
    if unsealed.1 != HANDSHAKE then (GoOn, walk) else
    var (verdict, switched) := ScanMessages(Messages(unsealed.0), walk.switched);
    (verdict, walk.(switched := switched))
  }

  function ReadRecord(vault: Vault, secrets: Secrets, walk: Walk, record: seq<Byte>): (Verdict, Walk, seq<Opening>)
    requires |record| >= 5
  {
    if record[0] != APPLICATION_DATA then (GoOn, walk, []) else
    var (first, w1, t1) := TryOpen(vault, secrets, walk, record);
    if first.Some? then
      var (verdict, w2) := ReadContent(first.value, w1);
      (verdict, w2, t1)
    else if walk.switched then (Stop(Undetermined(LOST)), w1, t1)
    else
      var (second, w2, t2) := TryOpen(vault, secrets, w1.(switched := true), record);
      if second.None? then (Stop(Undetermined(LOST_FIRST)), w2, t1 + t2) else
      var (verdict, w3) := ReadContent(second.value, w2);
      (verdict, w3, t1 + t2)
  }

  function OneRecord(vault: Vault, secrets: Secrets, walk: Walk, record: seq<Byte>): (Verdict, Walk)
    requires |record| >= 5
  {
    var (verdict, w, _) := ReadRecord(vault, secrets, walk, record);
    (verdict, w)
  }

  function Inspection(vault: Vault, secrets: Secrets, records: seq<seq<Byte>>, walk: Walk)
    : (EarlyData, Walk, seq<Opening>)
    requires AllFrames(RecordLayer, records)
    decreases |records|
  {
    if records == [] then
      (if walk.switched then Determined(None) else Undetermined(NO_TICKET), walk, [])
    else
      var (verdict, w1, t1) := ReadRecord(vault, secrets, walk, records[0]);
      if verdict.Stop? then (verdict.result, w1, t1) else
      var (result, w2, t2) := Inspection(vault, secrets, records[1..], w1);
      (result, w2, t1 + t2)
  }

  lemma InspectionStep(vault: Vault, secrets: Secrets, records: seq<seq<Byte>>, walk: Walk)
    requires AllFrames(RecordLayer, records) && records != []
    ensures var (verdict, w) := OneRecord(vault, secrets, walk, records[0]);
      Inspection(vault, secrets, records, walk).0
      == if verdict.Stop? then verdict.result else Inspection(vault, secrets, records[1..], w).0
  {
  }

  // The keys an epoch gets from a secret and the negotiated suite, where there are any.
  type Derivation = (Word, seq<Byte>) -> Option<Keys>

  function Inspect(
    stream: seq<Byte>, handshake: Option<seq<Byte>>, application: Option<seq<Byte>>, cipherSuite: Word,
    derive: Derivation, vault: Vault): EarlyData
  {
    if handshake.None? || application.None? then Undetermined(NO_SECRETS) else
    var h, a := derive(cipherSuite, handshake.value), derive(cipherSuite, application.value);
    if h.None? || a.None? then Undetermined(NO_CIPHER) else
    FramesConserve(RecordLayer, stream);
    Inspection(vault, Secrets(h.value, a.value), Frames(RecordLayer, stream), Walk(false, 0, 0)).0
  }

  // The loop over a record's messages. It reports what to stop with, if anything, and
  // whether the keys are to change.
  method ReadMessages(content: seq<Byte>, switched: bool) returns (verdict: Verdict, now: bool)
    ensures (verdict, now) == ScanMessages(Messages(content), switched)
  {
    now := switched;
    var messages := SplitHandshake(content);
    for i := 0 to |messages|
      invariant ScanMessages(messages, switched) == ScanMessages(messages[i..], now)
    {
      var m := messages[i];
      assert messages[i..][0] == m && messages[i..][1..] == messages[i + 1..];
      if m.kind == FINISHED && !now {
        now := true;
      }
      if m.kind != NEW_SESSION_TICKET {
        continue;
      }
      var size := EarlyDataFromTicket(m.body);
      if size.None? {
        continue;
      }
      if size.value == 0 {
        return Stop(Determined(None)), now;
      }
      return Stop(Determined(Some(size.value))), now;
    }
    verdict := GoOn;
  }

  // One record of the walk. The two epochs keep their own sequence numbers; what comes
  // back is what to stop with, if anything, and whether the keys have changed by now.
  method ReadNext(vault: Vault, record: seq<Byte>, handshake: Epoch, application: Epoch, switched: bool)
    returns (verdict: Verdict, now: bool)
    requires |record| >= 5
    requires handshake != application
    modifies handshake, application
    ensures (verdict, Walk(now, handshake.sequence, application.sequence))
      == OneRecord(vault, Secrets(handshake.keys, application.keys),
                   old(Walk(switched, handshake.sequence, application.sequence)), record)
  {
    now := switched;
    if record[0] != APPLICATION_DATA {
      return GoOn, now;
    }
    var current := if switched then application else handshake;
    var unsealed := current.Open(vault, record);
    if unsealed.None? {
      if switched {
        return Stop(Undetermined(LOST)), now;
      }
      now := true;
      current := application;
      unsealed := current.Open(vault, record);
      if unsealed.None? {
        return Stop(Undetermined(LOST_FIRST)), now;
      }
    }
    if unsealed.value.1 != HANDSHAKE {
      return GoOn, now;
    }
    verdict, now := ReadMessages(unsealed.value.0, now);
  }

  method InspectEarlyData(
    stream: seq<Byte>, handshake: Option<seq<Byte>>, application: Option<seq<Byte>>, cipherSuite: Word,
    derive: Derivation, vault: Vault) returns (result: EarlyData)
    ensures result == Inspect(stream, handshake, application, cipherSuite, derive, vault)
  {
    if handshake.None? || application.None? {
      return Undetermined(NO_SECRETS);
    }
    var h := derive(cipherSuite, handshake.value);
    var a := derive(cipherSuite, application.value);
    if h.None? || a.None? {
      return Undetermined(NO_CIPHER);
    }
    var handshakeEpoch := new Epoch(h.value);
    var applicationEpoch := new Epoch(a.value);
    var switched := false;
    var records := SplitRecords(stream);
    FramesConserve(RecordLayer, stream);
    ghost var secrets := Secrets(h.value, a.value);
    for i := 0 to |records|
      invariant fresh(handshakeEpoch) && fresh(applicationEpoch) && handshakeEpoch != applicationEpoch
      invariant AllFrames(RecordLayer, records[i..])
      invariant Inspection(vault, secrets, records, Walk(false, 0, 0)).0
        == Inspection(vault, secrets, records[i..],
                      Walk(switched, handshakeEpoch.sequence, applicationEpoch.sequence)).0
    {
      assert records[i..][0] == records[i] && records[i..][1..] == records[i + 1..];
      ghost var walk := Walk(switched, handshakeEpoch.sequence, applicationEpoch.sequence);
      var verdict, now := ReadNext(vault, records[i], handshakeEpoch, applicationEpoch, switched);
      InspectionStep(vault, secrets, records[i..], walk);
      if verdict.Stop? {
        return verdict.result;
      }
      switched := now;
    }
    result := if switched then Determined(None) else Undetermined(NO_TICKET);
  }

  // --- What is opened, and with which nonce -----------------------------------------------

  // The sequence numbers from, from + 1, ... below to, all of one epoch.
  function Numbers(application: bool, from: nat, to: nat): (trace: seq<Opening>)
    requires from <= to
    ensures |trace| == to - from
  {
    seq(to - from, i requires 0 <= i < to - from => Opening(application, from + i))
  }

  lemma NumbersAppend(application: bool, a: nat, b: nat, c: nat)
    requires a <= b <= c
    ensures Numbers(application, a, b) + Numbers(application, b, c) == Numbers(application, a, c)
  {
  }

  // A step of the walk opens nothing under the handshake keys once they are gone and
  // nothing under the application keys before they come in; each number is the next.
  ghost predicate Steps(from: Walk, to: Walk, trace: seq<Opening>) {
    && from.handshake <= to.handshake && from.application <= to.application
    && (from.switched ==> to.switched && to.handshake == from.handshake)
    && (!to.switched ==> to.application == from.application)
    && trace == Numbers(false, from.handshake, to.handshake) + Numbers(true, from.application, to.application)
  }

  lemma StepsCompose(a: Walk, b: Walk, c: Walk, first: seq<Opening>, second: seq<Opening>)
    requires Steps(a, b, first) && Steps(b, c, second)
    ensures Steps(a, c, first + second)
  {
    if b.switched {
      NumbersAppend(true, a.application, b.application, c.application);
      assert Numbers(false, b.handshake, c.handshake) == [];
    } else {
      NumbersAppend(false, a.handshake, b.handshake, c.handshake);
      assert Numbers(true, a.application, b.application) == [];
    }
  }

  ghost predicate Room(walk: Walk, records: nat) {
    walk.handshake + records < SEQUENCE_LIMIT && walk.application + records < SEQUENCE_LIMIT
  }

  lemma TryOpenSteps(vault: Vault, secrets: Secrets, walk: Walk, record: seq<Byte>)
    requires |record| >= 5 && walk.Sequence() + 1 < SEQUENCE_LIMIT
    ensures var (_, w, trace) := TryOpen(vault, secrets, walk, record);
      Steps(walk, w, trace) && w.switched == walk.switched
      && w.handshake <= walk.handshake + 1 && w.application <= walk.application + 1
  {
    var n := walk.Sequence();
    assert Numbers(walk.switched, n, n + 1) == [Opening(walk.switched, n)];
  }

  lemma SwitchSteps(walk: Walk, now: bool)
    requires walk.switched ==> now
    ensures Steps(walk, walk.(switched := now), [])
  {
  }

  lemma {:induction false} ScanKeepsSwitch(messages: seq<Message>, switched: bool)
    ensures switched ==> ScanMessages(messages, switched).1
  {
    if messages != [] {
      ScanKeepsSwitch(messages[1..], switched || messages[0].kind == FINISHED);
    }
  }

  lemma ReadContentSteps(unsealed: (seq<Byte>, Byte), walk: Walk)
    ensures var (_, w) := ReadContent(unsealed, walk);
      Steps(walk, w, []) && w.handshake == walk.handshake && w.application == walk.application
  {
    ScanKeepsSwitch(Messages(unsealed.0), walk.switched);
    SwitchSteps(walk, ReadContent(unsealed, walk).1.switched);
  }

  lemma RecordSteps(vault: Vault, secrets: Secrets, walk: Walk, record: seq<Byte>)
    requires |record| >= 5 && Room(walk, 1)
    ensures var (_, w, trace) := ReadRecord(vault, secrets, walk, record);
      Steps(walk, w, trace)
      && w.handshake <= walk.handshake + 1 && w.application <= walk.application + 1
  {
    if record[0] != APPLICATION_DATA {
      SwitchSteps(walk, walk.switched);
      return;
    }
    var (first, w1, t1) := TryOpen(vault, secrets, walk, record);
    TryOpenSteps(vault, secrets, walk, record);
    if first.Some? {
      ReadContentSteps(first.value, w1);
      StepsCompose(walk, w1, ReadContent(first.value, w1).1, t1, []);
      assert t1 + [] == t1;
    } else if !walk.switched {
      var changed := w1.(switched := true);
      SwitchSteps(w1, true);
      StepsCompose(walk, w1, changed, t1, []);
      assert t1 + [] == t1;
      var (second, w2, t2) := TryOpen(vault, secrets, changed, record);
      TryOpenSteps(vault, secrets, changed, record);
      StepsCompose(walk, changed, w2, t1, t2);
      if second.Some? {
        ReadContentSteps(second.value, w2);
        StepsCompose(walk, w2, ReadContent(second.value, w2).1, t1 + t2, []);
        assert t1 + t2 + [] == t1 + t2;
      }
    }
  }

  lemma {:induction false} InspectionSteps(
    vault: Vault, secrets: Secrets, records: seq<seq<Byte>>, walk: Walk)
    requires AllFrames(RecordLayer, records) && Room(walk, |records|)
    ensures var (_, w, trace) := Inspection(vault, secrets, records, walk); Steps(walk, w, trace)
    decreases |records|
  {
    if records == [] {
      SwitchSteps(walk, walk.switched);
    } else {
      var (verdict, w1, t1) := ReadRecord(vault, secrets, walk, records[0]);
      RecordSteps(vault, secrets, walk, records[0]);
      if verdict.GoOn? {
        InspectionSteps(vault, secrets, records[1..], w1);
        var (_, w2, t2) := Inspection(vault, secrets, records[1..], w1);
        StepsCompose(walk, w1, w2, t1, t2);
      }
    }
  }

  function NonceOf(secrets: Secrets, opening: Opening): seq<Byte> {
    Nonce(secrets.Of(opening.application).iv, opening.sequence)
  }

  lemma NoncesDiffer(secrets: Secrets, a: Opening, b: Opening)
    requires a.application == b.application && a.sequence != b.sequence
    requires a.sequence < SEQUENCE_LIMIT && b.sequence < SEQUENCE_LIMIT
    ensures NonceOf(secrets, a) != NonceOf(secrets, b)
  {
    if NonceOf(secrets, a) == NonceOf(secrets, b) {
      NonceInjective(secrets.Of(a.application).iv, a.sequence, b.sequence);
    }
  }

  lemma NumbersAt(h: nat, a: nat)
    ensures var trace := Numbers(false, 0, h) + Numbers(true, 0, a);
      && |trace| == h + a
      && (forall i :: 0 <= i < h ==> trace[i] == Opening(false, i))
      && (forall i :: h <= i < |trace| ==> trace[i] == Opening(true, i - h))
  {
  }

  // Over any bytes at all: the keys change at most once, the sequence number of every
  // opening is the count of openings before it in its epoch, and so no two openings of
  // an epoch use the same nonce.
  lemma NoncesNeverReused(vault: Vault, secrets: Secrets, records: seq<seq<Byte>>)
    requires AllFrames(RecordLayer, records) && |records| < SEQUENCE_LIMIT
    ensures var (_, w, trace) := Inspection(vault, secrets, records, Walk(false, 0, 0));
      && |trace| == w.handshake + w.application
      && (forall i :: 0 <= i < w.handshake ==> trace[i] == Opening(false, i))
      && (forall i :: w.handshake <= i < |trace| ==> trace[i] == Opening(true, i - w.handshake))
      && (forall i, j :: 0 <= i < j < |trace| && trace[i].application == trace[j].application ==>
        NonceOf(secrets, trace[i]) != NonceOf(secrets, trace[j]))
  {
    InspectionSteps(vault, secrets, records, Walk(false, 0, 0));
    InspectionShort(vault, secrets, records, Walk(false, 0, 0));
    var (_, w, trace) := Inspection(vault, secrets, records, Walk(false, 0, 0));
    NumbersAt(w.handshake, w.application);
    forall i, j | 0 <= i < j < |trace| && trace[i].application == trace[j].application
      ensures NonceOf(secrets, trace[i]) != NonceOf(secrets, trace[j])
    {
      NoncesDiffer(secrets, trace[i], trace[j]);
    }
  }

  lemma {:induction false} InspectionShort(vault: Vault, secrets: Secrets, records: seq<seq<Byte>>, walk: Walk)
    requires AllFrames(RecordLayer, records) && Room(walk, |records|)
    ensures var (_, w, _) := Inspection(vault, secrets, records, walk);
      w.handshake <= walk.handshake + |records| && w.application <= walk.application + |records|
    decreases |records|
  {
    if records != [] {
      var (verdict, w1, _) := ReadRecord(vault, secrets, walk, records[0]);
      RecordSteps(vault, secrets, walk, records[0]);
      if verdict.GoOn? {
        InspectionShort(vault, secrets, records[1..], w1);
      }
    }
  }

  // --- An honest server's stream -----------------------------------------------------------

  // One record as the server made it: sent in the clear, or sealed over its content, the
  // content's real type and any amount of padding. The sealed bytes are opaque.
  datatype Item =
    | Clear(record: seq<Byte>)
    | Protected(record: seq<Byte>, content: seq<Byte>, kind: Byte, padding: nat)
  {
    ghost predicate Legal() {
      && RecordLayer.IsFrame(record)
      && (Clear? <==> record[0] != APPLICATION_DATA)
      && (Protected? ==> kind != 0)
    }

    function Inner(): seq<Byte>
      requires Protected?
    {
      content + [kind] + Zeros(padding)
    }

    // The messages that can be read whole out of this record alone.
    function Visible(): seq<Message> {
      if Protected? && kind == HANDSHAKE then Messages(content) else []
    }
  }

  ghost predicate AllLegal(items: seq<Item>) {
    forall i :: 0 <= i < |items| ==> items[i].Legal()
  }

  function RecordsOf(items: seq<Item>): (records: seq<seq<Byte>>)
    ensures |records| == |items|
    ensures forall i :: 0 <= i < |items| ==> records[i] == items[i].record
  {
    seq(|items|, i requires 0 <= i < |items| => items[i].record)
  }

  // How many records of a list are sealed.
  function Sealed(items: seq<Item>): (n: nat)
    ensures n <= |items|
  {
    if items == [] then 0 else (if items[0].Protected? then 1 else 0) + Sealed(items[1..])
  }

  lemma {:induction false} SealedAppend(a: seq<Item>, b: seq<Item>)
    ensures Sealed(a + b) == Sealed(a) + Sealed(b)
  {
    if a == [] {
      assert a + b == b;
    } else {
      SealedAppend(a[1..], b);
      assert (a + b)[0] == a[0] && (a + b)[1..] == a[1..] + b;
    }
  }

  // Everything an epoch seals, its sequence number going up by one each time.
  ghost function SealAll(keys: Keys, items: seq<Item>, sequence: nat): Vault
    requires AllLegal(items)
    decreases |items|
  {
    if items == [] then map[]
    else if items[0].Clear? then SealAll(keys, items[1..], sequence)
    else SealAll(keys, items[1..], sequence + 1)[SealingOf(keys, sequence, items[0].record) := items[0].Inner()]
  }

  lemma {:induction false} SealedUnder(keys: Keys, items: seq<Item>, sequence: nat, s: Sealing)
    requires AllLegal(items)
    requires s in SealAll(keys, items, sequence)
    ensures s.key == keys.key
    ensures exists n: nat :: sequence <= n < sequence + Sealed(items) && s.nonce == Nonce(keys.iv, n)
    decreases |items|
  {
    if items[0].Clear? {
      SealedUnder(keys, items[1..], sequence, s);
    } else if s == SealingOf(keys, sequence, items[0].record) {
      assert s.nonce == Nonce(keys.iv, sequence);
    } else {
      SealedUnder(keys, items[1..], sequence + 1, s);
    }
  }

  // No record opens under a sequence number this epoch did not seal with.
  lemma NotSealed(keys: Keys, items: seq<Item>, sequence: nat, n: nat, record: seq<Byte>)
    requires AllLegal(items) && |record| >= 5
    requires sequence + |items| < SEQUENCE_LIMIT && n < SEQUENCE_LIMIT
    requires n < sequence || sequence + Sealed(items) <= n
    ensures SealingOf(keys, n, record) !in SealAll(keys, items, sequence)
  {
    var s := SealingOf(keys, n, record);
    if s in SealAll(keys, items, sequence) {
      SealedUnder(keys, items, sequence, s);
      var m: nat :| sequence <= m < sequence + Sealed(items) && s.nonce == Nonce(keys.iv, m);
      NonceInjective(keys.iv, n, m);
    }
  }

  // Each sealed record of the list opens in its turn.
  ghost predicate Opens(vault: Vault, keys: Keys, items: seq<Item>, sequence: nat)
    requires AllLegal(items)
    decreases |items|
  {
    if items == [] then true
    else if items[0].Clear? then Opens(vault, keys, items[1..], sequence)
    else
      var s := SealingOf(keys, sequence, items[0].record);
      s in vault && vault[s] == items[0].Inner() && Opens(vault, keys, items[1..], sequence + 1)
  }

  ghost predicate Within(part: Vault, whole: Vault) {
    forall s :: s in part ==> s in whole && whole[s] == part[s]
  }

  lemma {:induction false} SealedOpens(vault: Vault, keys: Keys, items: seq<Item>, sequence: nat)
    requires AllLegal(items) && sequence + |items| < SEQUENCE_LIMIT
    requires Within(SealAll(keys, items, sequence), vault)
    ensures Opens(vault, keys, items, sequence)
    decreases |items|
  {
    if items != [] {
      if items[0].Clear? {
        SealedOpens(vault, keys, items[1..], sequence);
      } else {
        NotSealed(keys, items[1..], sequence + 1, sequence, items[0].record);
        SealedOpens(vault, keys, items[1..], sequence + 1);
      }
    }
  }

  // --- What the walk makes of it -----------------------------------------------------------

  // The first ticket among these messages that carries early_data, and its size.
  function OfferIn(messages: seq<Message>): Option<nat> {
    if messages == [] then None else
    var size := if messages[0].kind == NEW_SESSION_TICKET then SizeInTicket(messages[0].body) else None;
    if size.Some? then size else OfferIn(messages[1..])
  }

  function FirstOffer(items: seq<Item>): Option<nat> {
    if items == [] then None else
    var size := OfferIn(items[0].Visible());
    if size.Some? then size else FirstOffer(items[1..])
  }

  function ShowsFinished(messages: seq<Message>): bool {
    messages != [] && (messages[0].kind == FINISHED || ShowsFinished(messages[1..]))
  }

  lemma {:induction false} ScanFinds(messages: seq<Message>, switched: bool)
    ensures OfferIn(messages).None? ==>
      ScanMessages(messages, switched) == (GoOn, switched || ShowsFinished(messages))
    ensures OfferIn(messages).Some? ==>
      ScanMessages(messages, switched).0 == Stop(Verdicts(OfferIn(messages).value))
  {
    if messages != [] {
      ScanFinds(messages[1..], switched || messages[0].kind == FINISHED);
    }
  }

  lemma ItemOpens(vault: Vault, keys: Keys, items: seq<Item>, sequence: nat)
    requires AllLegal(items) && Opens(vault, keys, items, sequence)
    requires items != [] && items[0].Protected?
    ensures SealingOf(keys, sequence, items[0].record) in vault
    ensures Strip(vault[SealingOf(keys, sequence, items[0].record)]) == Some((items[0].content, items[0].kind))
  {
    StripPadded(items[0].content, items[0].kind, items[0].padding);
  }

  // One opening further on.
  function After(walk: Walk): Walk {
    if walk.switched then walk.(application := walk.application + 1)
    else walk.(handshake := walk.handshake + 1)
  }

  lemma ContentFinds(item: Item, walk: Walk)
    requires item.Protected?
    ensures var offer := OfferIn(item.Visible());
      var (verdict, w) := ReadContent((item.content, item.kind), walk);
      && (offer.Some? ==> verdict == Stop(Verdicts(offer.value)))
      && (offer.None? ==>
        verdict == GoOn && w == walk.(switched := walk.switched || ShowsFinished(item.Visible())))
  {
    if item.kind == HANDSHAKE {
      ScanFinds(Messages(item.content), walk.switched);
    }
  }

  lemma RecordOpens(vault: Vault, secrets: Secrets, walk: Walk, record: seq<Byte>, content: (seq<Byte>, Byte))
    requires |record| >= 5 && record[0] == APPLICATION_DATA
    requires SealingOf(secrets.Of(walk.switched), walk.Sequence(), record) in vault
    requires Strip(vault[SealingOf(secrets.Of(walk.switched), walk.Sequence(), record)]) == Some(content)
    requires walk.Sequence() + 1 < SEQUENCE_LIMIT
    ensures OneRecord(vault, secrets, walk, record) == ReadContent(content, After(walk))
  {
    assert walk.Opened() == After(walk);
  }

  // A sealed record read in its turn.
  lemma ReadSealed(vault: Vault, secrets: Secrets, walk: Walk, items: seq<Item>)
    requires AllLegal(items) && items != [] && items[0].Protected?
    requires Opens(vault, secrets.Of(walk.switched), items, walk.Sequence())
    requires walk.Sequence() + 1 < SEQUENCE_LIMIT
    ensures var offer := OfferIn(items[0].Visible());
      var (verdict, w) := OneRecord(vault, secrets, walk, items[0].record);
      && (offer.Some? ==> verdict == Stop(Verdicts(offer.value)))
      && (offer.None? ==>
        verdict == GoOn && w == After(walk).(switched := walk.switched || ShowsFinished(items[0].Visible())))
  {
    ItemOpens(vault, secrets.Of(walk.switched), items, walk.Sequence());
    RecordOpens(vault, secrets, walk, items[0].record, (items[0].content, items[0].kind));
    ContentFinds(items[0], After(walk));
  }

  // Nothing in these records ends the handshake epoch or answers the question.
  ghost predicate Quiet(items: seq<Item>) {
    forall i :: 0 <= i < |items| ==> OfferIn(items[i].Visible()).None? && !ShowsFinished(items[i].Visible())
  }

  lemma RecordsSplit(items: seq<Item>, rest: seq<seq<Byte>>)
    requires AllLegal(items) && items != []
    ensures RecordsOf(items) + rest == [items[0].record] + (RecordsOf(items[1..]) + rest)
    ensures (RecordsOf(items) + rest)[1..] == RecordsOf(items[1..]) + rest
  {
    assert RecordsOf(items) == [items[0].record] + RecordsOf(items[1..]);
  }

  lemma GoesOn(vault: Vault, secrets: Secrets, first: seq<Byte>, rest: seq<seq<Byte>>, walk: Walk, w: Walk)
    requires RecordLayer.IsFrame(first) && AllFrames(RecordLayer, rest)
    requires OneRecord(vault, secrets, walk, first) == (GoOn, w)
    ensures Inspection(vault, secrets, [first] + rest, walk).0 == Inspection(vault, secrets, rest, w).0
  {
    var records := [first] + rest;
    assert records[1..] == rest;
    InspectionStep(vault, secrets, records, walk);
  }

  // The number the next sealed record has after this one.
  function NumberAfter(item: Item, n: nat): nat {
    if item.Clear? then n else n + 1
  }

  lemma QuietRecord(vault: Vault, secrets: Secrets, items: seq<Item>, n: nat)
    requires AllLegal(items) && Quiet(items) && items != []
    requires Opens(vault, secrets.handshake, items, n) && n + 1 < SEQUENCE_LIMIT
    ensures OneRecord(vault, secrets, Walk(false, n, 0), items[0].record)
      == (GoOn, Walk(false, NumberAfter(items[0], n), 0))
  {
    if items[0].Protected? {
      ReadSealed(vault, secrets, Walk(false, n, 0), items);
    }
  }

  lemma QuietStep(vault: Vault, secrets: Secrets, items: seq<Item>, rest: seq<seq<Byte>>, n: nat)
    requires AllLegal(items) && Quiet(items) && items != [] && AllFrames(RecordLayer, rest)
    requires Opens(vault, secrets.handshake, items, n) && n + 1 < SEQUENCE_LIMIT
    ensures AllFrames(RecordLayer, RecordsOf(items) + rest) && AllFrames(RecordLayer, RecordsOf(items[1..]) + rest)
    ensures Opens(vault, secrets.handshake, items[1..], NumberAfter(items[0], n))
    ensures Inspection(vault, secrets, RecordsOf(items) + rest, Walk(false, n, 0)).0
      == Inspection(vault, secrets, RecordsOf(items[1..]) + rest, Walk(false, NumberAfter(items[0], n), 0)).0
  {
    RecordsSplit(items, rest);
    QuietRecord(vault, secrets, items, n);
    GoesOn(vault, secrets, items[0].record, RecordsOf(items[1..]) + rest, Walk(false, n, 0),
           Walk(false, NumberAfter(items[0], n), 0));
  }

  lemma {:induction false} QuietRun(
    vault: Vault, secrets: Secrets, items: seq<Item>, rest: seq<seq<Byte>>, n: nat)
    requires AllLegal(items) && Quiet(items) && AllFrames(RecordLayer, rest)
    requires Opens(vault, secrets.handshake, items, n) && n + |items| < SEQUENCE_LIMIT
    ensures AllFrames(RecordLayer, RecordsOf(items) + rest)
    ensures Inspection(vault, secrets, RecordsOf(items) + rest, Walk(false, n, 0)).0
      == Inspection(vault, secrets, rest, Walk(false, n + Sealed(items), 0)).0
    decreases |items|
  {
    if items == [] {
      assert RecordsOf(items) + rest == rest;
    } else {
      QuietStep(vault, secrets, items, rest, n);
      QuietRun(vault, secrets, items[1..], rest, NumberAfter(items[0], n));
    }
  }

  function Outcome(items: seq<Item>): EarlyData {
    var offer := FirstOffer(items);
    if offer.Some? then Verdicts(offer.value) else Determined(None)
  }

  lemma {:induction false} ApplicationRun(vault: Vault, secrets: Secrets, items: seq<Item>, h: nat, n: nat)
    requires AllLegal(items)
    requires Opens(vault, secrets.application, items, n) && n + |items| < SEQUENCE_LIMIT
    ensures Inspection(vault, secrets, RecordsOf(items), Walk(true, h, n)).0 == Outcome(items)
    decreases |items|
  {
    if items != [] {
      var walk := Walk(true, h, n);
      RecordsSplit(items, []);
      assert RecordsOf(items) + [] == RecordsOf(items);
      assert RecordsOf(items[1..]) + [] == RecordsOf(items[1..]);
      InspectionStep(vault, secrets, RecordsOf(items), walk);
      if items[0].Clear? {
        ApplicationRun(vault, secrets, items[1..], h, n);
      } else {
        ReadSealed(vault, secrets, walk, items);
        if OfferIn(items[0].Visible()).None? {
          ApplicationRun(vault, secrets, items[1..], h, n + 1);
        }
      }
    }
  }

  // It is read as it would be if the keys had changed before it.
  lemma UnannouncedRecord(vault: Vault, secrets: Secrets, items: seq<Item>, h: nat)
    requires AllLegal(items) && items != [] && items[0].Protected?
    requires Opens(vault, secrets.application, items, 0)
    requires SealingOf(secrets.handshake, h, items[0].record) !in vault
    ensures OneRecord(vault, secrets, Walk(false, h, 0), items[0].record)
      == OneRecord(vault, secrets, Walk(true, h, 0), items[0].record)
  {
    ItemOpens(vault, secrets.application, items, 0);
  }

  // Where Finished was not seen whole, the first record sealed under the application
  // keys does not open under the handshake keys, and that changes them.
  lemma {:induction false} UnannouncedRun(vault: Vault, secrets: Secrets, items: seq<Item>, h: nat)
    requires AllLegal(items)
    requires Opens(vault, secrets.application, items, 0) && |items| < SEQUENCE_LIMIT
    requires forall i :: 0 <= i < |items| ==> SealingOf(secrets.handshake, h, items[i].record) !in vault
    ensures Inspection(vault, secrets, RecordsOf(items), Walk(false, h, 0)).0
      == if Sealed(items) == 0 then Undetermined(NO_TICKET) else Outcome(items)
    decreases |items|
  {
    if items != [] {
      RecordsSplit(items, []);
      assert RecordsOf(items) + [] == RecordsOf(items);
      assert RecordsOf(items[1..]) + [] == RecordsOf(items[1..]);
      InspectionStep(vault, secrets, RecordsOf(items), Walk(false, h, 0));
      if items[0].Clear? {
        UnannouncedRun(vault, secrets, items[1..], h);
      } else {
        InspectionStep(vault, secrets, RecordsOf(items), Walk(true, h, 0));
        UnannouncedRecord(vault, secrets, items, h);
        ApplicationRun(vault, secrets, items, h, 0);
      }
    }
  }

  // A Finished can be seen whole in this record, and no ticket that offers anything.
  ghost predicate EndsHandshake(item: Item) {
    item.Protected? && OfferIn(item.Visible()).None? && ShowsFinished(item.Visible())
  }

  // What an honest server sends: records of the handshake epoch, of which only the last
  // may show a whole Finished and none carries an offering ticket; then records of the
  // application epoch. Unprotected records may stand anywhere.
  datatype Stream = Stream(quiet: seq<Item>, finisher: seq<Item>, application: seq<Item>) {
    ghost predicate Honest() {
      && AllLegal(quiet) && AllLegal(finisher) && AllLegal(application)
      && Quiet(quiet)
      && |finisher| <= 1
      && (finisher != [] ==> EndsHandshake(finisher[0]))
      && |quiet| + |finisher| < SEQUENCE_LIMIT && |application| < SEQUENCE_LIMIT
    }

    function Items(): seq<Item> {
      quiet + (finisher + application)
    }

    // All that is ever sealed under either key.
    ghost function Vault(secrets: Secrets): Vault
      requires Honest()
    {
      SealAll(secrets.handshake, quiet + finisher, 0) + SealAll(secrets.application, application, 0)
    }

    function Answer(): EarlyData {
      if finisher == [] && Sealed(application) == 0 then Undetermined(NO_TICKET) else Outcome(application)
    }
  }

  lemma VaultHolds(secrets: Secrets, s: Stream)
    requires s.Honest() && secrets.handshake.key != secrets.application.key
    ensures Within(SealAll(secrets.handshake, s.quiet + s.finisher, 0), s.Vault(secrets))
    ensures Within(SealAll(secrets.application, s.application, 0), s.Vault(secrets))
    ensures forall i :: 0 <= i < |s.application| ==>
      SealingOf(secrets.handshake, Sealed(s.quiet + s.finisher), s.application[i].record) !in s.Vault(secrets)
  {
    var h, a := SealAll(secrets.handshake, s.quiet + s.finisher, 0), SealAll(secrets.application, s.application, 0);
    forall x | x in h ensures x !in a {
      SealedUnder(secrets.handshake, s.quiet + s.finisher, 0, x);
      if x in a {
        SealedUnder(secrets.application, s.application, 0, x);
      }
    }
    var n := Sealed(s.quiet + s.finisher);
    forall i | 0 <= i < |s.application|
      ensures SealingOf(secrets.handshake, n, s.application[i].record) !in s.Vault(secrets)
    {
      NotSealed(secrets.handshake, s.quiet + s.finisher, 0, n, s.application[i].record);
      var x := SealingOf(secrets.handshake, n, s.application[i].record);
      if x in a {
        SealedUnder(secrets.application, s.application, 0, x);
      }
    }
  }

  lemma {:induction false} OpensAppend(vault: Vault, keys: Keys, a: seq<Item>, b: seq<Item>, n: nat)
    requires AllLegal(a) && AllLegal(b)
    requires Opens(vault, keys, a + b, n)
    ensures Opens(vault, keys, a, n) && Opens(vault, keys, b, n + Sealed(a))
    decreases |a|
  {
    if a == [] {
      assert a + b == b;
    } else {
      assert (a + b)[0] == a[0] && (a + b)[1..] == a[1..] + b;
      OpensAppend(vault, keys, a[1..], b, if a[0].Clear? then n else n + 1);
    }
  }

  lemma FinisherEnds(vault: Vault, secrets: Secrets, finisher: seq<Item>, n: nat)
    requires AllLegal(finisher) && |finisher| == 1 && EndsHandshake(finisher[0])
    requires n + 1 < SEQUENCE_LIMIT && Opens(vault, secrets.handshake, finisher, n)
    ensures OneRecord(vault, secrets, Walk(false, n, 0), finisher[0].record) == (GoOn, Walk(true, n + 1, 0))
  {
    ReadSealed(vault, secrets, Walk(false, n, 0), finisher);
  }

  lemma FinisherRun(vault: Vault, secrets: Secrets, finisher: seq<Item>, items: seq<Item>, n: nat)
    requires AllLegal(finisher) && AllLegal(items) && |finisher| == 1 && EndsHandshake(finisher[0])
    requires n + 1 < SEQUENCE_LIMIT && |items| < SEQUENCE_LIMIT
    requires Opens(vault, secrets.handshake, finisher, n) && Opens(vault, secrets.application, items, 0)
    ensures Inspection(vault, secrets, RecordsOf(finisher) + RecordsOf(items), Walk(false, n, 0)).0 == Outcome(items)
  {
    FinisherEnds(vault, secrets, finisher, n);
    assert RecordsOf(finisher) == [finisher[0].record];
    GoesOn(vault, secrets, finisher[0].record, RecordsOf(items), Walk(false, n, 0), Walk(true, n + 1, 0));
    ApplicationRun(vault, secrets, items, n + 1, 0);
  }

  lemma HandshakeOpens(secrets: Secrets, s: Stream)
    requires s.Honest() && secrets.handshake.key != secrets.application.key
    ensures Opens(s.Vault(secrets), secrets.handshake, s.quiet + s.finisher, 0)
  {
    VaultHolds(secrets, s);
    SealedOpens(s.Vault(secrets), secrets.handshake, s.quiet + s.finisher, 0);
  }

  lemma ApplicationOpens(secrets: Secrets, s: Stream)
    requires s.Honest() && secrets.handshake.key != secrets.application.key
    ensures Opens(s.Vault(secrets), secrets.application, s.application, 0)
  {
    VaultHolds(secrets, s);
    SealedOpens(s.Vault(secrets), secrets.application, s.application, 0);
  }

  // The two epochs' records open in their turns, and nothing else does.
  lemma HonestOpens(secrets: Secrets, s: Stream)
    requires s.Honest() && secrets.handshake.key != secrets.application.key
    ensures Opens(s.Vault(secrets), secrets.handshake, s.quiet, 0)
    ensures Opens(s.Vault(secrets), secrets.handshake, s.finisher, Sealed(s.quiet))
    ensures Opens(s.Vault(secrets), secrets.application, s.application, 0)
  {
    HandshakeOpens(secrets, s);
    ApplicationOpens(secrets, s);
    OpensAppend(s.Vault(secrets), secrets.handshake, s.quiet, s.finisher, 0);
  }

  lemma RecordsAppend(a: seq<Item>, b: seq<Item>)
    ensures RecordsOf(a + b) == RecordsOf(a) + RecordsOf(b)
  {
  }

  // The handshake keys open nothing the application epoch sealed.
  lemma UnannouncedHonest(secrets: Secrets, s: Stream)
    requires s.Honest() && s.finisher == [] && secrets.handshake.key != secrets.application.key
    ensures Inspection(s.Vault(secrets), secrets, RecordsOf(s.application), Walk(false, Sealed(s.quiet), 0)).0
      == s.Answer()
  {
    HonestOpens(secrets, s);
    VaultHolds(secrets, s);
    assert s.quiet + s.finisher == s.quiet;
    UnannouncedRun(s.Vault(secrets), secrets, s.application, Sealed(s.quiet));
  }

  lemma AnnouncedHonest(secrets: Secrets, s: Stream)
    requires s.Honest() && s.finisher != [] && secrets.handshake.key != secrets.application.key
    ensures Inspection(s.Vault(secrets), secrets, RecordsOf(s.finisher) + RecordsOf(s.application),
                       Walk(false, Sealed(s.quiet), 0)).0
      == s.Answer()
  {
    HonestOpens(secrets, s);
    FinisherRun(s.Vault(secrets), secrets, s.finisher, s.application, Sealed(s.quiet));
  }

  lemma AfterQuiet(secrets: Secrets, s: Stream)
    requires s.Honest() && secrets.handshake.key != secrets.application.key
    ensures AllFrames(RecordLayer, RecordsOf(s.finisher) + RecordsOf(s.application))
    ensures Inspection(s.Vault(secrets), secrets, RecordsOf(s.finisher) + RecordsOf(s.application),
                       Walk(false, Sealed(s.quiet), 0)).0
      == s.Answer()
  {
    if s.finisher == [] {
      assert RecordsOf(s.finisher) + RecordsOf(s.application) == RecordsOf(s.application);
      UnannouncedHonest(secrets, s);
    } else {
      AnnouncedHonest(secrets, s);
    }
  }

  lemma StreamRecords(s: Stream)
    ensures RecordsOf(s.Items()) == RecordsOf(s.quiet) + (RecordsOf(s.finisher) + RecordsOf(s.application))
  {
    RecordsAppend(s.quiet, s.finisher + s.application);
    RecordsAppend(s.finisher, s.application);
  }

  lemma FramesOfBoth(items: seq<Item>, rest: seq<seq<Byte>>)
    requires AllLegal(items) && AllFrames(RecordLayer, rest)
    ensures AllFrames(RecordLayer, RecordsOf(items) + rest)
  {
  }

  lemma QuietHonest(secrets: Secrets, s: Stream, rest: seq<seq<Byte>>)
    requires s.Honest() && secrets.handshake.key != secrets.application.key
    requires AllFrames(RecordLayer, rest) && AllFrames(RecordLayer, RecordsOf(s.quiet) + rest)
    ensures Inspection(s.Vault(secrets), secrets, RecordsOf(s.quiet) + rest, Walk(false, 0, 0)).0
      == Inspection(s.Vault(secrets), secrets, rest, Walk(false, Sealed(s.quiet), 0)).0
  {
    HonestOpens(secrets, s);
    QuietRun(s.Vault(secrets), secrets, s.quiet, rest, 0);
  }

  // The walk over everything an honest server sends answers what its tickets say.
  lemma HonestRun(secrets: Secrets, s: Stream)
    requires s.Honest() && secrets.handshake.key != secrets.application.key
    ensures AllFrames(RecordLayer, RecordsOf(s.Items()))
    ensures Inspection(s.Vault(secrets), secrets, RecordsOf(s.Items()), Walk(false, 0, 0)).0 == s.Answer()
  {
    StreamRecords(s);
    AfterQuiet(secrets, s);
    FramesOfBoth(s.quiet, RecordsOf(s.finisher) + RecordsOf(s.application));
    QuietHonest(secrets, s, RecordsOf(s.finisher) + RecordsOf(s.application));
  }

  // From the bytes: whatever was read of an honest server's stream, a record cut short at
  // its end included, InspectEarlyData answers what the tickets in it say.
  lemma HonestStream(
    s: Stream, tail: seq<Byte>, handshake: seq<Byte>, application: seq<Byte>, cipherSuite: Word,
    derive: Derivation, secrets: Secrets)
    requires s.Honest() && !RecordLayer.Ready(tail)
    requires derive(cipherSuite, handshake) == Some(secrets.handshake)
    requires derive(cipherSuite, application) == Some(secrets.application)
    requires secrets.handshake.key != secrets.application.key
    ensures Inspect(Concat(RecordsOf(s.Items())) + tail, Some(handshake), Some(application), cipherSuite,
                    derive, s.Vault(secrets))
      == s.Answer()
  {
    HonestRun(secrets, s);
    FramesUnique(RecordLayer, RecordsOf(s.Items()), tail);
  }

  // In so many words: undetermined only where no change of keys could be seen, and
  // otherwise the first offer among the application records, a size of zero being none.
  lemma AnswerIs(s: Stream)
    ensures s.Answer() ==
      if s.finisher == [] && Sealed(s.application) == 0 then Undetermined(NO_TICKET)
      else Determined(if FirstOffer(s.application) == Some(0) then None else FirstOffer(s.application))
  {
  }

  // What a ticket offers is what the first early_data extension in it says, in its first
  // four bytes.
  ghost predicate FirstEarlyDataAt(extensions: seq<Extension>, i: nat) {
    && i < |extensions| && extensions[i].kind == 42
    && forall j :: 0 <= j < i ==> extensions[j].kind != 42
  }

  lemma {:induction false} OfferedExact(extensions: seq<Extension>, i: nat)
    ensures (forall j :: 0 <= j < |extensions| ==> extensions[j].kind != 42) ==> Offered(extensions) == None
    ensures FirstEarlyDataAt(extensions, i) ==>
      var data := extensions[i].data;
      Offered(extensions)
        == if |data| >= 4 then Some(BigEndian32(data[0], data[1], data[2], data[3])) else None
  {
    if extensions != [] && extensions[0].kind != 42 {
      OfferedExact(extensions[1..], if i > 0 then i - 1 else 0);
      if FirstEarlyDataAt(extensions, i) {
        assert FirstEarlyDataAt(extensions[1..], i - 1);
      }
    }
  }

  // And of a list of records it is the first that any message in them offers.
  ghost predicate FirstOfferingAt(items: seq<Item>, i: nat) {
    && i < |items| && OfferIn(items[i].Visible()).Some?
    && forall j :: 0 <= j < i ==> OfferIn(items[j].Visible()).None?
  }

  lemma {:induction false} FirstOfferExact(items: seq<Item>, i: nat)
    ensures (forall j :: 0 <= j < |items| ==> OfferIn(items[j].Visible()).None?) ==> FirstOffer(items) == None
    ensures FirstOfferingAt(items, i) ==> FirstOffer(items) == OfferIn(items[i].Visible())
  {
    if items != [] && OfferIn(items[0].Visible()).None? {
      FirstOfferExact(items[1..], if i > 0 then i - 1 else 0);
      if FirstOfferingAt(items, i) {
        assert FirstOfferingAt(items[1..], i - 1);
      }
    }
  }

  // One message sealed by itself.
  function Carrying(record: seq<Byte>, m: Message, padding: nat): Item {
    Protected(record, Encode(m), HANDSHAKE, padding)
  }

  lemma CarryingShows(record: seq<Byte>, m: Message, padding: nat)
    requires Sendable(m)
    ensures Carrying(record, m, padding).Visible() == [m]
    ensures OfferIn([m]) == if m.kind == NEW_SESSION_TICKET then SizeInTicket(m.body) else None
    ensures ShowsFinished([m]) <==> m.kind == FINISHED
  {
    MessageFirst(m, []);
    assert Encode(m) + [] == Encode(m);
    assert [m] + Messages([]) == [m];
    var rest: seq<Message> := [m][1..];
    assert rest == [];
  }

  function Pair(first: seq<Byte>, finished: Message, second: seq<Byte>, t: Ticket, padding: nat): Stream
    requires TicketFits(t)
  {
    Stream([], [Carrying(first, finished, padding)],
           [Carrying(second, Message(NEW_SESSION_TICKET, PutTicket(t)), padding)])
  }

  lemma PairAnswers(t: Ticket, finished: Message, first: seq<Byte>, second: seq<Byte>, padding: nat)
    requires TicketFits(t)
    requires finished.kind == FINISHED && Sendable(finished)
    requires RecordLayer.IsFrame(first) && first[0] == APPLICATION_DATA
    requires RecordLayer.IsFrame(second) && second[0] == APPLICATION_DATA
    ensures Pair(first, finished, second, t, padding).Honest()
    ensures Pair(first, finished, second, t, padding).Answer()
      == if Offered(t.extensions).Some? then Verdicts(Offered(t.extensions).value) else Determined(None)
  {
    CarryingShows(first, finished, padding);
    TicketShows(second, t, padding);
    OnlyOffer(Carrying(second, Message(NEW_SESSION_TICKET, PutTicket(t)), padding));
  }

  lemma TicketShows(record: seq<Byte>, t: Ticket, padding: nat)
    requires TicketFits(t)
    ensures OfferIn(Carrying(record, Message(NEW_SESSION_TICKET, PutTicket(t)), padding).Visible())
      == Offered(t.extensions)
  {
    assert |PutTicket(t)| == 13 + |t.nonce| + |t.ticket| + |PutExtensions(t.extensions)|;
    CarryingShows(record, Message(NEW_SESSION_TICKET, PutTicket(t)), padding);
    TicketRoundTrip(t);
  }

  // The shortest case, from the bytes: two records, a Finished sealed in the first and a
  // ticket in the second, are inspected to what the ticket offers.
  lemma TicketAfterFinished(
    t: Ticket, finished: Message, first: seq<Byte>, second: seq<Byte>, padding: nat,
    handshake: seq<Byte>, application: seq<Byte>, cipherSuite: Word, derive: Derivation, secrets: Secrets)
    requires TicketFits(t)
    requires finished.kind == FINISHED && Sendable(finished)
    requires RecordLayer.IsFrame(first) && first[0] == APPLICATION_DATA
    requires RecordLayer.IsFrame(second) && second[0] == APPLICATION_DATA
    requires derive(cipherSuite, handshake) == Some(secrets.handshake)
    requires derive(cipherSuite, application) == Some(secrets.application)
    requires secrets.handshake.key != secrets.application.key
    ensures Pair(first, finished, second, t, padding).Honest()
    ensures Inspect(first + second, Some(handshake), Some(application), cipherSuite, derive,
                    Pair(first, finished, second, t, padding).Vault(secrets))
      == Determined(if Offered(t.extensions) == Some(0) then None else Offered(t.extensions))
  {
    var s := Pair(first, finished, second, t, padding);
    PairAnswers(t, finished, first, second, padding);
    HonestStream(s, [], handshake, application, cipherSuite, derive, secrets);
    assert RecordsOf(s.Items()) == [first, second];
    TwoRecords(first, second);
  }

  lemma TwoRecords(first: seq<Byte>, second: seq<Byte>)
    ensures Concat([first, second]) + [] == first + second
  {
    var both: seq<seq<Byte>>, one: seq<seq<Byte>>, none: seq<seq<Byte>> := [first, second], [second], [];
    assert both[1..] == one && one[1..] == none;
    assert Concat(one) == second + Concat(none) == second;
    assert Concat(both) == first + second;
  }

  lemma OnlyOffer(item: Item)
    ensures FirstOffer([item]) == OfferIn(item.Visible())
  {
    var rest: seq<Item> := [item][1..];
    assert rest == [];
  }
}
