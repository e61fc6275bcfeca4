/**
 Cutting a byte stream into TLS records and handshake bytes into messages
 (pkg/tls/wire/server_response.go). Both are the same walk over frames whose header
 states the length of what follows, so the walk and its laws are stated once.
 */
module Framing {
  import opened Bytes
  import opened Readers

  const CHANGE_CIPHER_SPEC: Byte := 20
  const ALERT: Byte := 21
  const HANDSHAKE: Byte := 22
  const APPLICATION_DATA: Byte := 23

  datatype Layer = RecordLayer | HandshakeLayer {
    function Header(): nat {
      if RecordLayer? then 5 else 4
    }

    // The length a header announces.
    function Announced(s: seq<Byte>): nat
      requires |s| >= Header()
    {
      if RecordLayer? then BigEndian16(s[3], s[4]) else BigEndian24(s[1], s[2], s[3])
    }

    function Size(s: seq<Byte>): nat
      requires |s| >= Header()
    {
      Header() + Announced(s)
    }

    // A whole frame can be read off the front.
    predicate Ready(s: seq<Byte>) {
      |s| >= Header() && |s| >= Size(s)
    }

    // Exactly one frame and nothing else.
    predicate IsFrame(s: seq<Byte>) {
      |s| >= Header() && |s| == Size(s)
    }
  }

  function Frames(layer: Layer, s: seq<Byte>): seq<seq<Byte>>
    decreases |s|
  {
    if !layer.Ready(s) then [] else [s[..layer.Size(s)]] + Frames(layer, s[layer.Size(s)..])
  }

  // What the walk leaves behind: a frame cut short.
  function Tail(layer: Layer, s: seq<Byte>): seq<Byte>
    decreases |s|
  {
    if !layer.Ready(s) then s else Tail(layer, s[layer.Size(s)..])
  }

  ghost predicate AllFrames(layer: Layer, frames: seq<seq<Byte>>) {
    forall i :: 0 <= i < |frames| ==> layer.IsFrame(frames[i])
  }

  // The walk loses nothing: the frames and the tail, end to end, are the input.
  lemma {:induction false} FramesConserve(layer: Layer, s: seq<Byte>)
    ensures Concat(Frames(layer, s)) + Tail(layer, s) == s
    ensures AllFrames(layer, Frames(layer, s))
    ensures !layer.Ready(Tail(layer, s))
    decreases |s|
  {
    if layer.Ready(s) {
      var n := layer.Size(s);
      FramesConserve(layer, s[n..]);
      var rest := Frames(layer, s[n..]);
      assert Frames(layer, s) == [s[..n]] + rest;
      assert Frames(layer, s)[1..] == rest;
      Associate(s[..n], Concat(rest), Tail(layer, s[n..]));
      SplitAt(s, n);
    }
  }

  // A frame at the front is read off whatever follows it.
  lemma FrameFirst(layer: Layer, frame: seq<Byte>, s: seq<Byte>)
    requires layer.IsFrame(frame)
    ensures layer.Ready(frame + s) && layer.Size(frame + s) == |frame|
    ensures Frames(layer, frame + s) == [frame] + Frames(layer, s)
    ensures Tail(layer, frame + s) == Tail(layer, s)
  {
    var t := frame + s;
    assert t[..|frame|] == frame && t[|frame|..] == s;
  }

  // The walk is the only way to divide a stream: any list of frames followed by
  // something too short to be one comes back as that list.
  lemma {:induction false} FramesUnique(layer: Layer, frames: seq<seq<Byte>>, tail: seq<Byte>)
    requires AllFrames(layer, frames)
    requires !layer.Ready(tail)
    ensures Frames(layer, Concat(frames) + tail) == frames
    ensures Tail(layer, Concat(frames) + tail) == tail
  {
    if frames == [] {
      assert Concat(frames) + tail == tail;
    } else {
      FramesUnique(layer, frames[1..], tail);
      var rest := Concat(frames[1..]) + tail;
      assert Concat(frames) + tail == frames[0] + rest;
      FrameFirst(layer, frames[0], rest);
      assert [frames[0]] + frames[1..] == frames;
    }
  }

  lemma {:induction false} FramesAfterFrames(layer: Layer, frames: seq<seq<Byte>>, s: seq<Byte>)
    requires AllFrames(layer, frames)
    ensures Frames(layer, Concat(frames) + s) == frames + Frames(layer, s)
    ensures Tail(layer, Concat(frames) + s) == Tail(layer, s)
  {
    if frames == [] {
      assert Concat(frames) + s == s;
      assert frames + Frames(layer, s) == Frames(layer, s);
    } else {
      FramesAfterFrames(layer, frames[1..], s);
      var rest := Concat(frames[1..]) + s;
      Associate(frames[0], Concat(frames[1..]), s);
      FrameFirst(layer, frames[0], rest);
      HeadAndTail(frames, Frames(layer, s));
    }
  }

  // More bytes never change the frames already read: the walk resumes at the tail.
  lemma FramesPrefixStable(layer: Layer, s: seq<Byte>, more: seq<Byte>)
    ensures Frames(layer, s + more) == Frames(layer, s) + Frames(layer, Tail(layer, s) + more)
  {
    FramesConserve(layer, s);
    FramesAfterFrames(layer, Frames(layer, s), Tail(layer, s) + more);
    Associate(Concat(Frames(layer, s)), Tail(layer, s), more);
  }

  lemma CutInFrame(layer: Layer, frame: seq<Byte>, rest: seq<Byte>, k: nat)
    requires layer.IsFrame(frame) && k < |frame|
    ensures Frames(layer, (frame + rest)[..k]) == []
  {
    var cut := (frame + rest)[..k];
    assert cut == frame[..k];
    if k >= layer.Header() {
      assert layer.Size(cut) == |frame|;
    }
  }

  lemma CutAfter<T>(head: seq<T>, rest: seq<T>, k: nat)
    requires |head| <= k <= |head| + |rest|
    ensures (head + rest)[..k] == head + rest[..k - |head|]
  {
  }

  // A stream cut before the end of its last frame yields only the frames before it.
  lemma {:induction false} FramesOfCut(layer: Layer, frames: seq<seq<Byte>>, last: seq<Byte>, k: nat)
    requires AllFrames(layer, frames) && layer.IsFrame(last)
    requires k < |Concat(frames)| + |last|
    ensures Frames(layer, (Concat(frames) + last)[..k]) <= frames
  {
    if frames == [] {
      assert Concat(frames) + last == last + [];
      CutInFrame(layer, last, [], k);
    } else {
      var head, rest := frames[0], Concat(frames[1..]) + last;
      Associate(head, Concat(frames[1..]), last);
      if k < |head| {
        CutInFrame(layer, head, rest, k);
      } else {
        CutAfter(head, rest, k);
        FramesOfCut(layer, frames[1..], last, k - |head|);
        FrameFirst(layer, head, rest[..k - |head|]);
      }
    }
  }

  // SplitRecords.
  method SplitRecords(stream: seq<Byte>) returns (records: seq<seq<Byte>>)
    ensures records == Frames(RecordLayer, stream)
  {
    records := [];
    var rest := stream;
    while |rest| >= 5
      invariant Frames(RecordLayer, stream) == records + Frames(RecordLayer, rest)
      decreases |rest|
    {
      var length: int := BigEndian16(rest[3], rest[4]);
      if |rest| < 5 + length {
        break;
      }
      records := records + [rest[..5 + length]];
      rest := rest[5 + length..];
    }
    assert records + [] == records;
  }

  // A handshake message apart from its header.
  datatype Message = Message(kind: Byte, body: seq<Byte>)

  function Decode(frame: seq<Byte>): Message
    requires HandshakeLayer.IsFrame(frame)
  {
    Message(frame[0], frame[4..])
  }

  function Encode(m: Message): (frame: seq<Byte>) {
    [m.kind] + PutUint24(|m.body|) + m.body
  }

  ghost predicate Sendable(m: Message) {
    |m.body| < 0x100_0000
  }

  lemma MessageRoundTrip(m: Message)
    requires Sendable(m)
    ensures HandshakeLayer.IsFrame(Encode(m)) && Decode(Encode(m)) == m
  {
    var frame := Encode(m);
    var length := PutUint24(|m.body|);
    assert frame[1] == length[0] && frame[2] == length[1] && frame[3] == length[2];
    assert frame[4..] == m.body;
  }

  // The messages in a run of handshake bytes, a truncated last one left out.
  function Messages(handshake: seq<Byte>): seq<Message>
    decreases |handshake|
  {
    if !HandshakeLayer.Ready(handshake) then [] else
    var n := HandshakeLayer.Size(handshake);
    [Message(handshake[0], handshake[4..n])] + Messages(handshake[n..])
  }

  function EncodeAll(messages: seq<Message>): seq<Byte> {
    if messages == [] then [] else Encode(messages[0]) + EncodeAll(messages[1..])
  }

  lemma {:induction false} EncodeAllAppend(a: seq<Message>, b: seq<Message>)
    ensures EncodeAll(a + b) == EncodeAll(a) + EncodeAll(b)
  {
    if a == [] {
      assert a + b == b;
    } else {
      EncodeAllAppend(a[1..], b);
      ConsAppend(a, b);
      Associate(Encode(a[0]), EncodeAll(a[1..]), EncodeAll(b));
    }
  }

  // The messages are the handshake layer's frames, read one by one.
  lemma {:induction false} MessagesAreFrames(handshake: seq<Byte>)
    ensures |Messages(handshake)| == |Frames(HandshakeLayer, handshake)|
    ensures AllFrames(HandshakeLayer, Frames(HandshakeLayer, handshake))
    ensures forall i :: 0 <= i < |Messages(handshake)| ==>
      Messages(handshake)[i] == Decode(Frames(HandshakeLayer, handshake)[i])
    decreases |handshake|
  {
    if HandshakeLayer.Ready(handshake) {
      var n := HandshakeLayer.Size(handshake);
      MessagesAreFrames(handshake[n..]);
      assert handshake[..n][4..] == handshake[4..n];
      assert HandshakeLayer.IsFrame(handshake[..n]);
    }
  }

  lemma MessageFirst(m: Message, rest: seq<Byte>)
    requires Sendable(m)
    ensures Messages(Encode(m) + rest) == [m] + Messages(rest)
  {
    MessageRoundTrip(m);
    var frame := Encode(m);
    FrameFirst(HandshakeLayer, frame, rest);
    var s := frame + rest;
    assert s[|frame|..] == rest;
    assert s[4..|frame|] == m.body;
  }

  // SplitHandshake reads back exactly what was sent, whatever unfinished bytes follow.
  lemma {:induction false} MessagesInverse(messages: seq<Message>, tail: seq<Byte>)
    requires forall m :: m in messages ==> Sendable(m)
    ensures Messages(EncodeAll(messages) + tail) == messages + Messages(tail)
  {
    if messages == [] {
      assert EncodeAll(messages) + tail == tail;
      assert messages + Messages(tail) == Messages(tail);
    } else {
      var m, rest := messages[0], EncodeAll(messages[1..]) + tail;
      MessagesInverse(messages[1..], tail);
      Associate(Encode(m), EncodeAll(messages[1..]), tail);
      MessageFirst(m, rest);
      HeadAndTail(messages, Messages(tail));
    }
  }

  lemma Uint24Inverse(a: Byte, b: Byte, c: Byte)
    ensures PutUint24(BigEndian24(a, b, c)) == [a, b, c]
  {
    var n := BigEndian24(a, b, c);
    assert n / 0x100 == 0x100 * a + b;
    assert n / 0x100 / 0x100 == a;
  }

  // A frame is the encoding of the message it decodes to.
  lemma EncodeDecode(frame: seq<Byte>)
    requires HandshakeLayer.IsFrame(frame)
    ensures Sendable(Decode(frame)) && Encode(Decode(frame)) == frame
  {
    Uint24Inverse(frame[1], frame[2], frame[3]);
  }

  lemma {:induction false} EncodesFrames(messages: seq<Message>, frames: seq<seq<Byte>>)
    requires |messages| == |frames| && AllFrames(HandshakeLayer, frames)
    requires forall i :: 0 <= i < |frames| ==> messages[i] == Decode(frames[i])
    ensures EncodeAll(messages) == Concat(frames)
  {
    if frames != [] {
      EncodeDecode(frames[0]);
      EncodesFrames(messages[1..], frames[1..]);
    }
  }

  // Conversely every division comes from sending those messages: nothing is invented,
  // dropped or reordered, and only an unfinished message is left over.
  lemma MessagesConserve(handshake: seq<Byte>)
    ensures EncodeAll(Messages(handshake)) + Tail(HandshakeLayer, handshake) == handshake
    ensures forall m :: m in Messages(handshake) ==> Sendable(m)
  {
    var messages, frames := Messages(handshake), Frames(HandshakeLayer, handshake);
    FramesConserve(HandshakeLayer, handshake);
    MessagesAreFrames(handshake);
    EncodesFrames(messages, frames);
    forall i | 0 <= i < |messages| ensures Sendable(messages[i]) {
      EncodeDecode(frames[i]);
    }
  }

  lemma MessagesPrefixStable(handshake: seq<Byte>, more: seq<Byte>)
    ensures Messages(handshake) <= Messages(handshake + more)
  {
    MessagesConserve(handshake);
    var messages, tail := Messages(handshake), Tail(HandshakeLayer, handshake);
    MessagesInverse(messages, tail + more);
    Associate(EncodeAll(messages), tail, more);
  }

  // One message through the eyes of a reader: a type, then a block with its length.
  lemma MessageRead(handshake: seq<Byte>)
    requires |handshake| >= 4
    ensures TakeUint8(handshake) == Taken(handshake[0], handshake[1..])
    ensures match TakeBlock24(handshake[1..])
            case Taken(body, rest) =>
              HandshakeLayer.Ready(handshake)
              && Messages(handshake) == [Message(handshake[0], body)] + Messages(rest)
            case Truncated => Messages(handshake) == []
  {
    var s := handshake[1..];
    assert s[0] == handshake[1] && s[1] == handshake[2] && s[2] == handshake[3];
    assert s[3..] == handshake[4..];
    if HandshakeLayer.Ready(handshake) {
      var n := HandshakeLayer.Size(handshake);
      assert handshake[4..][..n - 4] == handshake[4..n];
      assert handshake[4..][n - 4..] == handshake[n..];
    }
  }

  method SplitHandshake(handshake: seq<Byte>) returns (messages: seq<Message>)
    ensures messages == Messages(handshake)
  {
    messages := [];
    var reader := new Reader(handshake);
    var length := reader.Len();
    while length >= 4
      invariant fresh(reader)
      invariant length == |reader.data|
      invariant Messages(handshake) == messages + Messages(reader.data)
      decreases |reader.data|
    {
      MessageRead(reader.data);
      var kind := reader.Uint8();
      var body := reader.Uint24LengthPrefixed();
      if kind.None? || body == null {
        assert messages + [] == messages;
        return;
      }
      var bytes := body.Rest();
      Associate(messages, [Message(kind.value, bytes)], Messages(reader.data));
      messages := messages + [Message(kind.value, bytes)];
      length := reader.Len();
    }
    assert messages + [] == messages;
  }

  // --- Reassembly ---------------------------------------------------------------

  datatype Alert = Alert(level: Byte, description: Byte) {
    // A warning does not end a connection.
    predicate Fatal() {
      level == 2
    }
  }

  function Payload(record: seq<Byte>): seq<Byte>
    requires RecordLayer.IsFrame(record)
  {
    record[5..]
  }

  function Record(kind: Byte, version: Word, payload: seq<Byte>): (record: seq<Byte>)
    requires |payload| < 0x1_0000
    ensures RecordLayer.IsFrame(record) && record[0] == kind && Payload(record) == payload
  {
    [kind] + PutUint16(version) + PutUint16(|payload|) + payload
  }

  // What is read out of the records of a stream. The handshake bytes are every
  // handshake payload end to end; only the first alert with both its bytes counts.
  datatype Reassembled = Reassembled(
    handshake: seq<Byte>,
    alert: Option<Alert>,
    sawChangeCipherSpec: bool,
    encrypted: seq<seq<Byte>>)

  function HandshakeBytes(records: seq<seq<Byte>>): seq<Byte>
    requires AllFrames(RecordLayer, records)
  {
    if records == [] then [] else
    (if records[0][0] == HANDSHAKE then Payload(records[0]) else []) + HandshakeBytes(records[1..])
  }

  predicate IsAlert(record: seq<Byte>)
    requires RecordLayer.IsFrame(record)
  {
    record[0] == ALERT && |Payload(record)| >= 2
  }

  function FirstAlert(records: seq<seq<Byte>>): Option<Alert>
    requires AllFrames(RecordLayer, records)
  {
    if records == [] then None
    else if IsAlert(records[0]) then Some(Alert(Payload(records[0])[0], Payload(records[0])[1]))
    else FirstAlert(records[1..])
  }

  function OfKind(kind: Byte, records: seq<seq<Byte>>): seq<seq<Byte>>
    requires AllFrames(RecordLayer, records)
  {
    if records == [] then [] else
    (if records[0][0] == kind then [records[0]] else []) + OfKind(kind, records[1..])
  }

  function ReassembleRecords(records: seq<seq<Byte>>): Reassembled
    requires AllFrames(RecordLayer, records)
  {
    Reassembled(
      HandshakeBytes(records),
      FirstAlert(records),
      OfKind(CHANGE_CIPHER_SPEC, records) != [],
      OfKind(APPLICATION_DATA, records))
  }

  function Reassembly(stream: seq<Byte>): Reassembled {
    FramesConserve(RecordLayer, stream);
    ReassembleRecords(Frames(RecordLayer, stream))
  }

  lemma {:induction false} OfKindAppend(kind: Byte, a: seq<seq<Byte>>, b: seq<seq<Byte>>)
    requires AllFrames(RecordLayer, a) && AllFrames(RecordLayer, b)
    ensures AllFrames(RecordLayer, a + b)
    ensures OfKind(kind, a + b) == OfKind(kind, a) + OfKind(kind, b)
  {
    if a == [] {
      assert a + b == b;
    } else {
      OfKindAppend(kind, a[1..], b);
      ConsAppend(a, b);
      Associate(if a[0][0] == kind then [a[0]] else [], OfKind(kind, a[1..]), OfKind(kind, b));
    }
  }

  lemma {:induction false} HandshakeBytesAppend(a: seq<seq<Byte>>, b: seq<seq<Byte>>)
    requires AllFrames(RecordLayer, a) && AllFrames(RecordLayer, b)
    ensures AllFrames(RecordLayer, a + b)
    ensures HandshakeBytes(a + b) == HandshakeBytes(a) + HandshakeBytes(b)
  {
    if a == [] {
      assert a + b == b;
    } else {
      HandshakeBytesAppend(a[1..], b);
      ConsAppend(a, b);
      Associate(if a[0][0] == HANDSHAKE then Payload(a[0]) else [], HandshakeBytes(a[1..]), HandshakeBytes(b));
    }
  }

  lemma {:induction false} FirstAlertAppend(a: seq<seq<Byte>>, b: seq<seq<Byte>>)
    requires AllFrames(RecordLayer, a) && AllFrames(RecordLayer, b)
    ensures AllFrames(RecordLayer, a + b)
    ensures FirstAlert(a + b) == if FirstAlert(a).Some? then FirstAlert(a) else FirstAlert(b)
  {
    if a == [] {
      assert a + b == b;
    } else {
      FirstAlertAppend(a[1..], b);
      ConsAppend(a, b);
    }
  }

  lemma ReassembleAppend(a: seq<seq<Byte>>, b: seq<seq<Byte>>)
    requires AllFrames(RecordLayer, a) && AllFrames(RecordLayer, b)
    ensures AllFrames(RecordLayer, a + b)
    ensures HandshakeBytes(a + b) == HandshakeBytes(a) + HandshakeBytes(b)
    ensures FirstAlert(a + b) == if FirstAlert(a).Some? then FirstAlert(a) else FirstAlert(b)
    ensures OfKind(CHANGE_CIPHER_SPEC, a + b) == OfKind(CHANGE_CIPHER_SPEC, a) + OfKind(CHANGE_CIPHER_SPEC, b)
    ensures OfKind(APPLICATION_DATA, a + b) == OfKind(APPLICATION_DATA, a) + OfKind(APPLICATION_DATA, b)
  {
    HandshakeBytesAppend(a, b);
    FirstAlertAppend(a, b);
    OfKindAppend(CHANGE_CIPHER_SPEC, a, b);
    OfKindAppend(APPLICATION_DATA, a, b);
  }

  // More bytes only add: the handshake bytes grow at the end, an alert stays the first
  // one seen, and no encrypted record is forgotten.
  lemma ReassemblyGrows(stream: seq<Byte>, more: seq<Byte>)
    ensures Reassembly(stream).handshake <= Reassembly(stream + more).handshake
    ensures Reassembly(stream).alert.Some? ==> Reassembly(stream + more).alert == Reassembly(stream).alert
    ensures Reassembly(stream).sawChangeCipherSpec ==> Reassembly(stream + more).sawChangeCipherSpec
    ensures Reassembly(stream).encrypted <= Reassembly(stream + more).encrypted
  {
    FramesPrefixStable(RecordLayer, stream, more);
    FramesConserve(RecordLayer, stream);
    FramesConserve(RecordLayer, Tail(RecordLayer, stream) + more);
    FramesConserve(RecordLayer, stream + more);
    ReassembleAppend(Frames(RecordLayer, stream), Frames(RecordLayer, Tail(RecordLayer, stream) + more));
  }

  lemma OneReassembled(record: seq<Byte>)
    requires RecordLayer.IsFrame(record)
    ensures var payload := record[5..];
      ReassembleRecords([record]) == Reassembled(
        if record[0] == HANDSHAKE then payload else [],
        if record[0] == ALERT && |payload| >= 2 then Some(Alert(payload[0], payload[1])) else None,
        record[0] == CHANGE_CIPHER_SPEC,
        if record[0] == APPLICATION_DATA then [record] else [])
  {
    var rest: seq<seq<Byte>> := [record][1..];
    assert rest == [];
    assert Payload(record) + HandshakeBytes(rest) == record[5..];
    assert HandshakeBytes([record]) == if record[0] == HANDSHAKE then record[5..] else [];
    assert FirstAlert([record]) == if IsAlert(record) then Some(Alert(record[5..][0], record[5..][1])) else None;
    assert OfKind(CHANGE_CIPHER_SPEC, [record]) == (if record[0] == CHANGE_CIPHER_SPEC then [record] else []);
    assert OfKind(APPLICATION_DATA, [record]) == (if record[0] == APPLICATION_DATA then [record] else []);
  }

  method Reassemble(stream: seq<Byte>) returns (r: Reassembled)
    ensures r == Reassembly(stream)
  {
    var records := SplitRecords(stream);
    FramesConserve(RecordLayer, stream);
    var handshake: seq<Byte>, alert: Option<Alert>, saw, encrypted: seq<seq<Byte>> := [], None, false, [];
    for i := 0 to |records|
      invariant AllFrames(RecordLayer, records)
      invariant Reassembled(handshake, alert, saw, encrypted) == ReassembleRecords(records[..i])
    {
      ReassembleAppend(records[..i], [records[i]]);
      OneReassembled(records[i]);
      assert records[..i + 1] == records[..i] + [records[i]];
      var payload := records[i][5..];
      match records[i][0] {
        case 22 => handshake := handshake + payload;
        case 21 =>
          if |payload| >= 2 && alert == None {
            alert := Some(Alert(payload[0], payload[1]));
          }
        case 20 => saw := true;
        case 23 => encrypted := encrypted + [records[i]];
        case _ =>
      }
    }
    assert records[..|records|] == records;
    r := Reassembled(handshake, alert, saw, encrypted);
  }

  // What is seen of a stream's records: that one of them changed the cipher, and the
  // encrypted ones among them.
  lemma {:induction false} KindSeen(kind: Byte, records: seq<seq<Byte>>, record: seq<Byte>)
    requires AllFrames(RecordLayer, records)
    ensures record in OfKind(kind, records) <==> record in records && |record| > 0 && record[0] == kind
  {
    if records != [] {
      KindSeen(kind, records[1..], record);
      assert records == [records[0]] + records[1..];
    }
  }

  lemma ReassemblyExact(stream: seq<Byte>, record: seq<Byte>)
    ensures Reassembly(stream).sawChangeCipherSpec <==>
      exists r :: r in Frames(RecordLayer, stream) && |r| > 0 && r[0] == 20
    ensures record in Reassembly(stream).encrypted <==>
      record in Frames(RecordLayer, stream) && |record| > 0 && record[0] == 23
  {
    FramesConserve(RecordLayer, stream);
    var records := Frames(RecordLayer, stream);
    KindSeen(APPLICATION_DATA, records, record);
    var changes := OfKind(CHANGE_CIPHER_SPEC, records);
    if changes != [] {
      KindSeen(CHANGE_CIPHER_SPEC, records, changes[0]);
      assert changes[0] in changes;
    }
    if r :| r in records && |r| > 0 && r[0] == 20 {
      KindSeen(CHANGE_CIPHER_SPEC, records, r);
    }
  }
}
