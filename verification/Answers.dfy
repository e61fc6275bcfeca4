/**
 What a probe makes of a flight that is sent in any records and arrives in any reads
 (the read loop of handshake in pkg/tls/probe/probe.go, with FlightIsComplete and
 ParseFlight in pkg/tls/wire/server_response.go; sections 6.2.1 and 7.3 of RFC 5246).

 An alert completes a flight wherever it stands, a warning too. So a flight with a
 warning ahead of its handshake is read as far as the read that brings the warning, and
 how the bytes fall into reads decides what is found.
 */
module Answers {
  import opened Bytes
  import opened Readers
  import opened Framing
  import opened ServerHellos
  import opened KeyExchanges
  import opened Flights

  // --- Which records a stream cut short has brought ---------------------------------------

  // How many whole records there are in the first k bytes.
  function Whole(records: seq<seq<Byte>>, k: nat): (c: nat)
    ensures c <= |records|
  {
    if records == [] || k < |records[0]| then 0 else 1 + Whole(records[1..], k - |records[0]|)
  }

  lemma {:induction false} WholeReaches(records: seq<seq<Byte>>, k: nat, j: nat)
    requires j <= |records|
    requires forall i :: 0 <= i < |records| ==> records[i] != []
    ensures Whole(records, k) >= j <==> k >= |Concat(records[..j])|
  {
    if j > 0 {
      var head, rest := records[0], records[1..];
      assert records[..j][0] == head && records[..j][1..] == rest[..j - 1];
      if k >= |head| {
        WholeReaches(rest, k - |head|, j - 1);
      }
    }
  }

  lemma {:induction false} FramesArrived(records: seq<seq<Byte>>, k: nat)
    requires AllFrames(RecordLayer, records) && k <= |Concat(records)|
    ensures Frames(RecordLayer, Concat(records)[..k]) == records[..Whole(records, k)]
  {
    if records == [] {
    } else {
      var head, rest := records[0], records[1..];
      if k < |head| {
        CutInFrame(RecordLayer, head, Concat(rest), k);
      } else {
        var n := k - |head|;
        CutAfter(head, Concat(rest), k);
        FramesArrived(rest, n);
        FrameFirst(RecordLayer, head, Concat(rest)[..n]);
        PrefixCons(records, Whole(rest, n));
      }
    }
  }

  lemma PrefixCons<T>(s: seq<T>, n: nat)
    requires n < |s|
    ensures s[..n + 1] == [s[0]] + s[1..][..n]
  {
  }

  // How many records it takes to bring so many handshake bytes.
  function RecordsFor(records: seq<seq<Byte>>, bytes: nat): (c: nat)
    requires AllFrames(RecordLayer, records)
    ensures c <= |records|
  {
    if records == [] || bytes == 0 then 0 else
    var n := |HandshakeBytes([records[0]])|;
    1 + RecordsFor(records[1..], if n >= bytes then 0 else bytes - n)
  }

  // How many records it takes to bring the first alert, where there is one.
  function RecordsToAlert(records: seq<seq<Byte>>): (c: nat)
    requires AllFrames(RecordLayer, records)
    ensures c <= |records|
  {
    if records == [] then 0 else if IsAlert(records[0]) then 1 else 1 + RecordsToAlert(records[1..])
  }

  // A record that completes a flight by itself, whatever the handshake has come to.
  predicate Signals(record: seq<Byte>)
    requires RecordLayer.IsFrame(record)
  {
    IsAlert(record) || record[0] == APPLICATION_DATA
  }

  // How many records it takes to bring the first of these, and all of them where there is
  // none.
  function RecordsToSignal(records: seq<seq<Byte>>): (c: nat)
    requires AllFrames(RecordLayer, records)
    ensures c <= |records|
  {
    if records == [] then 0 else if Signals(records[0]) then 1 else 1 + RecordsToSignal(records[1..])
  }

  lemma HandshakeCons(records: seq<seq<Byte>>)
    requires AllFrames(RecordLayer, records) && records != []
    ensures HandshakeBytes(records) == HandshakeBytes([records[0]]) + HandshakeBytes(records[1..])
  {
    assert records == [records[0]] + records[1..];
    HandshakeBytesAppend([records[0]], records[1..]);
  }

  lemma {:induction false} HandshakeArrived(records: seq<seq<Byte>>, bytes: nat, c: nat)
    requires AllFrames(RecordLayer, records) && c <= |records|
    requires bytes <= |HandshakeBytes(records)|
    ensures |HandshakeBytes(records[..c])| >= bytes <==> c >= RecordsFor(records, bytes)
  {
    if records != [] && bytes > 0 && c > 0 {
      var n := |HandshakeBytes([records[0]])|;
      HandshakeCons(records);
      HandshakeCons(records[..c]);
      assert records[..c][1..] == records[1..][..c - 1];
      HandshakeArrived(records[1..], if n >= bytes then 0 else bytes - n, c - 1);
    }
  }

  lemma {:induction false} AlertArrived(records: seq<seq<Byte>>, c: nat)
    requires AllFrames(RecordLayer, records) && c <= |records|
    ensures FirstAlert(records[..c])
      == if FirstAlert(records).Some? && c >= RecordsToAlert(records) then FirstAlert(records) else None
  {
    if c > 0 {
      assert records[..c][0] == records[0] && records[..c][1..] == records[1..][..c - 1];
      AlertArrived(records[1..], c - 1);
    } else if records != [] {
      assert RecordsToAlert(records) >= 1;
    }
  }

  lemma {:induction false} SignalArrived(records: seq<seq<Byte>>, c: nat)
    requires AllFrames(RecordLayer, records) && c <= |records|
    ensures FirstAlert(records[..c]).Some? || OfKind(APPLICATION_DATA, records[..c]) != [] ==>
      c >= RecordsToSignal(records)
    ensures c >= RecordsToSignal(records) ==>
      FirstAlert(records[..c]).Some? || OfKind(APPLICATION_DATA, records[..c]) != [] || c == |records|
  {
    if c > 0 {
      assert records[..c][0] == records[0] && records[..c][1..] == records[1..][..c - 1];
      SignalArrived(records[1..], c - 1);
    } else if records != [] {
      assert RecordsToSignal(records) >= 1;
    }
  }

  lemma NoneOfKindBefore(kind: Byte, records: seq<seq<Byte>>, c: nat, d: nat)
    requires AllFrames(RecordLayer, records) && c <= d <= |records|
    requires OfKind(kind, records[..d]) == []
    ensures OfKind(kind, records[..c]) == []
  {
    var before := records[..d];
    assert records[..c] == before[..c];
    SplitAt(before, c);
    OfKindAppend(kind, before[..c], before[c..]);
  }

  // --- A flight in records ----------------------------------------------------------------

  function Encoded(messages: seq<Message>): seq<seq<Byte>> {
    if messages == [] then [] else [Encode(messages[0])] + Encoded(messages[1..])
  }

  lemma {:induction false} EncodedFrames(messages: seq<Message>)
    requires forall m :: m in messages ==> Sendable(m)
    ensures AllFrames(HandshakeLayer, Encoded(messages))
    ensures Concat(Encoded(messages)) == EncodeAll(messages)
    ensures |Encoded(messages)| == |messages|
    ensures forall i :: 0 <= i < |messages| ==> Encoded(messages)[i] == Encode(messages[i])
  {
    if messages != [] {
      EncodedFrames(messages[1..]);
      MessageRoundTrip(messages[0]);
    }
  }

  // Handshake bytes cut before the end of the last message hold only earlier messages.
  lemma MessagesOfCut(front: seq<Message>, last: Message, k: nat)
    requires (forall m :: m in front ==> Sendable(m)) && Sendable(last)
    requires k < |EncodeAll(front) + Encode(last)|
    ensures Messages((EncodeAll(front) + Encode(last))[..k]) <= front
  {
    EncodedFrames(front);
    MessageRoundTrip(last);
    FramesOfCut(HandshakeLayer, Encoded(front), Encode(last), k);
    var cut := (EncodeAll(front) + Encode(last))[..k];
    MessagesAreFrames(cut);
    forall i | 0 <= i < |Messages(cut)| ensures i < |front| && Messages(cut)[i] == front[i] {
      assert Frames(HandshakeLayer, cut)[i] == Encoded(front)[i];
      MessageRoundTrip(front[i]);
    }
  }

  // How many records it takes to bring the whole handshake, and how many bytes that is.
  function Handshakes(records: seq<seq<Byte>>): nat
    requires AllFrames(RecordLayer, records)
  {
    RecordsFor(records, |HandshakeBytes(records)|)
  }

  function End(records: seq<seq<Byte>>): nat
    requires AllFrames(RecordLayer, records)
  {
    |Concat(records[..Handshakes(records)])|
  }

  // The byte at which the flight counts as complete: the last of the first alert or
  // encrypted record or the last of the handshake, whichever comes first.
  function Stop(records: seq<seq<Byte>>): (n: nat)
    requires AllFrames(RecordLayer, records)
  {
    var signal, handshakes := RecordsToSignal(records), Handshakes(records);
    |Concat(records[..if signal < handshakes then signal else handshakes])|
  }

  // Records carry a flight: their handshake payloads are the bytes of its messages in any
  // division at all, and of these only the last ends a flight. Alerts, encrypted records,
  // change-cipher-spec records, empty ones and ones of an unknown kind may stand among
  // them anywhere at all.
  ghost predicate Carries(records: seq<seq<Byte>>, front: seq<Message>, last: Message) {
    && AllFrames(RecordLayer, records)
    && HandshakeBytes(records) == EncodeAll(front) + Encode(last)
    && (forall m :: m in front ==> Sendable(m) && !Ends(m))
    && Sendable(last)
    && Ends(last)
  }

  lemma FramesNotEmpty(records: seq<seq<Byte>>)
    requires AllFrames(RecordLayer, records)
    ensures forall i :: 0 <= i < |records| ==> records[i] != []
  {
    forall i | 0 <= i < |records| ensures records[i] != [] {
      assert RecordLayer.IsFrame(records[i]);
    }
  }

  lemma PrefixFrames(records: seq<seq<Byte>>, c: nat)
    requires AllFrames(RecordLayer, records) && c <= |records|
    ensures AllFrames(RecordLayer, records[..c])
  {
  }

  // What the first k bytes of the records are reassembled to.
  lemma CutReassembly(records: seq<seq<Byte>>, k: nat)
    requires AllFrames(RecordLayer, records) && k <= |Concat(records)|
    ensures AllFrames(RecordLayer, records[..Whole(records, k)])
    ensures Reassembly(Concat(records)[..k]) == ReassembleRecords(records[..Whole(records, k)])
  {
    FramesArrived(records, k);
    PrefixFrames(records, Whole(records, k));
  }

  lemma HandshakePrefix(records: seq<seq<Byte>>, c: nat)
    requires AllFrames(RecordLayer, records) && c <= |records|
    ensures HandshakeBytes(records[..c]) <= HandshakeBytes(records)
  {
    SplitAt(records, c);
    HandshakeBytesAppend(records[..c], records[c..]);
  }

  lemma MessagesWhole(front: seq<Message>, last: Message)
    requires (forall m :: m in front ==> Sendable(m)) && Sendable(last)
    ensures Messages(EncodeAll(front) + Encode(last)) == front + [last]
  {
    MessagesInverse(front, Encode(last));
    MessageFirst(last, []);
    assert Encode(last) + [] == Encode(last);
    assert [last] + Messages([]) == [last];
  }

  // The messages that can be read out of the first c records.
  function MessagesIn(records: seq<seq<Byte>>, c: nat): seq<Message>
    requires AllFrames(RecordLayer, records) && c <= |records|
  {
    PrefixFrames(records, c);
    Messages(HandshakeBytes(records[..c]))
  }

  // The messages of the first c records: all of them from where the handshake is whole,
  // and before that some of those that end nothing.
  lemma MessagesArrived(records: seq<seq<Byte>>, front: seq<Message>, last: Message, c: nat)
    requires Carries(records, front, last) && c <= |records|
    ensures MessagesIn(records, c) == Messages(HandshakeBytes(records[..c]))
    ensures c >= Handshakes(records) ==> MessagesIn(records, c) == front + [last]
    ensures c < Handshakes(records) ==> MessagesIn(records, c) <= front
  {
    var whole, seen := HandshakeBytes(records), HandshakeBytes(records[..c]);
    HandshakeArrived(records, |whole|, c);
    HandshakePrefix(records, c);
    assert seen == whole[..|seen|];
    if c >= Handshakes(records) {
      assert seen == whole;
      MessagesWhole(front, last);
    } else {
      MessagesOfCut(front, last, |seen|);
    }
  }

  // A flight is complete at its stopping byte and not one byte sooner, whatever the
  // division into records.
  lemma CompleteExactly(records: seq<seq<Byte>>, front: seq<Message>, last: Message, k: nat)
    requires Carries(records, front, last) && k <= |Concat(records)|
    ensures Complete(Concat(records)[..k]) <==> k >= Stop(records)
  {
    var c := Whole(records, k);
    CutReassembly(records, k);
    MessagesArrived(records, front, last, c);
    SignalArrived(records, c);
    FramesNotEmpty(records);
    WholeReaches(records, k, Handshakes(records));
    WholeReaches(records, k, RecordsToSignal(records));
    var messages := Messages(HandshakeBytes(records[..c]));
    if c >= Handshakes(records) {
      assert last in messages;
    } else {
      forall m | m in messages ensures !Ends(m) {
        assert m in front;
      }
    }
  }

  lemma StopsInside(records: seq<seq<Byte>>, front: seq<Message>, last: Message)
    requires Carries(records, front, last)
    ensures 0 < Stop(records) <= End(records) <= |Concat(records)|
  {
    CompleteExactly(records, front, last, 0);
    var n := |Concat(records)|;
    FramesNotEmpty(records);
    WholeReaches(records, n, Handshakes(records));
    FramesArrived(records, n);
    assert Concat(records)[..n] == Concat(records) + [];
    FramesUnique(RecordLayer, records, []);
    WholeReaches(records, End(records), Handshakes(records));
    WholeReaches(records, End(records), RecordsToSignal(records));
    assert Concat(records)[..0] == [];
  }

  // --- The read loop over it --------------------------------------------------------------

  // The read that brings the n-th byte.
  function Reaching(arrivals: seq<Read>, n: nat): (made: nat)
    ensures made <= |arrivals|
    decreases |arrivals|
  {
    if arrivals == [] then 0
    else if |arrivals[0].bytes| >= n then 1
    else 1 + Reaching(arrivals[1..], n - |arrivals[0].bytes|)
  }

  lemma {:induction false} ArrivedPrefix(arrivals: seq<Read>, m: nat)
    requires m <= |arrivals|
    ensures Arrived(arrivals[..m]) <= Arrived(arrivals)
    decreases |arrivals|
  {
    if m > 0 {
      assert arrivals[..m][0] == arrivals[0] && arrivals[..m][1..] == arrivals[1..][..m - 1];
      ArrivedPrefix(arrivals[1..], m - 1);
    }
  }

  lemma {:induction false} ReachingReaches(arrivals: seq<Read>, n: nat)
    requires 0 < n <= |Arrived(arrivals)|
    ensures |Arrived(arrivals[..Reaching(arrivals, n)])| >= n
    decreases |arrivals|
  {
    var m := Reaching(arrivals, n);
    assert arrivals[..m][0] == arrivals[0] && arrivals[..m][1..] == arrivals[1..][..m - 1];
    if |arrivals[0].bytes| < n {
      ReachingReaches(arrivals[1..], n - |arrivals[0].bytes|);
    }
  }

  // A stream is complete from this byte on.
  ghost predicate CompleteFrom(stream: seq<Byte>, n: nat) {
    forall k :: 0 <= k <= |stream| ==> (Complete(stream[..k]) <==> k >= n)
  }

  // None of the reads before the one that brings the n-th byte fails.
  ghost predicate Uninterrupted(arrivals: seq<Read>, n: nat) {
    forall i :: 0 <= i < Reaching(arrivals, n) - 1 ==> !arrivals[i].failed
  }

  // The loop stops with the read that completes the stream: it makes every read up to it
  // and asks for no more.
  lemma {:induction false} StopsAtCompletion(collected: seq<Byte>, arrivals: seq<Read>, more: seq<Read>, n: nat)
    requires 0 < n <= |Arrived(arrivals)| && Uninterrupted(arrivals, n)
    requires CompleteFrom(collected + Arrived(arrivals), |collected| + n)
    ensures ReadsMade(collected, arrivals + more) == Reaching(arrivals, n)
    decreases |arrivals|
  {
    var first, rest := arrivals[0], arrivals[1..];
    var stream, next := collected + Arrived(arrivals), collected + first.bytes;
    ConsAppend(arrivals, more);
    Associate(collected, first.bytes, Arrived(rest));
    assert stream[..|next|] == next;
    if |first.bytes| < n {
      var left := n - |first.bytes|;
      forall i | 0 <= i < Reaching(rest, left) - 1 ensures !rest[i].failed {
        assert rest[i] == arrivals[i + 1];
      }
      assert Reaching(arrivals, n) == 1 + Reaching(rest, left);
      ReachingAny(rest, left);
      assert !arrivals[0].failed;
      StopsAtCompletion(next, rest, more, left);
    }
  }

  lemma ReachingAny(arrivals: seq<Read>, n: nat)
    requires 0 < n <= |Arrived(arrivals)|
    ensures Reaching(arrivals, n) > 0
  {
  }

  // How many bytes the loop has collected when it stops on a flight in these records.
  function Collected(records: seq<seq<Byte>>, arrivals: seq<Read>): nat
    requires AllFrames(RecordLayer, records)
  {
    |Arrived(arrivals[..Reaching(arrivals, Stop(records))])|
  }

  // The reads bring the records, and none before the stop fails.
  ghost predicate Brings(arrivals: seq<Read>, records: seq<seq<Byte>>)
    requires AllFrames(RecordLayer, records)
  {
    Arrived(arrivals) == Concat(records) && Uninterrupted(arrivals, Stop(records))
  }

  lemma LoopStops(
    records: seq<seq<Byte>>, front: seq<Message>, last: Message, arrivals: seq<Read>, more: seq<Read>)
    requires Carries(records, front, last) && Brings(arrivals, records)
    ensures ReadsMade([], arrivals + more) == Reaching(arrivals, Stop(records))
    ensures Stop(records) <= Collected(records, arrivals) <= |Concat(records)|
    ensures Arrived((arrivals + more)[..ReadsMade([], arrivals + more)])
      == Concat(records)[..Collected(records, arrivals)]
  {
    StopsInside(records, front, last);
    var n := Stop(records);
    assert [] + Arrived(arrivals) == Concat(records);
    forall k | 0 <= k <= |Concat(records)| ensures Complete(Concat(records)[..k]) <==> k >= n {
      CompleteExactly(records, front, last, k);
    }
    assert CompleteFrom(Concat(records), n);
    StopsAtCompletion([], arrivals, more, n);
    var m := Reaching(arrivals, n);
    ReachingReaches(arrivals, n);
    ArrivedPrefix(arrivals, m);
    assert (arrivals + more)[..m] == arrivals[..m];
  }

  // --- What is read out of it -------------------------------------------------------------

  // The flight has told what ends one.
  predicate ToldEnd(flight: Flight) {
    || flight.hasServerHelloDone
    || (flight.serverHello.Some?
        && (flight.serverHello.value.isHelloRetryRequest || flight.serverHello.value.version >= VERSION_TLS13))
  }

  lemma {:induction false} NothingTold(flight: Flight, messages: seq<Message>, finiteField: FiniteFieldResolver)
    requires !ToldEnd(flight) && forall m :: m in messages ==> !Ends(m)
    requires NoteAll(flight, messages, finiteField).Some?
    ensures !ToldEnd(NoteAll(flight, messages, finiteField).value)
    decreases |messages|
  {
    if messages != [] {
      assert !Ends(messages[0]);
      NothingTold(Note(flight, messages[0], finiteField).value, messages[1..], finiteField);
    }
  }

  lemma LastTells(flight: Flight, front: seq<Message>, last: Message, finiteField: FiniteFieldResolver)
    requires Ends(last) && NoteAll(flight, front + [last], finiteField).Some?
    ensures ToldEnd(NoteAll(flight, front + [last], finiteField).value)
  {
    NoteAllAppend(flight, front, [last], finiteField);
    NoteLast(NoteAll(flight, front, finiteField).value, last, finiteField);
  }

  lemma NoteLast(flight: Flight, m: Message, finiteField: FiniteFieldResolver)
    ensures NoteAll(flight, [m], finiteField) == Note(flight, m, finiteField)
  {
    var rest: seq<Message> := [m][1..];
    assert rest == [];
  }

  lemma NoteAllPrefix(
    flight: Flight, messages: seq<Message>, part: seq<Message>, finiteField: FiniteFieldResolver)
    requires part <= messages && NoteAll(flight, messages, finiteField).Some?
    ensures NoteAll(flight, part, finiteField).Some?
  {
    var rest := messages[|part|..];
    assert messages == part + rest;
    NoteAllAppend(flight, part, rest, finiteField);
  }

  // What the alert and the encrypted records among the first c records come to.
  function Around(flight: Flight, records: seq<seq<Byte>>, c: nat): Flight
    requires AllFrames(RecordLayer, records) && c <= |records|
  {
    PrefixFrames(records, c);
    flight.(alert := FirstAlert(records[..c]), encrypted := OfKind(APPLICATION_DATA, records[..c]) != [])
  }

  lemma NotedAround(
    records: seq<seq<Byte>>, c: nat, messages: seq<Message>, finiteField: FiniteFieldResolver)
    requires AllFrames(RecordLayer, records) && c <= |records|
    ensures var noted, around :=
        NoteAll(Blank(), messages, finiteField), NoteAll(Around(Blank(), records, c), messages, finiteField);
      && (noted.Some? <==> around.Some?)
      && (noted.Some? ==> around.value == Around(noted.value, records, c))
  {
    NoteAllFrame(Blank(), Around(Blank(), records, c), messages, finiteField);
    if NoteAll(Blank(), messages, finiteField).Some? {
      NoteAllKeeps(Around(Blank(), records, c), messages, finiteField);
    }
  }

  // The flight of what has been collected, in terms of the messages that have.
  lemma CutFlight(records: seq<seq<Byte>>, k: nat, finiteField: FiniteFieldResolver)
    requires AllFrames(RecordLayer, records) && k <= |Concat(records)|
    ensures var c := Whole(records, k);
      ReadFlight(Concat(records)[..k], finiteField)
      == if MessagesIn(records, c) == [] && Around(Blank(), records, c).alert.None? then None
         else NoteAll(Around(Blank(), records, c), MessagesIn(records, c), finiteField)
  {
    CutReassembly(records, k);
  }

  lemma AnswerIsCut(
    records: seq<seq<Byte>>, front: seq<Message>, last: Message, arrivals: seq<Read>, more: seq<Read>,
    finiteField: FiniteFieldResolver)
    requires Carries(records, front, last) && Brings(arrivals, records)
    ensures var n := Collected(records, arrivals);
      && n <= |Concat(records)|
      && var read := ReadFlight(Concat(records)[..n], finiteField);
         Answer(arrivals + more, finiteField) == if read.None? then Err(Unreadable) else Ok(read.value)
  {
    LoopStops(records, front, last, arrivals, more);
    StopsInside(records, front, last);
  }

  // What the whole flight says, with the alert and the encrypted records that have come.
  function WholeAnswer(
    records: seq<seq<Byte>>, front: seq<Message>, last: Message, arrivals: seq<Read>,
    finiteField: FiniteFieldResolver): Result<Flight, NoFlight>
    requires AllFrames(RecordLayer, records)
  {
    var noted := NoteAll(Blank(), front + [last], finiteField);
    if noted.None? then Err(Unreadable)
    else Ok(Around(noted.value, records, Whole(records, Collected(records, arrivals))))
  }

  // The main result on flights. Whatever records carry the messages and whatever reads
  // bring the records, the loop makes exactly the reads up to the one with the stopping
  // byte, and what is read is what the whole flight says if and only if that read brings
  // the last of the handshake as well.
  lemma AnswerExactly(
    records: seq<seq<Byte>>, front: seq<Message>, last: Message, arrivals: seq<Read>, more: seq<Read>,
    finiteField: FiniteFieldResolver)
    requires Carries(records, front, last) && Brings(arrivals, records)
    ensures ReadsMade([], arrivals + more) == Reaching(arrivals, Stop(records))
    ensures Collected(records, arrivals) >= End(records) ==>
      Answer(arrivals + more, finiteField) == WholeAnswer(records, front, last, arrivals, finiteField)
    ensures NoteAll(Blank(), front + [last], finiteField).Some? ==>
      (Collected(records, arrivals) >= End(records) <==>
        Answer(arrivals + more, finiteField) == WholeAnswer(records, front, last, arrivals, finiteField))
    ensures RecordsToSignal(records) >= Handshakes(records) ==> Collected(records, arrivals) >= End(records)
  {
    LoopStops(records, front, last, arrivals, more);
    StopsInside(records, front, last);
    AnswerIsCut(records, front, last, arrivals, more, finiteField);
    if Collected(records, arrivals) >= End(records) {
      AnswerWhole(records, front, last, Collected(records, arrivals), finiteField);
    } else {
      AnswerCut(records, front, last, Collected(records, arrivals), finiteField);
    }
  }

  lemma AnswerWhole(
    records: seq<seq<Byte>>, front: seq<Message>, last: Message, n: nat, finiteField: FiniteFieldResolver)
    requires Carries(records, front, last) && End(records) <= n <= |Concat(records)|
    ensures var noted := NoteAll(Blank(), front + [last], finiteField);
      ReadFlight(Concat(records)[..n], finiteField)
      == if noted.None? then None else Some(Around(noted.value, records, Whole(records, n)))
  {
    var c := Whole(records, n);
    FramesNotEmpty(records);
    WholeReaches(records, n, Handshakes(records));
    CutFlight(records, n, finiteField);
    MessagesArrived(records, front, last, c);
    NotedAround(records, c, front + [last], finiteField);
  }

  lemma AnswerCut(
    records: seq<seq<Byte>>, front: seq<Message>, last: Message, n: nat, finiteField: FiniteFieldResolver)
    requires Carries(records, front, last) && Stop(records) <= n < End(records) && n <= |Concat(records)|
    ensures var noted := NoteAll(Blank(), front + [last], finiteField);
      noted.Some? ==>
        ReadFlight(Concat(records)[..n], finiteField) != Some(Around(noted.value, records, Whole(records, n)))
  {
    var c := Whole(records, n);
    FramesNotEmpty(records);
    WholeReaches(records, n, Handshakes(records));
    CutFlight(records, n, finiteField);
    MessagesArrived(records, front, last, c);
    var messages := MessagesIn(records, c);
    if NoteAll(Blank(), front + [last], finiteField).Some? {
      LastTells(Blank(), front, last, finiteField);
      if NoteAll(Around(Blank(), records, c), messages, finiteField).Some? {
        forall m | m in messages ensures !Ends(m) {
          assert m in front;
        }
        NothingTold(Around(Blank(), records, c), messages, finiteField);
      }
    }
  }

  // --- A flight below TLS 1.3, field by field -------------------------------------------

  datatype Exchange =
    | OverFiniteField(p: seq<Byte>, g: seq<Byte>, ys: seq<Byte>, signed: Option<Signed>)
    | OverCurve(curve: Word, point: seq<Byte>, signed: Option<Signed>)

  datatype ServerFlight = ServerFlight(
    hello: Fields,
    certificate: Option<seq<Byte>>,
    status: Option<seq<Byte>>,
    exchange: Option<Exchange>,
    others: seq<Message>)

  ghost predicate ExchangeFits(x: Exchange) {
    match x
    case OverFiniteField(p, g, ys, _) => |p| < 0x1_0000 && |g| < 0x1_0000 && |ys| < 0x1_0000
    case OverCurve(_, point, _) => |point| < 0x100
  }

  function PutExchange(x: Exchange): seq<Byte>
    requires ExchangeFits(x)
  {
    match x
    case OverFiniteField(p, g, ys, signed) => PutFiniteField(p, g, ys, PutSigned(signed))
    case OverCurve(curve, point, signed) => PutCurve(curve, point, PutSigned(signed))
  }

  function Optional(kind: Byte, body: Option<seq<Byte>>): seq<Message> {
    if body.None? then [] else [Message(kind, body.value)]
  }

  // The messages before the final one, in the order of section 7.3 of RFC 5246; others
  // stands for a certificate request and whatever else says nothing here.
  function Front(f: ServerFlight): seq<Message>
    requires WellFormed(f.hello)
    requires f.exchange.Some? ==> ExchangeFits(f.exchange.value)
  {
    Optional(SERVER_HELLO, Some(Put(f.hello)))
    + (Optional(CERTIFICATE, f.certificate)
    + (Optional(CERTIFICATE_STATUS, f.status)
    + (Optional(SERVER_KEY_EXCHANGE, PutOptional(f.exchange))
    + f.others)))
  }

  ghost predicate PlainFlight(f: ServerFlight, finiteField: FiniteFieldResolver) {
    && WellFormed(f.hello)
    && Meaning(f.hello).version < VERSION_TLS13
    && !Meaning(f.hello).isHelloRetryRequest
    && (f.exchange.Some? ==>
      ExchangeFits(f.exchange.value) && (f.exchange.value.OverFiniteField? <==> finiteField(f.hello.cipherSuite)))
    && (forall m :: m in f.others ==>
      m.kind !in {SERVER_HELLO, CERTIFICATE, SERVER_KEY_EXCHANGE, SERVER_HELLO_DONE, CERTIFICATE_STATUS})
  }

  // What the exchange says, read back.
  ghost predicate Tells(read: Option<ServerKeyExchange>, x: Option<Exchange>, version: Word) {
    match x
    case None => read == None
    case Some(OverFiniteField(p, g, _, signed)) =>
      && read.Some?
      && IsBitLength(Value(p), read.value.primeBits)
      && (read.value.generatorIsTwo <==> g == [2])
      && read.value.namedCurve == None
      && read.value.signatureAlgorithm ==
        (if signed.Some? && version >= VERSION_TLS12 then Some(signed.value.algorithm) else None)
    case Some(OverCurve(curve, _, signed)) =>
      && read.Some?
      && read.value.namedCurve == Some(curve)
      && read.value.primeBits == 0
      && read.value.signatureAlgorithm ==
        (if signed.Some? && version >= VERSION_TLS12 then Some(signed.value.algorithm) else None)
  }

  lemma ExchangeReadBack(x: Exchange, version: Word)
    requires ExchangeFits(x)
    ensures ParseKeyExchange(PutExchange(x), version, x.OverFiniteField?).Some?
    ensures Tells(ParseKeyExchange(PutExchange(x), version, x.OverFiniteField?), Some(x), version)
  {
    match x
    case OverFiniteField(p, g, ys, signed) => ParseFiniteFieldInverse(p, g, ys, signed, version);
    case OverCurve(curve, point, signed) => ParseCurveInverse(curve, point, signed, version);
  }

  // An optional message is noted, or passed over, before what follows it.
  lemma NoteOptional(
    flight: Flight, kind: Byte, body: Option<seq<Byte>>, next: Flight, rest: seq<Message>,
    finiteField: FiniteFieldResolver)
    requires Some(next) == if body.None? then Some(flight) else Note(flight, Message(kind, body.value), finiteField)
    ensures NoteAll(flight, Optional(kind, body) + rest, finiteField) == NoteAll(next, rest, finiteField)
  {
    if body.None? {
      assert Optional(kind, body) + rest == rest;
    } else {
      assert (Optional(kind, body) + rest)[1..] == rest;
    }
  }

  lemma {:induction false} NoteOthers(flight: Flight, others: seq<Message>, finiteField: FiniteFieldResolver)
    requires forall m :: m in others ==>
      m.kind !in {SERVER_HELLO, CERTIFICATE, SERVER_KEY_EXCHANGE, SERVER_HELLO_DONE, CERTIFICATE_STATUS}
    ensures NoteAll(flight, others, finiteField) == Some(flight)
  {
    if others != [] {
      NoteOthers(flight, others[1..], finiteField);
    }
  }

  lemma HelloReadBack(f: Fields)
    requires WellFormed(f)
    ensures Parse(Put(f)) == Some(Meaning(f))
  {
    TakeFieldsInverse(f, []);
    assert Put(f) + [] == Put(f);
  }

  function PutOptional(x: Option<Exchange>): Option<seq<Byte>>
    requires x.Some? ==> ExchangeFits(x.value)
  {
    if x.None? then None else Some(PutExchange(x.value))
  }

  function ReadExchange(f: ServerFlight, finiteField: FiniteFieldResolver): Option<ServerKeyExchange>
    requires WellFormed(f.hello)
    requires f.exchange.Some? ==> ExchangeFits(f.exchange.value)
  {
    if f.exchange.None? then None else
    ParseKeyExchange(PutExchange(f.exchange.value), Meaning(f.hello).version, finiteField(f.hello.cipherSuite))
  }

  lemma NoteExchangeMessage(flight: Flight, body: seq<Byte>, finiteField: FiniteFieldResolver)
    requires flight.serverHello.Some?
    requires ParseKeyExchange(body, flight.serverHello.value.version,
                              finiteField(flight.serverHello.value.cipherSuite)).Some?
    ensures Note(flight, Message(SERVER_KEY_EXCHANGE, body), finiteField)
      == Some(flight.(serverKeyExchange := ParseKeyExchange(body, flight.serverHello.value.version,
                                                            finiteField(flight.serverHello.value.cipherSuite))))
  {
  }

  lemma NoteExchange(f: ServerFlight, flight: Flight, finiteField: FiniteFieldResolver)
    requires PlainFlight(f, finiteField)
    requires flight.serverHello == Some(Meaning(f.hello)) && flight.serverKeyExchange == None
    ensures Tells(ReadExchange(f, finiteField), f.exchange, Meaning(f.hello).version)
    ensures f.exchange.Some? ==>
      Note(flight, Message(SERVER_KEY_EXCHANGE, PutExchange(f.exchange.value)), finiteField)
        == Some(flight.(serverKeyExchange := ReadExchange(f, finiteField)))
  {
    if f.exchange.Some? {
      ExchangeReadBack(f.exchange.value, Meaning(f.hello).version);
      NoteExchangeMessage(flight, PutExchange(f.exchange.value), finiteField);
    }
  }

  lemma NoteCertificates(
    flight: Flight, certificate: Option<seq<Byte>>, status: Option<seq<Byte>>, rest: seq<Message>,
    finiteField: FiniteFieldResolver)
    requires flight.certificateBytes == None && flight.certificateStatus == None
    ensures
      NoteAll(flight, Optional(CERTIFICATE, certificate) + (Optional(CERTIFICATE_STATUS, status) + rest), finiteField)
      == NoteAll(flight.(certificateBytes := certificate, certificateStatus := status), rest, finiteField)
  {
    var next := flight.(certificateBytes := certificate);
    NoteOptional(flight, CERTIFICATE, certificate, next, Optional(CERTIFICATE_STATUS, status) + rest, finiteField);
    NoteOptional(next, CERTIFICATE_STATUS, status, next.(certificateStatus := status), rest, finiteField);
  }

  lemma NoteKeyExchange(f: ServerFlight, flight: Flight, finiteField: FiniteFieldResolver)
    requires PlainFlight(f, finiteField)
    requires flight.serverHello == Some(Meaning(f.hello)) && flight.serverKeyExchange == None
    ensures NoteAll(flight, Optional(SERVER_KEY_EXCHANGE, PutOptional(f.exchange)) + f.others, finiteField)
      == Some(flight.(serverKeyExchange := ReadExchange(f, finiteField)))
  {
    var next := flight.(serverKeyExchange := ReadExchange(f, finiteField));
    NoteExchange(f, flight, finiteField);
    NoteOptional(flight, SERVER_KEY_EXCHANGE, PutOptional(f.exchange), next, f.others, finiteField);
    NoteOthers(next, f.others, finiteField);
  }

  lemma NoteHello(f: Fields, rest: seq<Message>, finiteField: FiniteFieldResolver)
    requires WellFormed(f)
    ensures NoteAll(Blank(), Optional(SERVER_HELLO, Some(Put(f))) + rest, finiteField)
      == NoteAll(Blank().(serverHello := Some(Meaning(f))), rest, finiteField)
  {
    HelloReadBack(f);
    NoteOptional(Blank(), SERVER_HELLO, Some(Put(f)), Blank().(serverHello := Some(Meaning(f))), rest, finiteField);
  }

  lemma NoteFront(f: ServerFlight, finiteField: FiniteFieldResolver)
    requires PlainFlight(f, finiteField)
    ensures NoteAll(Blank(), Front(f), finiteField) ==
      Some(Flight(Some(Meaning(f.hello)), ReadExchange(f, finiteField), f.certificate, f.status, false, None, false))
  {
    var m4 := Optional(SERVER_KEY_EXCHANGE, PutOptional(f.exchange)) + f.others;
    var f1 := Blank().(serverHello := Some(Meaning(f.hello)));
    var m2 := Optional(CERTIFICATE, f.certificate) + (Optional(CERTIFICATE_STATUS, f.status) + m4);
    NoteHello(f.hello, m2, finiteField);
    NoteCertificates(f1, f.certificate, f.status, m4, finiteField);
    NoteKeyExchange(f, f1.(certificateBytes := f.certificate, certificateStatus := f.status), finiteField);
  }

  // Noting the messages of a flight gives its fields back.
  lemma NoteServerFlight(f: ServerFlight, done: Message, finiteField: FiniteFieldResolver)
    requires PlainFlight(f, finiteField) && done.kind == SERVER_HELLO_DONE
    ensures NoteAll(Blank(), Front(f) + [done], finiteField) ==
      Some(Flight(Some(Meaning(f.hello)), ReadExchange(f, finiteField), f.certificate, f.status, true, None, false))
  {
    NoteFront(f, finiteField);
    NoteAllAppend(Blank(), Front(f), [done], finiteField);
    var read := NoteAll(Blank(), Front(f), finiteField).value;
    assert Note(read, done, finiteField) == Some(read.(hasServerHelloDone := true));
    assert [done][1..] == [];
  }

  lemma FrontHolds(f: ServerFlight, m: Message)
    requires WellFormed(f.hello) && (f.exchange.Some? ==> ExchangeFits(f.exchange.value))
    requires m in Front(f)
    ensures m == Message(SERVER_HELLO, Put(f.hello)) || m in f.others
      || m.kind in {CERTIFICATE, CERTIFICATE_STATUS, SERVER_KEY_EXCHANGE}
  {
  }

  lemma FrontEndsNothing(f: ServerFlight, finiteField: FiniteFieldResolver)
    requires PlainFlight(f, finiteField)
    ensures forall m :: m in Front(f) ==> !Ends(m)
  {
    HelloReadBack(f.hello);
    forall m | m in Front(f) ensures !Ends(m) {
      FrontHolds(f, m);
    }
  }

  // The messages of a flight below TLS 1.3, packed into records.
  ghost predicate Packed(
    f: ServerFlight, done: Message, records: seq<seq<Byte>>, finiteField: FiniteFieldResolver)
  {
    && PlainFlight(f, finiteField) && done.kind == SERVER_HELLO_DONE
    && Carries(records, Front(f), done)
    && OfKind(APPLICATION_DATA, records) == []
  }

  // The last byte of the record that brings the last of the ServerHello.
  function HelloEnd(f: ServerFlight, records: seq<seq<Byte>>): nat
    requires WellFormed(f.hello) && AllFrames(RecordLayer, records)
  {
    |Concat(records[..RecordsFor(records, |Encode(HelloMessage(f))|)])|
  }

  function HelloMessage(f: ServerFlight): Message
    requires WellFormed(f.hello)
  {
    Message(SERVER_HELLO, Put(f.hello))
  }

  lemma FrontOpens(f: ServerFlight)
    requires WellFormed(f.hello) && (f.exchange.Some? ==> ExchangeFits(f.exchange.value))
    ensures Front(f) != [] && Front(f)[0] == HelloMessage(f)
    ensures Front(f)[1..] == Rest(f)
  {
    assert Front(f) == [HelloMessage(f)] + Rest(f);
  }

  // What follows the hello.
  function Rest(f: ServerFlight): seq<Message>
    requires f.exchange.Some? ==> ExchangeFits(f.exchange.value)
  {
    Optional(CERTIFICATE, f.certificate)
    + (Optional(CERTIFICATE_STATUS, f.status)
    + (Optional(SERVER_KEY_EXCHANGE, PutOptional(f.exchange))
    + f.others))
  }

  lemma {:induction false} NoOtherHello(
    flight: Flight, messages: seq<Message>, finiteField: FiniteFieldResolver)
    requires forall m :: m in messages ==> m.kind != SERVER_HELLO
    requires NoteAll(flight, messages, finiteField).Some?
    ensures NoteAll(flight, messages, finiteField).value.serverHello == flight.serverHello
    decreases |messages|
  {
    if messages != [] {
      NoOtherHello(Note(flight, messages[0], finiteField).value, messages[1..], finiteField);
    }
  }

  lemma RestHasNoHello(f: ServerFlight, m: Message, finiteField: FiniteFieldResolver)
    requires PlainFlight(f, finiteField) && m in Rest(f)
    ensures m.kind != SERVER_HELLO
  {
  }

  lemma PartAfterHello(
    f: ServerFlight, done: Message, part: seq<Message>, m: Message, finiteField: FiniteFieldResolver)
    requires PlainFlight(f, finiteField) && done.kind == SERVER_HELLO_DONE
    requires part <= Front(f) + [done] && part != [] && m in part[1..]
    ensures m.kind != SERVER_HELLO
  {
    FrontOpens(f);
    var all := Front(f) + [done];
    var i :| 0 <= i < |part[1..]| && part[1..][i] == m;
    assert m == all[i + 1];
    if i + 1 < |Front(f)| {
      assert m == Front(f)[1..][i];
      RestHasNoHello(f, m, finiteField);
    }
  }

  lemma PartOpens(f: ServerFlight, done: Message, part: seq<Message>)
    requires WellFormed(f.hello) && (f.exchange.Some? ==> ExchangeFits(f.exchange.value))
    requires part <= Front(f) + [done] && part != []
    ensures part[0] == HelloMessage(f)
  {
    FrontOpens(f);
    assert part[0] == (Front(f) + [done])[0];
  }

  lemma NotedHello(around: Flight, f: Fields, finiteField: FiniteFieldResolver)
    requires WellFormed(f)
    ensures Note(around, Message(SERVER_HELLO, Put(f)), finiteField) == Some(around.(serverHello := Some(Meaning(f))))
  {
    HelloReadBack(f);
  }

  lemma PartReads(
    f: ServerFlight, done: Message, part: seq<Message>, around: Flight, finiteField: FiniteFieldResolver)
    requires PlainFlight(f, finiteField) && done.kind == SERVER_HELLO_DONE
    requires part <= Front(f) + [done]
    requires around == Blank().(alert := around.alert, encrypted := around.encrypted)
    ensures NoteAll(around, part, finiteField).Some?
    ensures NoteAll(around, part, finiteField).value.alert == around.alert
  {
    NoteServerFlight(f, done, finiteField);
    NoteAllPrefix(Blank(), Front(f) + [done], part, finiteField);
    NoteAllFrame(Blank(), around, part, finiteField);
    NoteAllKeeps(around, part, finiteField);
  }

  // Any messages off the front of the flight are read, and tell the hello once there is one.
  lemma PartTellsHello(
    f: ServerFlight, done: Message, part: seq<Message>, around: Flight, finiteField: FiniteFieldResolver)
    requires PlainFlight(f, finiteField) && done.kind == SERVER_HELLO_DONE
    requires part <= Front(f) + [done]
    requires around == Blank().(alert := around.alert, encrypted := around.encrypted)
    ensures NoteAll(around, part, finiteField).Some?
    ensures NoteAll(around, part, finiteField).value.alert == around.alert
    ensures NoteAll(around, part, finiteField).value.serverHello
      == if part == [] then None else Some(Meaning(f.hello))
  {
    PartReads(f, done, part, around, finiteField);
    if part != [] {
      PartOpens(f, done, part);
      NotedHello(around, f.hello, finiteField);
      forall m | m in part[1..] ensures m.kind != SERVER_HELLO {
        PartAfterHello(f, done, part, m, finiteField);
      }
      NoOtherHello(Note(around, part[0], finiteField).value, part[1..], finiteField);
    }
  }

  lemma FirstMessageOfCut(first: Message, rest: seq<Byte>, n: nat)
    requires Sendable(first) && n <= |Encode(first)| + |rest|
    ensures Messages((Encode(first) + rest)[..n]) != [] <==> n >= |Encode(first)|
  {
    if n >= |Encode(first)| {
      CutAfter(Encode(first), rest, n);
      MessageFirst(first, rest[..n - |Encode(first)|]);
    } else {
      MessageRoundTrip(first);
      CutInFrame(HandshakeLayer, Encode(first), rest, n);
      MessagesAreFrames((Encode(first) + rest)[..n]);
    }
  }

  lemma FirstMessageArrived(
    f: ServerFlight, done: Message, records: seq<seq<Byte>>, c: nat, finiteField: FiniteFieldResolver)
    requires Packed(f, done, records, finiteField) && c <= |records|
    ensures MessagesIn(records, c) <= Front(f) + [done]
    ensures MessagesIn(records, c) != [] <==> c >= RecordsFor(records, |Encode(HelloMessage(f))|)
  {
    MessagesArrived(records, Front(f), done, c);
    FrontOpens(f);
    assert HelloMessage(f) in Front(f);
    OpeningArrived(records, Front(f), done, c);
  }

  lemma OpeningArrived(records: seq<seq<Byte>>, front: seq<Message>, last: Message, c: nat)
    requires Carries(records, front, last) && c <= |records| && front != []
    ensures MessagesIn(records, c) != [] <==> c >= RecordsFor(records, |Encode(front[0])|)
  {
    var first, rest := front[0], EncodeAll(front[1..]) + Encode(last);
    Associate(Encode(first), EncodeAll(front[1..]), Encode(last));
    HandshakePrefix(records, c);
    assert first in front;
    OpeningSeen(first, rest, HandshakeBytes(records[..c]));
    HandshakeArrived(records, |Encode(first)|, c);
  }

  lemma OpeningSeen(first: Message, rest: seq<Byte>, seen: seq<Byte>)
    requires Sendable(first) && seen <= Encode(first) + rest
    ensures Messages(seen) != [] <==> |seen| >= |Encode(first)|
  {
    FirstMessageOfCut(first, rest, |seen|);
  }

  lemma NoneEncrypted(records: seq<seq<Byte>>, c: nat)
    requires AllFrames(RecordLayer, records) && c <= |records|
    requires OfKind(APPLICATION_DATA, records) == []
    ensures !Around(Blank(), records, c).encrypted
  {
    assert records[..|records|] == records;
    NoneOfKindBefore(APPLICATION_DATA, records, c, |records|);
  }

  // The first alert, where its record has come by the n-th byte.
  function AlertBy(records: seq<seq<Byte>>, n: nat): Option<Alert>
    requires AllFrames(RecordLayer, records)
  {
    if FirstAlert(records).Some? && n >= |Concat(records[..RecordsToAlert(records)])| then FirstAlert(records) else None
  }

  lemma AlertArrivedBy(records: seq<seq<Byte>>, n: nat)
    requires AllFrames(RecordLayer, records)
    ensures Around(Blank(), records, Whole(records, n)).alert == AlertBy(records, n)
  {
    FramesNotEmpty(records);
    AlertArrived(records, Whole(records, n));
    WholeReaches(records, n, RecordsToAlert(records));
  }

  // Where nothing encrypted comes within the handshake, only an alert stops the reading
  // before its end.
  lemma AlertBeforeEnd(records: seq<seq<Byte>>, n: nat)
    requires AllFrames(RecordLayer, records) && Stop(records) <= n < End(records)
    requires OfKind(APPLICATION_DATA, records[..Handshakes(records)]) == []
    ensures AlertBy(records, n) == FirstAlert(records) && FirstAlert(records).Some?
  {
    var c := Whole(records, n);
    AlertArrivedBy(records, n);
    FramesNotEmpty(records);
    WholeReaches(records, n, Handshakes(records));
    WholeReaches(records, n, RecordsToSignal(records));
    SignalArrived(records, c);
    NoneOfKindBefore(APPLICATION_DATA, records, c, Handshakes(records));
  }

  // No alert comes after the last of the handshake, and no encrypted record before it.
  ghost predicate Prompt(records: seq<seq<Byte>>)
    requires AllFrames(RecordLayer, records)
  {
    && (FirstAlert(records).Some? ==> RecordsToAlert(records) <= Handshakes(records))
    && OfKind(APPLICATION_DATA, records[..Handshakes(records)]) == []
  }

  lemma AlertByStop(records: seq<seq<Byte>>, n: nat)
    requires AllFrames(RecordLayer, records) && Prompt(records) && n >= Stop(records)
    ensures Around(Blank(), records, Whole(records, n)).alert == AlertBy(records, n) == FirstAlert(records)
  {
    AlertArrivedBy(records, n);
    if n < End(records) {
      AlertBeforeEnd(records, n);
    } else {
      FramesNotEmpty(records);
      WholeReaches(records, n, Handshakes(records));
      WholeReaches(records, n, RecordsToAlert(records));
    }
  }

  // A whole flight below TLS 1.3, sent in any records with or without alerts among them
  // and received in any reads. It is always read. The hello is in what is read if and
  // only if the read that brings the stopping byte brings the last of the hello, every
  // field that was encoded comes back if and only if it brings the last of them, and the
  // alert is in it if and only if it brings the last of the first alert.
  lemma ServerFlightRoundTrip(
    f: ServerFlight, done: Message, records: seq<seq<Byte>>,
    arrivals: seq<Read>, more: seq<Read>, finiteField: FiniteFieldResolver)
    requires Packed(f, done, records, finiteField) && Brings(arrivals, records)
    ensures ReadsMade([], arrivals + more) == Reaching(arrivals, Stop(records))
    ensures Tells(ReadExchange(f, finiteField), f.exchange, Meaning(f.hello).version)
    ensures var answer, n := Answer(arrivals + more, finiteField), Collected(records, arrivals);
      && answer.Ok?
      && answer.value.alert == AlertBy(records, n)
      && answer.value.serverHello == (if n >= HelloEnd(f, records) then Some(Meaning(f.hello)) else None)
      && (answer.value == Flight(Some(Meaning(f.hello)), ReadExchange(f, finiteField), f.certificate, f.status,
                                 true, AlertBy(records, n), false)
        <==> n >= End(records))
    ensures FirstAlert(records).None? ==> Collected(records, arrivals) >= End(records) >= HelloEnd(f, records)
  {
    var n := Collected(records, arrivals);
    AnswerExactly(records, Front(f), done, arrivals, more, finiteField);
    NoteServerFlight(f, done, finiteField);
    NoteExchange(f, Blank().(serverHello := Some(Meaning(f.hello))), finiteField);
    LoopStops(records, Front(f), done, arrivals, more);
    NoneEncrypted(records, Whole(records, n));
    AlertArrivedBy(records, n);
    HelloByEnd(f, done, records, finiteField);
    AnswerIsCut(records, Front(f), done, arrivals, more, finiteField);
    CutTellsHello(f, done, records, n, finiteField);
    if n < End(records) {
      AlertCuts(f, done, records, n, finiteField);
    }
  }

  lemma AlertCuts(
    f: ServerFlight, done: Message, records: seq<seq<Byte>>, n: nat, finiteField: FiniteFieldResolver)
    requires Packed(f, done, records, finiteField) && Stop(records) <= n < End(records)
    ensures AlertBy(records, n) == FirstAlert(records) && FirstAlert(records).Some?
  {
    assert records[..|records|] == records;
    NoneOfKindBefore(APPLICATION_DATA, records, Handshakes(records), |records|);
    AlertBeforeEnd(records, n);
  }

  lemma HelloByEnd(f: ServerFlight, done: Message, records: seq<seq<Byte>>, finiteField: FiniteFieldResolver)
    requires Packed(f, done, records, finiteField)
    ensures HelloEnd(f, records) <= End(records)
  {
    var c := Handshakes(records);
    MessagesArrived(records, Front(f), done, c);
    FirstMessageArrived(f, done, records, c, finiteField);
    FramesNotEmpty(records);
    WholeReaches(records, End(records), c);
    WholeReaches(records, End(records), RecordsFor(records, |Encode(HelloMessage(f))|));
  }

  lemma CutTellsHello(
    f: ServerFlight, done: Message, records: seq<seq<Byte>>, n: nat, finiteField: FiniteFieldResolver)
    requires Packed(f, done, records, finiteField) && Stop(records) <= n <= |Concat(records)|
    ensures var read := ReadFlight(Concat(records)[..n], finiteField);
      && read.Some?
      && read.value.alert == AlertBy(records, n)
      && read.value.serverHello == (if n >= HelloEnd(f, records) then Some(Meaning(f.hello)) else None)
  {
    var c := Whole(records, n);
    CutFlight(records, n, finiteField);
    AlertArrivedBy(records, n);
    FramesNotEmpty(records);
    WholeReaches(records, n, RecordsFor(records, |Encode(HelloMessage(f))|));
    FirstMessageArrived(f, done, records, c, finiteField);
    PartTellsHello(f, done, MessagesIn(records, c), Around(Blank(), records, c), finiteField);
    if n < End(records) {
      AlertCuts(f, done, records, n, finiteField);
    } else {
      WholeReaches(records, n, Handshakes(records));
      MessagesArrived(records, Front(f), done, c);
    }
  }

  // The read that brings the stopping byte brings the last of the hello.
  predicate HelloCollected(f: ServerFlight, records: seq<seq<Byte>>, arrivals: seq<Read>)
    requires WellFormed(f.hello) && AllFrames(RecordLayer, records)
  {
    Collected(records, arrivals) >= HelloEnd(f, records)
  }

  // Where the hello has not come by the stop, nothing of the flight is found but the
  // alert that stopped the reading.
  lemma HushedFlight(
    f: ServerFlight, done: Message, records: seq<seq<Byte>>,
    arrivals: seq<Read>, more: seq<Read>, finiteField: FiniteFieldResolver)
    requires Packed(f, done, records, finiteField) && Brings(arrivals, records)
    requires !HelloCollected(f, records, arrivals)
    ensures FirstAlert(records).Some?
    ensures Answer(arrivals + more, finiteField) == Ok(Blank().(alert := FirstAlert(records)))
  {
    var n := Collected(records, arrivals);
    ServerFlightRoundTrip(f, done, records, arrivals, more, finiteField);
    LoopStops(records, Front(f), done, arrivals, more);
    AnswerIsCut(records, Front(f), done, arrivals, more, finiteField);
    CutFlight(records, n, finiteField);
    FramesNotEmpty(records);
    WholeReaches(records, n, RecordsFor(records, |Encode(HelloMessage(f))|));
    FirstMessageArrived(f, done, records, Whole(records, n), finiteField);
    NoneEncrypted(records, Whole(records, n));
    AlertArrivedBy(records, n);
    HelloByEnd(f, done, records, finiteField);
    AlertCuts(f, done, records, n, finiteField);
  }

  // Every flight has an input that loses it: the same flight after a warning that comes
  // in a read of its own.
  lemma WarningLosesFlight(
    f: ServerFlight, done: Message, records: seq<seq<Byte>>, version: Word, description: Byte,
    later: seq<Read>, more: seq<Read>, finiteField: FiniteFieldResolver)
    requires Packed(f, done, records, finiteField) && FirstAlert(records).None?
    requires Arrived(later) == Concat(records)
    ensures var warning := Record(ALERT, version, [1, description]);
      && Packed(f, done, [warning] + records, finiteField)
      && Answer([Read(warning, false)] + later + more, finiteField)
        == Ok(Blank().(alert := Some(Alert(1, description))))
  {
    var warning := Record(ALERT, version, [1, description]);
    WarningArrives(f, done, records, warning, later, finiteField);
    HushedFlight(f, done, [warning] + records, [Read(warning, false)] + later, more, finiteField);
  }

  lemma WarningArrives(
    f: ServerFlight, done: Message, records: seq<seq<Byte>>, warning: seq<Byte>, later: seq<Read>,
    finiteField: FiniteFieldResolver)
    requires RecordLayer.IsFrame(warning) && IsAlert(warning)
    requires Packed(f, done, records, finiteField) && FirstAlert(records).None?
    requires Arrived(later) == Concat(records)
    ensures var all, arrivals := [warning] + records, [Read(warning, false)] + later;
      && Packed(f, done, all, finiteField) && Prompt(all)
      && FirstAlert(all) == Some(Alert(Payload(warning)[0], Payload(warning)[1]))
      && Brings(arrivals, all)
      && Collected(all, arrivals) == |warning| < HelloEnd(f, all)
  {
    var arrivals := [Read(warning, false)] + later;
    WarnedCarries(warning, records, Front(f), done);
    var all := [warning] + records;
    assert all[1..] == records && arrivals[1..] == later;
    PrefixCons(all, 0);
    assert all[..1] == [warning] && Concat([warning]) == warning + Concat([warning][1..]);
    assert Stop(all) == |warning|;
    assert Reaching(arrivals, |warning|) == 1;
    assert arrivals[..1] == [Read(warning, false)];
    OneRead(warning);
    HelloBehind(warning, records, f);
    assert all[..|all|] == all;
    NoneOfKindBefore(APPLICATION_DATA, all, Handshakes(all), |all|);
  }

  // An alert after the last of the handshake does not keep the flight from being read, but
  // the reads decide whether it is seen: a flight is taken for a refusal if and only if
  // the read that brings its last byte brings the fatal alert behind it too.
  lemma LateAlertDecides(
    f: ServerFlight, done: Message, records: seq<seq<Byte>>,
    arrivals: seq<Read>, more: seq<Read>, finiteField: FiniteFieldResolver)
    requires Packed(f, done, records, finiteField) && Brings(arrivals, records)
    requires FirstAlert(records).Some? && RecordsToAlert(records) > Handshakes(records)
    ensures var n := Collected(records, arrivals);
      && Answer(arrivals + more, finiteField)
        == Ok(Flight(Some(Meaning(f.hello)), ReadExchange(f, finiteField), f.certificate, f.status,
                     true, AlertBy(records, n), false))
      && (AlertBy(records, n).Some? <==> n >= |Concat(records[..RecordsToAlert(records)])|)
      && (Answer(arrivals + more, finiteField).value.Refused()
        <==> FirstAlert(records).value.Fatal() && n >= |Concat(records[..RecordsToAlert(records)])|)
  {
    ServerFlightRoundTrip(f, done, records, arrivals, more, finiteField);
    LoopStops(records, Front(f), done, arrivals, more);
    OnlyLateAlert(records);
  }

  lemma OnlyLateAlert(records: seq<seq<Byte>>)
    requires AllFrames(RecordLayer, records) && OfKind(APPLICATION_DATA, records) == []
    requires FirstAlert(records).Some? ==> RecordsToAlert(records) > Handshakes(records)
    ensures Stop(records) == End(records)
  {
    var c := RecordsToSignal(records);
    SignalArrived(records, c);
    AlertArrived(records, c);
    assert records[..|records|] == records;
    NoneOfKindBefore(APPLICATION_DATA, records, c, |records|);
  }

  // Both ways, for every flight: a refusal behind it in the same read, and in one of its
  // own.
  lemma RefusalBehindFlight(
    f: ServerFlight, done: Message, records: seq<seq<Byte>>, version: Word, description: Byte,
    more: seq<Read>, finiteField: FiniteFieldResolver)
    requires Packed(f, done, records, finiteField) && FirstAlert(records).None?
    ensures var bytes, refusal := Concat(records), Record(ALERT, version, [2, description]);
      && Answer([Read(bytes + refusal, false)] + more, finiteField).Ok?
      && Answer([Read(bytes + refusal, false)] + more, finiteField).value.Refused()
      && Answer([Read(bytes, false), Read(refusal, false)] + more, finiteField)
        == Ok(Flight(Some(Meaning(f.hello)), ReadExchange(f, finiteField), f.certificate, f.status,
                     true, None, false))
  {
    var bytes, refusal := Concat(records), Record(ALERT, version, [2, description]);
    var all := records + [refusal];
    RefusalAppended(records, refusal, Front(f), done);
    OnlyLateAlert(all);
    StopsInside(all, Front(f), done);
    var once, twice := [Read(bytes + refusal, false)], [Read(bytes, false), Read(refusal, false)];
    OneRead(bytes + refusal);
    OneRead(refusal);
    assert twice[1..] == [Read(refusal, false)] && twice[..1] == [Read(bytes, false)];
    OneRead(bytes);
    assert Reaching(once, Stop(all)) == 1 && once[..1] == once;
    assert Reaching(twice, Stop(all)) == 1;
    LateAlertDecides(f, done, all, once, more, finiteField);
    LateAlertDecides(f, done, all, twice, more, finiteField);
  }

  // What a fatal alert at the end of a flight changes about its records, and what not.
  lemma RefusalAppended(records: seq<seq<Byte>>, refusal: seq<Byte>, front: seq<Message>, last: Message)
    requires RecordLayer.IsFrame(refusal) && IsAlert(refusal)
    requires Carries(records, front, last) && FirstAlert(records).None? && OfKind(APPLICATION_DATA, records) == []
    ensures var all := records + [refusal];
      && Carries(all, front, last) && OfKind(APPLICATION_DATA, all) == []
      && FirstAlert(all) == Some(Alert(Payload(refusal)[0], Payload(refusal)[1]))
      && RecordsToAlert(all) == |all| > Handshakes(all)
      && Concat(all) == Concat(records) + refusal
      && all[..|all|] == all
      && End(all) <= |Concat(records)|
  {
    var all := records + [refusal];
    HandshakeBytesAppend(records, [refusal]);
    assert HandshakeBytes([refusal]) == [] + HandshakeBytes([refusal][1..]);
    OfKindAppend(APPLICATION_DATA, records, [refusal]);
    AlertAtEnd(records, refusal);
    ConcatAppend(records, [refusal]);
    assert Concat([refusal]) == refusal + Concat([refusal][1..]);
    assert all[..|records|] == records;
    HandshakeArrived(all, |HandshakeBytes(all)|, |records|);
    EndsBy(all, |records|);
  }

  lemma EndsBy(records: seq<seq<Byte>>, c: nat)
    requires AllFrames(RecordLayer, records) && Handshakes(records) <= c <= |records|
    ensures End(records) <= |Concat(records[..c])|
  {
    FramesNotEmpty(records);
    WholeReaches(records, |Concat(records[..c])|, c);
    WholeReaches(records, |Concat(records[..c])|, Handshakes(records));
  }

  lemma {:induction false} AlertAtEnd(records: seq<seq<Byte>>, refusal: seq<Byte>)
    requires AllFrames(RecordLayer, records) && RecordLayer.IsFrame(refusal) && IsAlert(refusal)
    requires FirstAlert(records).None?
    ensures AllFrames(RecordLayer, records + [refusal])
    ensures FirstAlert(records + [refusal]) == Some(Alert(Payload(refusal)[0], Payload(refusal)[1]))
    ensures RecordsToAlert(records + [refusal]) == |records| + 1
  {
    if records != [] {
      ConsAppend(records, [refusal]);
      AlertAtEnd(records[1..], refusal);
    }
  }

  lemma OneRead(bytes: seq<Byte>)
    ensures Arrived([Read(bytes, false)]) == bytes
  {
    var rest: seq<Read> := [Read(bytes, false)][1..];
    assert rest == [];
  }

  lemma WarnedCarries(warning: seq<Byte>, records: seq<seq<Byte>>, front: seq<Message>, last: Message)
    requires RecordLayer.IsFrame(warning) && IsAlert(warning)
    requires Carries(records, front, last) && OfKind(APPLICATION_DATA, records) == []
    ensures Carries([warning] + records, front, last) && OfKind(APPLICATION_DATA, [warning] + records) == []
  {
    var all := [warning] + records;
    assert all[1..] == records;
    HandshakeCons(all);
    assert HandshakeBytes([warning]) == [] + HandshakeBytes([warning][1..]);
  }

  lemma HelloBehind(warning: seq<Byte>, records: seq<seq<Byte>>, f: ServerFlight)
    requires RecordLayer.IsFrame(warning) && IsAlert(warning) && AllFrames(RecordLayer, records)
    requires WellFormed(f.hello) && |HandshakeBytes(records)| >= |Encode(HelloMessage(f))|
    ensures HelloEnd(f, [warning] + records) > |warning|
  {
    var all, n := [warning] + records, |Encode(HelloMessage(f))|;
    assert all[1..] == records;
    assert HandshakeBytes([warning]) == [] + HandshakeBytes([warning][1..]);
    var c := RecordsFor(records, n);
    HandshakeArrived(records, n, 0);
    assert RecordsFor(all, n) == 1 + c;
    PrefixCons(all, c);
    assert all[..1 + c][1..] == records[..c];
    assert records[0] != [];
    assert Concat(records[..c]) != [];
  }

  // Which hellos end a flight, in terms of the fields that were sent: those of TLS 1.3, and
  // retry requests, which are told by their random (section 4.1.3 of RFC 8446).
  lemma EndsExactly(f: Fields)
    requires WellFormed(f)
    ensures Ends(Message(2, Put(f))) <==>
      || Meaning(f).version >= 0x0304
      || f.random == [
        0xCF, 0x21, 0xAD, 0x74, 0xE5, 0x9A, 0x61, 0x11, 0xBE, 0x1D, 0x8C, 0x02, 0x1E, 0x65, 0xB8, 0x91,
        0xC2, 0xA2, 0x11, 0x16, 0x7A, 0xBB, 0x8C, 0x5E, 0x07, 0x9E, 0x09, 0xE2, 0xC8, 0xA8, 0x33, 0x9C]
  {
    HelloReadBack(f);
  }
}
