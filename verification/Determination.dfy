/**
 When the inspection of a recorded stream may say that it knows
 (pkg/tls/probe/early_data.go). The results here are about any stream, any secrets and
 anything that was ever sealed: what is needed for an answer to be determined, and
 exactly which streams leave it undetermined, and for which reason.
 */
module Determinations {
  import opened Bytes
  import opened Readers
  import opened Framing
  import opened ServerHellos
  import opened KeyExchanges
  import opened EarlyDatas

  // --- Nonces and headers, section 5.2 and 5.3 of RFC 8446 ------------------------------------

  predicate Bit(n: nat, k: nat) {
    if k == 0 then n % 2 == 1 else Bit(n / 2, k - 1)
  }

  lemma {:induction false} XorBitsAt(a: nat, b: nat, bits: nat, k: nat)
    requires k < bits
    ensures Bit(XorBits(a, b, bits), k) <==> Bit(a, k) != Bit(b, k)
  {
    var c := XorBits(a, b, bits);
    assert c / 2 == XorBits(a / 2, b / 2, bits - 1);
    if k > 0 {
      XorBitsAt(a / 2, b / 2, bits - 1, k - 1);
    }
  }

  // Exclusive or is that of every bit.
  lemma XorAt(a: Byte, b: Byte, k: nat)
    requires k < 8
    ensures Bit(Xor(a, b), k) <==> Bit(a, k) != Bit(b, k)
  {
    XorBitsAt(a, b, 8, k);
  }

  lemma {:induction false} ValuePadded(n: nat, bytes: seq<Byte>)
    ensures Value(Zeros(n) + bytes) == Value(bytes)
  {
    if bytes == [] {
      assert Zeros(n) + bytes == Zeros(n);
      ValueOfZeros(n);
    } else {
      var m := |bytes| - 1;
      assert (Zeros(n) + bytes)[..n + m] == Zeros(n) + bytes[..m];
      ValuePadded(n, bytes[..m]);
    }
  }

  lemma {:induction false} ValueOfZeros(n: nat)
    ensures Value(Zeros(n)) == 0
  {
    if n > 0 {
      assert Zeros(n)[..n - 1] == Zeros(n - 1);
      ValueOfZeros(n - 1);
    }
  }

  lemma {:induction false} XorZero(a: nat, bits: nat)
    requires a < Pow2(bits)
    ensures XorBits(a, 0, bits) == a
  {
    if bits > 0 {
      XorZero(a / 2, bits - 1);
    }
  }

  // The nonce is the iv with the sequence number, as a number of twelve bytes, added in.
  lemma NonceIs(iv: Iv, n: nat)
    requires n < SEQUENCE_LIMIT
    ensures exists number: seq<Byte> ::
      |number| == 12 && Value(number) == n && Nonce(iv, n) == Xored(iv, number)
  {
    var number := Zeros(4) + BigEndian(n, 8);
    EightBytes();
    BigEndianValue(n, 8);
    ValuePadded(4, BigEndian(n, 8));
    SplitAt(iv, 4);
    XoredAppend(iv[..4], Zeros(4), iv[4..], BigEndian(n, 8));
    XoredZeros(iv[..4]);
    assert Nonce(iv, n) == Xored(iv, number);
  }

  lemma XoredAppend(a: seq<Byte>, b: seq<Byte>, c: seq<Byte>, d: seq<Byte>)
    requires |a| == |b| && |c| == |d|
    ensures Xored(a + c, b + d) == Xored(a, b) + Xored(c, d)
  {
  }

  lemma XoredZeros(a: seq<Byte>)
    ensures Xored(a, Zeros(|a|)) == a
  {
    EightBits();
    forall i | 0 <= i < |a| ensures Xor(a[i], 0) == a[i] {
      XorZero(a[i], 8);
    }
  }

  // A record is opened under the key with its five bytes of header as what is
  // authenticated beside the payload.
  lemma SealingIs(keys: Keys, n: nat, record: seq<Byte>)
    requires |record| >= 5
    ensures var sealing := SealingOf(keys, n, record);
      && sealing.key == keys.key && sealing.nonce == Nonce(keys.iv, n)
      && |sealing.header| == 5 && sealing.header + sealing.payload == record
  {
  }

  // --- What one record holds ------------------------------------------------------------------

  // Under these keys and this number the record opens to this content, of this type, with
  // some padding.
  ghost predicate Holds(
    vault: Vault, keys: Keys, number: nat, record: seq<Byte>, content: seq<Byte>, kind: Byte)
    requires |record| >= 5
  {
    && SealingOf(keys, number, record) in vault
    && kind != 0
    && exists padding: nat :: vault[SealingOf(keys, number, record)] == content + [kind] + Zeros(padding)
  }

  ghost predicate HoldsNothing(vault: Vault, keys: Keys, number: nat, record: seq<Byte>)
    requires |record| >= 5
  {
    forall content: seq<Byte>, kind: Byte :: !Holds(vault, keys, number, record, content, kind)
  }

  lemma HoldsIffStrips(vault: Vault, keys: Keys, number: nat, record: seq<Byte>, content: seq<Byte>, kind: Byte)
    requires |record| >= 5
    ensures Holds(vault, keys, number, record, content, kind) <==>
      SealingOf(keys, number, record) in vault
        && Strip(vault[SealingOf(keys, number, record)]) == Some((content, kind))
  {
    if SealingOf(keys, number, record) in vault {
      StripIff(vault[SealingOf(keys, number, record)], content, kind);
    }
  }

  lemma HoldsNothingIff(vault: Vault, keys: Keys, number: nat, record: seq<Byte>)
    requires |record| >= 5
    ensures HoldsNothing(vault, keys, number, record) <==>
      SealingOf(keys, number, record) !in vault || Strip(vault[SealingOf(keys, number, record)]).None?
  {
    forall content: seq<Byte>, kind: Byte ensures Holds(vault, keys, number, record, content, kind) <==>
      SealingOf(keys, number, record) in vault
        && Strip(vault[SealingOf(keys, number, record)]) == Some((content, kind))
    {
      HoldsIffStrips(vault, keys, number, record, content, kind);
    }
    if SealingOf(keys, number, record) in vault && Strip(vault[SealingOf(keys, number, record)]).Some? {
      var (content, kind) := Strip(vault[SealingOf(keys, number, record)]).value;
      assert Holds(vault, keys, number, record, content, kind);
    }
  }

  // --- Records that cannot be opened ------------------------------------------------------------

  // The record is protected and opens under none of the keys that may be due: the
  // application's once they have changed, and before that neither of the two.
  ghost predicate Lost(vault: Vault, secrets: Secrets, walk: Walk, record: seq<Byte>)
    requires |record| >= 5
  {
    && record[0] == 23
    && HoldsNothing(vault, secrets.application, walk.application, record)
    && (!walk.switched ==> HoldsNothing(vault, secrets.handshake, walk.handshake, record))
  }

  // Such a record, and no other, leaves the answer undetermined at once.
  lemma LostStops(vault: Vault, secrets: Secrets, walk: Walk, record: seq<Byte>)
    requires |record| >= 5
    ensures var verdict := OneRecord(vault, secrets, walk, record).0;
      && (Lost(vault, secrets, walk, record) ==>
        verdict == Stop(Undetermined(if walk.switched then LOST else LOST_FIRST)))
      && (verdict.Stop? && verdict.result.Undetermined? ==> Lost(vault, secrets, walk, record))
  {
    HoldsNothingIff(vault, secrets.application, walk.application, record);
    HoldsNothingIff(vault, secrets.handshake, walk.handshake, record);
    forall content: seq<Byte>, now: bool
      ensures var v := ScanMessages(Messages(content), now).0; v.Stop? ==> v.result.Determined?
    {
      ScanDetermines(Messages(content), now);
    }
  }

  lemma {:induction false} ScanDetermines(messages: seq<Message>, switched: bool)
    ensures var v := ScanMessages(messages, switched).0; v.Stop? ==> v.result.Determined?
  {
    if messages != [] {
      ScanDetermines(messages[1..], switched || messages[0].kind == FINISHED);
    }
  }

  // Where the records lead, when none of them answers the question or is lost.
  function Reached(vault: Vault, secrets: Secrets, records: seq<seq<Byte>>, walk: Walk): Option<Walk>
    requires AllFrames(RecordLayer, records)
    decreases |records|
  {
    if records == [] then Some(walk) else
    var (verdict, next) := OneRecord(vault, secrets, walk, records[0]);
    if verdict.Stop? then None else Reached(vault, secrets, records[1..], next)
  }

  lemma {:induction false} InspectionAfter(
    vault: Vault, secrets: Secrets, before: seq<seq<Byte>>, rest: seq<seq<Byte>>, walk: Walk, next: Walk)
    requires AllFrames(RecordLayer, before) && AllFrames(RecordLayer, rest)
    requires Reached(vault, secrets, before, walk) == Some(next)
    ensures AllFrames(RecordLayer, before + rest)
    ensures Inspection(vault, secrets, before + rest, walk).0 == Inspection(vault, secrets, rest, next).0
    decreases |before|
  {
    if before == [] {
      assert before + rest == rest;
    } else {
      var w := OneRecord(vault, secrets, walk, before[0]).1;
      ConsAppend(before, rest);
      InspectionAfter(vault, secrets, before[1..], rest, w, next);
      InspectionStep(vault, secrets, before + rest, walk);
    }
  }

  // The n-th record is reached and lost.
  ghost predicate LostAt(vault: Vault, secrets: Secrets, records: seq<seq<Byte>>, walk: Walk, n: nat)
    requires AllFrames(RecordLayer, records)
  {
    && n < |records|
    && Reached(vault, secrets, records[..n], walk).Some?
    && Lost(vault, secrets, Reached(vault, secrets, records[..n], walk).value, records[n])
  }

  // A lost record leaves the answer undetermined, whatever comes behind it: with one
  // reason before the keys have changed, and with the other after.
  lemma LostIsUndetermined(vault: Vault, secrets: Secrets, records: seq<seq<Byte>>, walk: Walk, n: nat)
    requires AllFrames(RecordLayer, records) && LostAt(vault, secrets, records, walk, n)
    ensures Inspection(vault, secrets, records, walk).0
      == Undetermined(if Reached(vault, secrets, records[..n], walk).value.switched then LOST else LOST_FIRST)
  {
    var next := Reached(vault, secrets, records[..n], walk).value;
    SplitAt(records, n);
    InspectionAfter(vault, secrets, records[..n], records[n..], walk, next);
    InspectionStep(vault, secrets, records[n..], next);
    LostStops(vault, secrets, next, records[n]);
  }

  // The three ways there are: a record is lost; the records are read to the end, and the
  // answer is that nothing is offered, or undetermined where the keys never changed; or a
  // ticket on the way has answered.
  lemma {:induction false} InspectionExactly(
    vault: Vault, secrets: Secrets, records: seq<seq<Byte>>, walk: Walk)
    ensures AllFrames(RecordLayer, records) ==>
      var result := Inspection(vault, secrets, records, walk).0;
      && (result.Undetermined? && result.reason != NO_TICKET ==>
        exists n: nat :: LostAt(vault, secrets, records, walk, n))
      && (Reached(vault, secrets, records, walk).Some? ==>
        result == if Reached(vault, secrets, records, walk).value.switched then Determined(None)
                  else Undetermined(NO_TICKET))
      && (result == Undetermined(NO_TICKET) ==>
        Reached(vault, secrets, records, walk).Some? && !Reached(vault, secrets, records, walk).value.switched)
    decreases |records|
  {
    if records != [] && AllFrames(RecordLayer, records) {
      var (verdict, next) := OneRecord(vault, secrets, walk, records[0]);
      ReasonsDiffer();
      LostStops(vault, secrets, walk, records[0]);
      InspectionStep(vault, secrets, records, walk);
      InspectionExactly(vault, secrets, records[1..], next);
      if verdict.Stop? && verdict.result.Undetermined? {
        assert records[..0] == [];
        assert LostAt(vault, secrets, records, walk, 0);
      } else if verdict.GoOn? && exists n: nat :: LostAt(vault, secrets, records[1..], next, n) {
        var n: nat :| LostAt(vault, secrets, records[1..], next, n);
        assert records[..n + 1][0] == records[0] && records[..n + 1][1..] == records[1..][..n];
        assert LostAt(vault, secrets, records, walk, n + 1);
      }
    }
  }

  lemma ReasonsDiffer()
    ensures NO_TICKET != LOST && NO_TICKET != LOST_FIRST && LOST != LOST_FIRST
    ensures NO_SECRETS != NO_TICKET && NO_SECRETS != LOST && NO_SECRETS != LOST_FIRST && NO_SECRETS != NO_CIPHER
    ensures NO_CIPHER != NO_TICKET && NO_CIPHER != LOST && NO_CIPHER != LOST_FIRST
  {
    assert |NO_SECRETS| == 51 && |NO_CIPHER| == 66 && |LOST| == 49;
    assert |LOST_FIRST| == 57 && |NO_TICKET| == 49;
  }

  // --- From the bytes ---------------------------------------------------------------------------

  // Without either secret, or without keys for either epoch, the answer is undetermined and
  // says so, and it says so for no other stream.
  lemma NoKeysUndetermined(
    stream: seq<Byte>, handshake: Option<seq<Byte>>, application: Option<seq<Byte>>, cipherSuite: Word,
    derive: Derivation, vault: Vault)
    ensures var result := Inspect(stream, handshake, application, cipherSuite, derive, vault);
      && (result == Undetermined(NO_SECRETS) <==> handshake.None? || application.None?)
      && (result == Undetermined(NO_CIPHER) <==>
        && handshake.Some? && application.Some?
        && (derive(cipherSuite, handshake.value).None? || derive(cipherSuite, application.value).None?))
  {
    ReasonsDiffer();
    if handshake.Some? && application.Some?
      && derive(cipherSuite, handshake.value).Some? && derive(cipherSuite, application.value).Some?
    {
      var secrets := Secrets(derive(cipherSuite, handshake.value).value, derive(cipherSuite, application.value).value);
      FramesConserve(RecordLayer, stream);
      InspectionReasons(vault, secrets, Frames(RecordLayer, stream), Walk(false, 0, 0));
    }
  }

  lemma {:induction false} InspectionReasons(
    vault: Vault, secrets: Secrets, records: seq<seq<Byte>>, walk: Walk)
    requires AllFrames(RecordLayer, records)
    ensures var result := Inspection(vault, secrets, records, walk).0;
      result.Undetermined? ==> result.reason in {LOST, LOST_FIRST, NO_TICKET}
    decreases |records|
  {
    if records != [] {
      LostStops(vault, secrets, walk, records[0]);
      InspectionStep(vault, secrets, records, walk);
      InspectionReasons(vault, secrets, records[1..], OneRecord(vault, secrets, walk, records[0]).1);
    }
  }

  // What shows that the keys changed, or makes that unnecessary to know: a record that
  // opens under the application keys, or one of the handshake epoch with a Finished in it,
  // or with a ticket that says something about early data.
  ghost predicate Shows(vault: Vault, secrets: Secrets, record: seq<Byte>)
    requires |record| >= 5
  {
    && record[0] == 23
    && (OpensLater(vault, secrets, record) || OpensTelling(vault, secrets, record))
  }

  ghost predicate OpensLater(vault: Vault, secrets: Secrets, record: seq<Byte>)
    requires |record| >= 5
  {
    exists n: nat, content: seq<Byte>, kind: Byte :: Holds(vault, secrets.application, n, record, content, kind)
  }

  ghost predicate OpensTelling(vault: Vault, secrets: Secrets, record: seq<Byte>)
    requires |record| >= 5
  {
    exists n: nat, content: seq<Byte> ::
      Holds(vault, secrets.handshake, n, record, content, 22) && exists m :: m in Messages(content) && Telling(m)
  }

  // A Finished, or a ticket that says something about early data.
  predicate Telling(m: Message) {
    m.kind == 20 || (m.kind == 4 && SizeInTicket(m.body).Some?)
  }

  lemma {:induction false} ScanShows(messages: seq<Message>)
    ensures var (verdict, now) := ScanMessages(messages, false);
      verdict.Stop? || now ==>
        exists m :: m in messages && Telling(m)
  {
    if messages != [] {
      ScanShows(messages[1..]);
      assert messages[0] in messages;
      if m :| m in messages[1..] && Telling(m) {
        assert m in messages;
      }
    }
  }

  // A record that answers the question, or after which the keys have changed, shows it.
  lemma RecordShows(vault: Vault, secrets: Secrets, walk: Walk, record: seq<Byte>)
    requires |record| >= 5 && !walk.switched
    requires var (verdict, next) := OneRecord(vault, secrets, walk, record);
      (verdict.Stop? && verdict.result.Determined?) || (verdict.GoOn? && next.switched)
    ensures Shows(vault, secrets, record)
  {
    var h := SealingOf(secrets.handshake, walk.handshake, record);
    if h in vault && Strip(vault[h]).Some? {
      var (content, kind) := Strip(vault[h]).value;
      HoldsIffStrips(vault, secrets.handshake, walk.handshake, record, content, kind);
      ScanShows(Messages(content));
    } else {
      var a := SealingOf(secrets.application, walk.application, record);
      var (content, kind) := Strip(vault[a]).value;
      HoldsIffStrips(vault, secrets.application, walk.application, record, content, kind);
    }
  }

  lemma {:induction false} InspectionShows(
    vault: Vault, secrets: Secrets, records: seq<seq<Byte>>, walk: Walk)
    requires AllFrames(RecordLayer, records) && !walk.switched
    requires Inspection(vault, secrets, records, walk).0.Determined?
    ensures exists record :: record in records && |record| >= 5 && Shows(vault, secrets, record)
    decreases |records|
  {
    if records != [] {
      var (verdict, next) := OneRecord(vault, secrets, walk, records[0]);
      InspectionStep(vault, secrets, records, walk);
      if verdict.GoOn? && !next.switched {
        InspectionShows(vault, secrets, records[1..], next);
        var record :| record in records[1..] && |record| >= 5 && Shows(vault, secrets, record);
        assert record in records;
      } else {
        RecordShows(vault, secrets, walk, records[0]);
      }
    }
  }

  // An answer that is determined had both secrets and both key sets, and a record that
  // shows the keys changed or a ticket read before they did.
  lemma DeterminedMeans(
    stream: seq<Byte>, handshake: Option<seq<Byte>>, application: Option<seq<Byte>>, cipherSuite: Word,
    derive: Derivation, vault: Vault)
    requires Inspect(stream, handshake, application, cipherSuite, derive, vault).Determined?
    ensures handshake.Some? && application.Some?
    ensures derive(cipherSuite, handshake.value).Some? && derive(cipherSuite, application.value).Some?
    ensures var secrets := Secrets(derive(cipherSuite, handshake.value).value,
                                   derive(cipherSuite, application.value).value);
      exists record :: record in Frames(RecordLayer, stream) && |record| >= 5 && Shows(vault, secrets, record)
  {
    var secrets := Secrets(derive(cipherSuite, handshake.value).value, derive(cipherSuite, application.value).value);
    FramesConserve(RecordLayer, stream);
    InspectionShows(vault, secrets, Frames(RecordLayer, stream), Walk(false, 0, 0));
  }

  // The last of the three happens: a ticket sealed in the handshake epoch is believed, with
  // no Finished and nothing of the application epoch to be seen.
  lemma TicketBeforeFinished(
    t: Ticket, record: seq<Byte>, padding: nat, handshake: seq<Byte>, application: seq<Byte>, cipherSuite: Word,
    derive: Derivation, secrets: Secrets)
    requires TicketFits(t) && Offered(t.extensions).Some?
    requires RecordLayer.IsFrame(record) && record[0] == APPLICATION_DATA
    requires derive(cipherSuite, handshake) == Some(secrets.handshake)
    requires derive(cipherSuite, application) == Some(secrets.application)
    ensures var item := Carrying(record, Message(NEW_SESSION_TICKET, PutTicket(t)), padding);
      && AllLegal([item])
      && Inspect(record, Some(handshake), Some(application), cipherSuite, derive,
                 SealAll(secrets.handshake, [item], 0))
        == Determined(if Offered(t.extensions) == Some(0) then None else Offered(t.extensions))
  {
    var item := Carrying(record, Message(NEW_SESSION_TICKET, PutTicket(t)), padding);
    TicketShows(record, t, padding);
    OneOffer(secrets, item, Offered(t.extensions).value);
    OneFrame(record);
  }

  lemma OneOffer(secrets: Secrets, item: Item, size: nat)
    requires item.Legal() && item.Protected? && OfferIn(item.Visible()) == Some(size)
    ensures AllLegal([item]) && AllFrames(RecordLayer, [item.record])
    ensures Inspection(SealAll(secrets.handshake, [item], 0), secrets, [item.record], Walk(false, 0, 0)).0
      == Verdicts(size)
  {
    var vault := SealAll(secrets.handshake, [item], 0);
    SealedOpens(vault, secrets.handshake, [item], 0);
    ReadSealed(vault, secrets, Walk(false, 0, 0), [item]);
    InspectionStep(vault, secrets, [item.record], Walk(false, 0, 0));
  }

  lemma OneFrame(record: seq<Byte>)
    requires RecordLayer.IsFrame(record)
    ensures Frames(RecordLayer, record) == [record] && AllFrames(RecordLayer, [record])
  {
    assert [record][1..] == [];
    assert Concat([record]) + [] == record;
    FramesUnique(RecordLayer, [record], []);
  }

  // --- A foreign record in an honest stream ------------------------------------------------------

  lemma {:induction false} ReachedAfter(
    vault: Vault, secrets: Secrets, before: seq<seq<Byte>>, rest: seq<seq<Byte>>, walk: Walk, next: Walk)
    requires AllFrames(RecordLayer, before) && AllFrames(RecordLayer, rest)
    requires Reached(vault, secrets, before, walk) == Some(next)
    ensures AllFrames(RecordLayer, before + rest)
    ensures Reached(vault, secrets, before + rest, walk) == Reached(vault, secrets, rest, next)
    decreases |before|
  {
    if before == [] {
      assert before + rest == rest;
    } else {
      ConsAppend(before, rest);
      ReachedAfter(vault, secrets, before[1..], rest, OneRecord(vault, secrets, walk, before[0]).1, next);
    }
  }

  lemma {:induction false} QuietReached(vault: Vault, secrets: Secrets, items: seq<Item>, n: nat)
    requires AllLegal(items) && Quiet(items)
    requires Opens(vault, secrets.handshake, items, n) && n + |items| < SEQUENCE_LIMIT
    ensures Reached(vault, secrets, RecordsOf(items), Walk(false, n, 0)) == Some(Walk(false, n + Sealed(items), 0))
    decreases |items|
  {
    if items != [] {
      QuietRecord(vault, secrets, items, n);
      assert RecordsOf(items)[1..] == RecordsOf(items[1..]);
      QuietReached(vault, secrets, items[1..], NumberAfter(items[0], n));
    }
  }

  lemma {:induction false} ApplicationReached(vault: Vault, secrets: Secrets, items: seq<Item>, h: nat, n: nat)
    requires AllLegal(items) && FirstOffer(items).None?
    requires Opens(vault, secrets.application, items, n) && n + |items| < SEQUENCE_LIMIT
    ensures Reached(vault, secrets, RecordsOf(items), Walk(true, h, n)) == Some(Walk(true, h, n + Sealed(items)))
    decreases |items|
  {
    if items != [] {
      if items[0].Protected? {
        ReadSealed(vault, secrets, Walk(true, h, n), items);
      }
      assert RecordsOf(items)[1..] == RecordsOf(items[1..]);
      ApplicationReached(vault, secrets, items[1..], h, NumberAfter(items[0], n));
    }
  }

  lemma {:induction false} UnannouncedReached(vault: Vault, secrets: Secrets, items: seq<Item>, h: nat)
    requires AllLegal(items) && FirstOffer(items).None?
    requires Opens(vault, secrets.application, items, 0) && |items| < SEQUENCE_LIMIT
    requires forall i :: 0 <= i < |items| ==> SealingOf(secrets.handshake, h, items[i].record) !in vault
    ensures Reached(vault, secrets, RecordsOf(items), Walk(false, h, 0))
      == Some(if Sealed(items) == 0 then Walk(false, h, 0) else Walk(true, h, Sealed(items)))
    decreases |items|
  {
    if items != [] {
      assert RecordsOf(items)[1..] == RecordsOf(items[1..]);
      if items[0].Clear? {
        UnannouncedReached(vault, secrets, items[1..], h);
      } else {
        UnannouncedRecord(vault, secrets, items, h);
        ApplicationReached(vault, secrets, items, h, 0);
      }
    }
  }

  // Where an honest server's stream without an offer leads.
  function EndOf(s: Stream): Walk {
    Walk(s.finisher != [] || Sealed(s.application) > 0, Sealed(s.quiet + s.finisher), Sealed(s.application))
  }

  lemma ReachedCons(
    vault: Vault, secrets: Secrets, first: seq<Byte>, rest: seq<seq<Byte>>, walk: Walk, next: Walk)
    requires RecordLayer.IsFrame(first) && AllFrames(RecordLayer, rest)
    requires OneRecord(vault, secrets, walk, first) == (GoOn, next)
    ensures AllFrames(RecordLayer, [first] + rest)
    ensures Reached(vault, secrets, [first] + rest, walk) == Reached(vault, secrets, rest, next)
  {
    assert ([first] + rest)[1..] == rest;
  }

  lemma FinisherReached(vault: Vault, secrets: Secrets, finisher: seq<Item>, items: seq<Item>, n: nat)
    requires AllLegal(finisher) && AllLegal(items) && |finisher| == 1 && EndsHandshake(finisher[0])
    requires n + 1 < SEQUENCE_LIMIT && |items| < SEQUENCE_LIMIT && FirstOffer(items).None?
    requires Opens(vault, secrets.handshake, finisher, n) && Opens(vault, secrets.application, items, 0)
    ensures Reached(vault, secrets, RecordsOf(finisher) + RecordsOf(items), Walk(false, n, 0))
      == Some(Walk(true, n + 1, Sealed(items)))
  {
    FinisherEnds(vault, secrets, finisher, n);
    assert RecordsOf(finisher) == [finisher[0].record];
    ReachedCons(vault, secrets, finisher[0].record, RecordsOf(items), Walk(false, n, 0), Walk(true, n + 1, 0));
    ApplicationReached(vault, secrets, items, n + 1, 0);
  }

  lemma AnnouncedReached(secrets: Secrets, s: Stream)
    requires s.Honest() && FirstOffer(s.application).None? && secrets.handshake.key != secrets.application.key
    requires s.finisher != []
    ensures Reached(s.Vault(secrets), secrets, RecordsOf(s.finisher) + RecordsOf(s.application),
                    Walk(false, Sealed(s.quiet), 0))
      == Some(EndOf(s))
  {
    HonestOpens(secrets, s);
    AnnouncedIn(s.Vault(secrets), secrets, s);
  }

  lemma AnnouncedIn(vault: Vault, secrets: Secrets, s: Stream)
    requires s.Honest() && FirstOffer(s.application).None? && s.finisher != []
    requires Opens(vault, secrets.handshake, s.finisher, Sealed(s.quiet))
    requires Opens(vault, secrets.application, s.application, 0)
    ensures Reached(vault, secrets, RecordsOf(s.finisher) + RecordsOf(s.application), Walk(false, Sealed(s.quiet), 0))
      == Some(EndOf(s))
  {
    FinisherCounts(s);
    FinisherReached(vault, secrets, s.finisher, s.application, Sealed(s.quiet));
  }

  lemma FinisherCounts(s: Stream)
    requires s.Honest() && s.finisher != []
    ensures EndOf(s) == Walk(true, Sealed(s.quiet) + 1, Sealed(s.application))
    ensures Sealed(s.quiet) + 1 < SEQUENCE_LIMIT
  {
    SealedAppend(s.quiet, s.finisher);
    assert s.finisher[1..] == [];
  }

  lemma SilentReached(secrets: Secrets, s: Stream)
    requires s.Honest() && FirstOffer(s.application).None? && secrets.handshake.key != secrets.application.key
    requires s.finisher == []
    ensures Reached(s.Vault(secrets), secrets, RecordsOf(s.finisher) + RecordsOf(s.application),
                    Walk(false, Sealed(s.quiet), 0))
      == Some(EndOf(s))
  {
    HonestOpens(secrets, s);
    VaultHolds(secrets, s);
    assert s.quiet + s.finisher == s.quiet;
    assert RecordsOf(s.finisher) + RecordsOf(s.application) == RecordsOf(s.application);
    UnannouncedReached(s.Vault(secrets), secrets, s.application, Sealed(s.quiet));
  }

  lemma AfterHandshakeReached(secrets: Secrets, s: Stream)
    requires s.Honest() && FirstOffer(s.application).None? && secrets.handshake.key != secrets.application.key
    ensures AllFrames(RecordLayer, RecordsOf(s.finisher) + RecordsOf(s.application))
    ensures Reached(s.Vault(secrets), secrets, RecordsOf(s.finisher) + RecordsOf(s.application),
                    Walk(false, Sealed(s.quiet), 0))
      == Some(EndOf(s))
  {
    if s.finisher == [] {
      SilentReached(secrets, s);
    } else {
      AnnouncedReached(secrets, s);
    }
  }

  lemma QuietThenReached(
    vault: Vault, secrets: Secrets, quiet: seq<Item>, rest: seq<seq<Byte>>, end: Walk)
    requires AllLegal(quiet) && Quiet(quiet) && AllFrames(RecordLayer, rest)
    requires Opens(vault, secrets.handshake, quiet, 0) && |quiet| < SEQUENCE_LIMIT
    requires Reached(vault, secrets, rest, Walk(false, Sealed(quiet), 0)) == Some(end)
    ensures AllFrames(RecordLayer, RecordsOf(quiet) + rest)
    ensures Reached(vault, secrets, RecordsOf(quiet) + rest, Walk(false, 0, 0)) == Some(end)
  {
    QuietReached(vault, secrets, quiet, 0);
    ReachedAfter(vault, secrets, RecordsOf(quiet), rest, Walk(false, 0, 0), Walk(false, Sealed(quiet), 0));
  }

  lemma QuietOpens(secrets: Secrets, s: Stream)
    requires s.Honest() && secrets.handshake.key != secrets.application.key
    ensures Opens(s.Vault(secrets), secrets.handshake, s.quiet, 0)
  {
    HonestOpens(secrets, s);
  }

  lemma StreamReached(secrets: Secrets, s: Stream)
    requires s.Honest() && FirstOffer(s.application).None? && secrets.handshake.key != secrets.application.key
    ensures AllFrames(RecordLayer, RecordsOf(s.Items()))
    ensures Reached(s.Vault(secrets), secrets, RecordsOf(s.Items()), Walk(false, 0, 0)) == Some(EndOf(s))
  {
    QuietOpens(secrets, s);
    StreamRecords(s);
    AfterHandshakeReached(secrets, s);
    QuietThenReached(s.Vault(secrets), secrets, s.quiet, RecordsOf(s.finisher) + RecordsOf(s.application), EndOf(s));
  }

  // A protected record that was sealed under neither key set, anywhere behind an honest
  // stream that offered nothing, leaves the answer undetermined: as the first after the
  // keys were to change, where no change was seen, and as a later one, where it was.
  lemma ForeignRecordUndetermined(
    s: Stream, foreign: seq<Byte>, more: seq<seq<Byte>>, tail: seq<Byte>, handshake: seq<Byte>,
    application: seq<Byte>, cipherSuite: Word, derive: Derivation, secrets: Secrets)
    requires s.Honest() && FirstOffer(s.application).None? && !RecordLayer.Ready(tail)
    requires derive(cipherSuite, handshake) == Some(secrets.handshake)
    requires derive(cipherSuite, application) == Some(secrets.application)
    requires secrets.handshake.key != secrets.application.key
    requires RecordLayer.IsFrame(foreign) && foreign[0] == 23 && AllFrames(RecordLayer, more)
    requires forall sealing :: sealing in s.Vault(secrets) ==> sealing.header + sealing.payload != foreign
    ensures Inspect(Concat(RecordsOf(s.Items()) + ([foreign] + more)) + tail, Some(handshake), Some(application),
                    cipherSuite, derive, s.Vault(secrets))
      == Undetermined(
        if s.finisher != [] || Sealed(s.application) > 0 then "a record could not be opened after the key change"
        else "the first record after the key change could not be opened")
  {
    var vault, records := s.Vault(secrets), RecordsOf(s.Items());
    var all := records + ([foreign] + more);
    StreamReached(secrets, s);
    ForeignIsLost(vault, secrets, EndOf(s), foreign);
    LostBehind(vault, secrets, records, foreign, more, EndOf(s));
    FramesUnique(RecordLayer, all, tail);
  }

  lemma LostBehind(
    vault: Vault, secrets: Secrets, records: seq<seq<Byte>>, lost: seq<Byte>, more: seq<seq<Byte>>, walk: Walk)
    requires AllFrames(RecordLayer, records) && RecordLayer.IsFrame(lost) && AllFrames(RecordLayer, more)
    requires Reached(vault, secrets, records, Walk(false, 0, 0)) == Some(walk) && Lost(vault, secrets, walk, lost)
    ensures var all := records + ([lost] + more);
      && AllFrames(RecordLayer, all)
      && Inspection(vault, secrets, all, Walk(false, 0, 0)).0
        == Undetermined(if walk.switched then LOST else LOST_FIRST)
  {
    var all := records + ([lost] + more);
    assert all[..|records|] == records && all[|records|] == lost;
    assert LostAt(vault, secrets, all, Walk(false, 0, 0), |records|);
    LostIsUndetermined(vault, secrets, all, Walk(false, 0, 0), |records|);
  }

  lemma ForeignIsLost(vault: Vault, secrets: Secrets, walk: Walk, foreign: seq<Byte>)
    requires |foreign| >= 5 && foreign[0] == 23
    requires forall sealing :: sealing in vault ==> sealing.header + sealing.payload != foreign
    ensures Lost(vault, secrets, walk, foreign)
  {
    SealingIs(secrets.application, walk.application, foreign);
    SealingIs(secrets.handshake, walk.handshake, foreign);
  }
}
