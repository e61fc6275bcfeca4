/**
 Asking a server questions (pkg/tls/probe/probe.go): one handshake at a time, against a
 budget of connections, with retries, keeping a list of what was cut short.

 The server is a parameter: a function from the ordinal of a connection and the bytes
 written to it to what then happens. A run is deterministic once the server is given, so
 a server that remembers earlier connections is one of these functions too. What the
 probes see of it is only the reply read out of those bytes, and that is all the
 specifications below speak of.
 */
module Probing {
  import opened Bytes
  import opened Readers
  import opened Framing
  import opened ServerHellos
  import opened KeyExchanges
  import opened Flights
  import opened ClientHellos
  import opened Suites

  const GROUP_FFDHE2048: Word := 256
  const GROUP_FFDHE3072: Word := 257
  const GROUP_FFDHE4096: Word := 258

  const DEFAULT_SIGNATURE_ALGORITHMS: seq<Word> := [
    0x0403, 0x0503, 0x0603, 0x0804, 0x0805, 0x0806, 0x0401, 0x0501, 0x0601, 0x0203, 0x0201
  ]

  const DEFAULT_SUPPORTED_GROUPS: seq<Word> := [
    GROUP_X25519, GROUP_SECP256R1, GROUP_SECP384R1, GROUP_SECP521R1,
    GROUP_FFDHE2048, GROUP_FFDHE3072, GROUP_FFDHE4096
  ]

  datatype Settings = Settings(concurrency: int, maxConnections: int, retryLimit: int, serverName: seq<Byte>) {
    // How many connections the budget allows.
    function Budget(): nat {
      if maxConnections < 0 then 0 else maxConnections
    }
  }

  // What happens on one connection. A run that has been cancelled is not tried again.
  datatype Connection = Unreachable(cancelled: bool) | Opened(arrivals: seq<Read>)

  // The other end of the wire, and the source of what a hello draws at random.
  datatype Wire = Wire(entropy: nat -> Entropy, server: (nat, seq<Byte>) -> Connection)

  // One connection's answer, and one question's answer after the retries.
  datatype Reply = Lost(retryable: bool) | Heard(flight: Flight)
  datatype Outcome = Exhausted | Failed | Got(flight: Flight)

  datatype Context = Context(settings: Settings, registry: Registry, reply: (nat, ClientHello) -> Reply)

  // What could not be completed, by name, with the reason.
  datatype Phase = Phase(name: string, reason: string)

  // What the probes share: connections asked for, connections granted, phases cut short.
  datatype World = World(spent: nat, granted: nat, incomplete: seq<Phase>) {
    function Noting(name: string, reason: string): World {
      this.(incomplete := incomplete + [Phase(name, reason)])
    }
  }

  // --- The hello every probe starts from ------------------------------------------------

  function BaseHello(serverName: seq<Byte>, version: Word, cipherSuites: seq<Word>): ClientHello {
    var below := version < VERSION_TLS13;
    ClientHello(
      if below then version else VERSION_TLS12,
      None, None, cipherSuites, [], serverName,
      DEFAULT_SUPPORTED_GROUPS, DEFAULT_SIGNATURE_ALGORITHMS,
      if below then [] else [VERSION_TLS13],
      if below then 0 else GROUP_X25519,
      below, below, true, true, false)
  }

  function Asking(ctx: Context, version: Word, cipherSuites: seq<Word>): ClientHello {
    BaseHello(ctx.settings.serverName, version, cipherSuites)
  }

  // --- One handshake ----------------------------------------------------------------------

  function Resolver(registry: Registry): FiniteFieldResolver {
    (id: Word) => registry.FiniteField(id)
  }

  // The reply to a hello: what it is read as, once it has been written and answered. A
  // hello that cannot be marshalled costs its connection and is tried again.
  function ReplyOver(wire: Wire, registry: Registry, n: nat, hello: ClientHello): Reply {
    var marshalled := Marshalled(hello, wire.entropy(n));
    if marshalled.Err? then Lost(true) else
    match wire.server(n, marshalled.value)
    case Unreachable(cancelled) => Lost(!cancelled)
    case Opened(arrivals) =>
      var answer := Answer(arrivals, Resolver(registry));
      if answer.Ok? then Heard(answer.value) else Lost(true)
  }

  function Over(wire: Wire, settings: Settings, registry: Registry): Context {
    Context(settings, registry, (n: nat, hello: ClientHello) => ReplyOver(wire, registry, n, hello))
  }

  // takeConnection: every attempt is counted, and one beyond the budget is refused.
  function Take(ctx: Context, w: World): (bool, World) {
    var ok := w.spent + 1 <= ctx.settings.maxConnections;
    (ok, w.(spent := w.spent + 1, granted := if ok then w.granted + 1 else w.granted))
  }

  // handshakeWithRetry, from the given attempt on.
  function Ask(ctx: Context, w: World, hello: ClientHello, attempt: nat): (Outcome, World)
    decreases ctx.settings.retryLimit - attempt
  {
    if attempt > ctx.settings.retryLimit then (Failed, w) else
    var (ok, w1) := Take(ctx, w);
    if !ok then (Exhausted, w1) else
    match ctx.reply(w1.spent, hello)
    case Heard(flight) => (Got(flight), w1)
    case Lost(retryable) => if retryable then Ask(ctx, w1, hello, attempt + 1) else (Failed, w1)
  }

  // --- What a version probe finds -----------------------------------------------------------

  datatype FiniteField = FiniteField(primeBits: nat, generatorIsTwo: bool)

  datatype Version = Version(
    version: Word,
    attempted: bool,
    accepted: bool,
    alertDescription: Option<Byte>,
    transportError: bool,
    cipherSuites: seq<Word>,
    cipherSuitesComplete: bool,
    selectedGroup: Option<Word>,
    finiteField: Option<FiniteField>,
    signatureAlgorithm: Option<Word>,
    extendedMasterSecret: Option<bool>,
    secureRenegotiation: Option<bool>)

  function Unprobed(version: Word): Version {
    Version(version, true, false, None, false, [], false, None, None, None, None, None)
  }

  // What a single hello settles.
  function WithHello(result: Version, hello: ServerHello, exchange: Option<ServerKeyExchange>): Version {
    if hello.version >= VERSION_TLS13 then
      result.(selectedGroup := if hello.keyShareGroup.Some? then hello.keyShareGroup else result.selectedGroup)
    else
      var r := result.(
        extendedMasterSecret := Some(hello.HasExtension(EXTENDED_MASTER_SECRET)),
        secureRenegotiation := Some(hello.HasExtension(RENEGOTIATION_INFO)));
      if exchange.None? then r else
      var x := exchange.value;
      r.(
        selectedGroup := if x.namedCurve.Some? then x.namedCurve else r.selectedGroup,
        finiteField := if x.primeBits != 0 then Some(FiniteField(x.primeBits, x.generatorIsTwo)) else r.finiteField,
        signatureAlgorithm := if x.signatureAlgorithm.Some? then x.signatureAlgorithm else r.signatureAlgorithm)
  }

  const SUITES_EXHAUSTED := "the connection budget was exhausted before every suite had been offered"
  const SUITES_SILENT := "the server stopped answering before every suite had been offered"
  const SUITES_UNOFFERED := "the server chose a suite it was not offered"
  const VERSIONS_EXHAUSTED := "the connection budget was exhausted"

  function IndexIn(values: seq<Word>, wanted: Word): (index: int)
    ensures -1 <= index < |values|
  {
    if values == [] then -1
    else if values[0] == wanted then 0
    else var later := IndexIn(values[1..], wanted); if later < 0 then -1 else later + 1
  }

  function Remove(values: seq<Word>, index: nat): seq<Word>
    requires index < |values|
  {
    values[..index] + values[index + 1..]
  }

  function Without(values: seq<Word>, id: Word): (rest: seq<Word>)
    ensures |rest| <= |values|
  {
    if values == [] then [] else
    var n := |values| - 1;
    Without(values[..n], id) + (if values[n] != id then [values[n]] else [])
  }

  // How one round ends: the enumeration is over, or the pick stands at an index.
  datatype Round = Ended(complete: bool) | At(index: nat)

  function OneRound(ctx: Context, w: World, version: Word, remaining: seq<Word>): (r: (Round, World))
    ensures r.0.At? ==> r.0.index < |remaining|
  {
    var (outcome, w1) := Ask(ctx, w, Asking(ctx, version, remaining), 0);
    match outcome
    case Exhausted => (Ended(false), w1.Noting("cipher_suites", SUITES_EXHAUSTED))
    case Failed => (Ended(false), w1.Noting("cipher_suites", SUITES_SILENT))
    case Got(flight) =>
      if flight.Refused() || flight.serverHello.None? then (Ended(true), w1) else
      var index := IndexIn(remaining, flight.serverHello.value.cipherSuite);
      if index < 0 then (Ended(false), w1.Noting("cipher_suites", SUITES_UNOFFERED)) else (At(index), w1)
  }

  // The rounds of an enumeration: offer what remains, note the pick, delete it, ask again.
  // The last component is what remained unaccepted when it ended.
  function Rounds(ctx: Context, w: World, version: Word, remaining: seq<Word>, accepted: seq<Word>)
    : (r: (seq<Word>, bool, seq<Word>, World))
    decreases |remaining|
  {
    if remaining == [] then (accepted, true, remaining, w) else
    match OneRound(ctx, w, version, remaining)
    case (Ended(complete), w1) => (accepted, complete, remaining, w1)
    case (At(index), w1) => Rounds(ctx, w1, version, Remove(remaining, index), accepted + [remaining[index]])
  }

  function Enumeration(ctx: Context, w: World, version: Word, firstPick: Word): (seq<Word>, bool, seq<Word>, World) {
    Rounds(ctx, w, version, Without(ctx.registry.ForVersion(version), firstPick), [firstPick])
  }

  function VersionProbe(ctx: Context, w: World, version: Word): (Version, World) {
    var suites := ctx.registry.ForVersion(version);
    if suites == [] then (Unprobed(version).(attempted := false), w) else
    var (outcome, w1) := Ask(ctx, w, Asking(ctx, version, suites), 0);
    match outcome
    case Exhausted => (Unprobed(version).(attempted := false), w1.Noting("versions", VERSIONS_EXHAUSTED))
    case Failed => (Unprobed(version).(transportError := true), w1)
    case Got(flight) =>
      if flight.Refused() then
        (Unprobed(version).(alertDescription := Some(flight.alert.value.description)), w1)
      else if flight.serverHello.None? || flight.serverHello.value.version != version then
        (Unprobed(version), w1)
      else
        var hello := flight.serverHello.value;
        var (accepted, complete, _, w2) := Enumeration(ctx, w1, version, hello.cipherSuite);
        (WithHello(Unprobed(version).(accepted := true), hello, flight.serverKeyExchange)
          .(cipherSuites := accepted, cipherSuitesComplete := complete), w2)
  }

  // --- The prober -----------------------------------------------------------------------------

  // indexOf: the first place a value stands, or -1.
  method IndexOf(values: array<Word>, length: nat, wanted: Word) returns (index: int)
    requires length <= values.Length
    ensures index == IndexIn(values[..length], wanted)
  {
    for i := 0 to length
      invariant forall j :: 0 <= j < i ==> values[j] != wanted
    {
      if values[i] == wanted {
        IndexInFirst(values[..length], wanted, i);
        return i;
      }
    }
    IndexInFirst(values[..length], wanted, length);
    index := -1;
  }

  lemma {:induction false} IndexInFirst(values: seq<Word>, wanted: Word, i: nat)
    requires i <= |values| && forall j :: 0 <= j < i ==> values[j] != wanted
    requires i < |values| ==> values[i] == wanted
    ensures IndexIn(values, wanted) == if i < |values| then i else -1
  {
    if i > 0 {
      IndexInFirst(values[1..], wanted, i - 1);
    }
  }

  // What is left to offer once the first pick is known.
  method Offerable(registry: Registry, version: Word, firstPick: Word)
    returns (remaining: array<Word>, length: nat)
    ensures fresh(remaining) && length <= remaining.Length
    ensures remaining[..length] == Without(registry.ForVersion(version), firstPick)
  {
    var offer := OfferAt(registry, version);
    remaining := new Word[|offer|];
    length := 0;
    for i := 0 to |offer|
      invariant length <= i <= |offer| == remaining.Length
      invariant remaining[..length] == Without(offer[..i], firstPick)
    {
      assert offer[..i + 1][..i] == offer[..i];
      if offer[i] != firstPick {
        remaining[length] := offer[i];
        length := length + 1;
      }
    }
    assert offer[..|offer|] == offer;
  }

  lemma ShiftedIsRemoved(before: seq<Word>, after: seq<Word>, index: nat)
    requires index < |before| == |after| + 1
    requires forall j :: 0 <= j < index ==> after[j] == before[j]
    requires forall j :: index <= j < |after| ==> after[j] == before[j + 1]
    ensures after == Remove(before, index)
  {
  }

  // Deleting from a slice in place: what stands after the index moves down by one.
  method DeleteAt(values: array<Word>, length: nat, index: nat)
    requires index < length <= values.Length
    modifies values
    ensures values[..length - 1] == Remove(old(values[..length]), index)
  {
    for i := index + 1 to length
      invariant forall j :: 0 <= j < index ==> values[j] == old(values[j])
      invariant forall j :: index <= j < i - 1 ==> values[j] == old(values[j + 1])
      invariant forall j :: i <= j < length ==> values[j] == old(values[j])
    {
      values[i - 1] := values[i];
    }
    ShiftedIsRemoved(old(values[..length]), values[..length - 1], index);
  }

  class Prober {
    const wire: Wire
    const settings: Settings
    const registry: Registry
    ghost const ctx: Context
    // Connections asked for, against the budget.
    var spent: nat
    var incomplete: seq<Phase>
    ghost var granted: nat

    ghost function State(): World
      reads this
    {
      World(spent, granted, incomplete)
    }

    // What the specifications see of the wire.
    ghost predicate Valid() {
      ctx == Over(wire, settings, registry)
    }

    constructor (wire: Wire, settings: Settings, registry: Registry)
      ensures Valid() && ctx == Over(wire, settings, registry)
      ensures State() == World(0, 0, [])
    {
      this.wire, this.settings, this.registry := wire, settings, registry;
      ctx := Over(wire, settings, registry);
      spent, incomplete, granted := 0, [], 0;
    }

    method NoteIncomplete(name: string, reason: string)
      modifies this
      ensures State() == old(State()).Noting(name, reason)
    {
      incomplete := incomplete + [Phase(name, reason)];
    }

    method TakeConnection() returns (ok: bool)
      requires Valid()
      modifies this
      ensures (ok, State()) == Take(ctx, old(State()))
    {
      spent := spent + 1;
      ok := spent <= settings.maxConnections;
      if ok {
        granted := granted + 1;
      }
    }

    method Handshake(hello: ClientHello) returns (refused: bool, reply: Reply)
      requires Valid()
      modifies this
      ensures refused == !Take(ctx, old(State())).0
      ensures State() == Take(ctx, old(State())).1
      ensures !refused ==> reply == ctx.reply(spent, hello)
    {
      var ok := TakeConnection();
      if !ok {
        return true, Lost(false);
      }
      refused := false;
      var marshalled := Marshal(hello, wire.entropy(spent));
      if marshalled.Err? {
        return false, Lost(true);
      }
      var connection := wire.server(spent, marshalled.value);
      if connection.Unreachable? {
        return false, Lost(!connection.cancelled);
      }
      var answer := Receive(connection.arrivals, Resolver(registry));
      reply := if answer.Ok? then Heard(answer.value) else Lost(true);
    }

    method HandshakeWithRetry(hello: ClientHello) returns (outcome: Outcome)
      requires Valid()
      modifies this
      ensures (outcome, State()) == Ask(ctx, old(State()), hello, 0)
    {
      var attempt := 0;
      while attempt <= settings.retryLimit
        invariant attempt >= 0
        invariant Ask(ctx, old(State()), hello, 0) == Ask(ctx, State(), hello, attempt)
        decreases settings.retryLimit - attempt
      {
        var refused, reply := Handshake(hello);
        if refused {
          return Exhausted;
        }
        if reply.Heard? {
          return Got(reply.flight);
        }
        if !reply.retryable {
          return Failed;
        }
        attempt := attempt + 1;
      }
      outcome := Failed;
    }

    // enumerate: the unaccepted suites are a slice shrunk in place.
    // One round: offer what is left, and say where the pick stands in it.
    method OfferRound(version: Word, remaining: array<Word>, length: nat) returns (round: Round)
      requires Valid() && 0 < length <= remaining.Length
      modifies this
      ensures (round, State()) == OneRound(ctx, old(State()), version, remaining[..length])
    {
      var outcome := HandshakeWithRetry(BaseHello(settings.serverName, version, remaining[..length]));
      if outcome.Exhausted? {
        NoteIncomplete("cipher_suites", SUITES_EXHAUSTED);
        return Ended(false);
      }
      if outcome.Failed? {
        NoteIncomplete("cipher_suites", SUITES_SILENT);
        return Ended(false);
      }
      var flight := outcome.flight;
      if flight.Refused() || flight.serverHello.None? {
        return Ended(true);
      }
      var index := IndexOf(remaining, length, flight.serverHello.value.cipherSuite);
      if index < 0 {
        NoteIncomplete("cipher_suites", SUITES_UNOFFERED);
        return Ended(false);
      }
      round := At(index);
    }

    method Enumerate(version: Word, firstPick: Word) returns (accepted: seq<Word>, complete: bool)
      requires Valid()
      modifies this
      ensures var (list, whole, _, w) := Enumeration(ctx, old(State()), version, firstPick);
        accepted == list && complete == whole && State() == w
    {
      var remaining, length := Offerable(registry, version, firstPick);
      accepted := [firstPick];
      while length != 0
        invariant fresh(remaining) && 0 <= length <= remaining.Length
        invariant Enumeration(ctx, old(State()), version, firstPick)
          == Rounds(ctx, State(), version, remaining[..length], accepted)
        decreases length
      {
        var round := OfferRound(version, remaining, length);
        if round.Ended? {
          return accepted, round.complete;
        }
        var picked, index := remaining[round.index], round.index;
        DeleteAt(remaining, length, index);
        accepted := accepted + [picked];
        length := length - 1;
      }
      complete := true;
    }

    method ReadServerHello(start: Version, hello: ServerHello, flight: Flight) returns (result: Version)
      ensures result == WithHello(start, hello, flight.serverKeyExchange)
    {
      result := start;
      if hello.version >= VERSION_TLS13 {
        if hello.keyShareGroup.Some? {
          result := result.(selectedGroup := hello.keyShareGroup);
        }
        return;
      }
      result := result.(extendedMasterSecret := Some(hello.HasExtension(EXTENDED_MASTER_SECRET)));
      result := result.(secureRenegotiation := Some(hello.HasExtension(RENEGOTIATION_INFO)));
      if flight.serverKeyExchange.None? {
        return;
      }
      var exchange := flight.serverKeyExchange.value;
      if exchange.namedCurve.Some? {
        result := result.(selectedGroup := exchange.namedCurve);
      }
      if exchange.primeBits != 0 {
        result := result.(finiteField := Some(FiniteField(exchange.primeBits, exchange.generatorIsTwo)));
      }
      if exchange.signatureAlgorithm.Some? {
        result := result.(signatureAlgorithm := exchange.signatureAlgorithm);
      }
    }

    method ProbeVersion(version: Word) returns (result: Version)
      requires Valid()
      modifies this
      ensures (result, State()) == VersionProbe(ctx, old(State()), version)
    {
      result := Unprobed(version);
      var suites := OfferAt(registry, version);
      if |suites| == 0 {
        result := result.(attempted := false);
        return;
      }
      var outcome := HandshakeWithRetry(BaseHello(settings.serverName, version, suites));
      if outcome.Exhausted? {
        result := result.(attempted := false);
        NoteIncomplete("versions", VERSIONS_EXHAUSTED);
        return;
      }
      if outcome.Failed? {
        result := result.(transportError := true);
        return;
      }
      var flight := outcome.flight;
      if flight.Refused() {
        result := result.(alertDescription := Some(flight.alert.value.description));
        return;
      }
      if flight.serverHello.None? {
        return;
      }
      var hello := flight.serverHello.value;
      if hello.version != version {
        return;
      }
      result := result.(accepted := true);
      result := ReadServerHello(result, hello, flight);
      var accepted, complete := Enumerate(version, hello.cipherSuite);
      result := result.(cipherSuites := accepted);
      result := result.(cipherSuitesComplete := complete);
    }
  }
}
