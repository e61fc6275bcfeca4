/**
 Which connections are tried again (handshake and handshakeWithRetry in
 pkg/tls/probe/probe.go), in terms of what happens on them: one that could not be made, or
 that brought nothing that can be read, is; one that was cancelled is not.
 */
module Retries {
  import opened Bytes
  import opened Framing
  import opened ServerHellos
  import opened Flights
  import Answers
  import opened ClientHellos
  import opened Suites
  import opened Probing
  import opened Enumerations

  // The connection could not be made, or nothing that came of it can be read.
  ghost predicate Stalls(connection: Connection, finiteField: FiniteFieldResolver) {
    match connection
    case Unreachable(cancelled) => !cancelled
    case Opened(arrivals) => Answer(arrivals, finiteField).Err?
  }

  // A connection that is closed, or brings less than one record, is such a connection.
  lemma SilenceStalls(arrivals: seq<Read>, finiteField: FiniteFieldResolver)
    requires !RecordLayer.Ready(Arrived(arrivals))
    ensures Stalls(Opened(arrivals), finiteField)
  {
    var made := ReadsMade([], arrivals);
    var stream := Arrived(arrivals[..made]);
    Answers.ArrivedPrefix(arrivals, made);
    assert stream == Arrived(arrivals)[..|stream|];
    assert Frames(RecordLayer, stream) == [];
  }

  // The hello goes out on the n-th connection, and this is what happens on it.
  ghost predicate Meets(wire: Wire, n: nat, hello: ClientHello, connection: Connection) {
    Marshalled(hello, wire.entropy(n)).Ok? && wire.server(n, Marshalled(hello, wire.entropy(n)).value) == connection
  }

  // So many connections from the next on stall.
  ghost predicate Stalling(wire: Wire, finiteField: FiniteFieldResolver, w: World, hello: ClientHello, k: nat) {
    forall n :: w.spent < n <= w.spent + k ==> StallsAt(wire, finiteField, n, hello)
  }

  ghost predicate StallsAt(wire: Wire, finiteField: FiniteFieldResolver, n: nat, hello: ClientHello) {
    exists connection :: Meets(wire, n, hello, connection) && Stalls(connection, finiteField)
  }

  // Which replies are tried again, by what happens on the connection.
  lemma ReplyMeets(wire: Wire, ctx: Context, n: nat, hello: ClientHello, connection: Connection)
    requires ctx == Over(wire, ctx.settings, ctx.registry) && Meets(wire, n, hello, connection)
    ensures Stalls(connection, Resolver(ctx.registry)) ==> ctx.reply(n, hello) == Lost(true)
    ensures connection == Unreachable(true) ==> ctx.reply(n, hello) == Lost(false)
    ensures connection.Opened? && Answer(connection.arrivals, Resolver(ctx.registry)).Ok? ==>
      ctx.reply(n, hello) == Heard(Answer(connection.arrivals, Resolver(ctx.registry)).value)
  {
    assert ctx.reply(n, hello) == ReplyOver(wire, ctx.registry, n, hello);
  }

  lemma ReplyAnswered(wire: Wire, ctx: Context, n: nat, hello: ClientHello, arrivals: seq<Read>, flight: Flight)
    requires ctx == Over(wire, ctx.settings, ctx.registry) && Meets(wire, n, hello, Opened(arrivals))
    requires Answer(arrivals, Resolver(ctx.registry)) == Ok(flight)
    ensures ctx.reply(n, hello) == Heard(flight)
  {
    ReplyMeets(wire, ctx, n, hello, Opened(arrivals));
  }

  ghost predicate LostNext(ctx: Context, w: World, hello: ClientHello, k: nat) {
    forall n :: w.spent < n <= w.spent + k ==> ctx.reply(n, hello) == Lost(true)
  }

  // Each that is tried again costs its connection and an attempt.
  lemma {:induction false} AfterLost(ctx: Context, w: World, hello: ClientHello, attempt: nat, k: nat)
    requires attempt + k <= ctx.settings.retryLimit + 1 && w.spent + k <= ctx.settings.Budget()
    requires LostNext(ctx, w, hello, k)
    ensures Ask(ctx, w, hello, attempt) == Ask(ctx, Spent(w, k), hello, attempt + k)
    decreases k
  {
    if k > 0 {
      assert ctx.reply(w.spent + 1, hello) == Lost(true);
      AfterLost(ctx, Spent(w, 1), hello, attempt + 1, k - 1);
    }
  }

  // Lost so many times and then not: the first reply that is not tried again decides.
  lemma EndsAfterLost(ctx: Context, w: World, hello: ClientHello, k: nat)
    requires k <= ctx.settings.retryLimit && w.spent + k + 1 <= ctx.settings.maxConnections
    requires LostNext(ctx, w, hello, k)
    requires ctx.reply(w.spent + k + 1, hello) != Lost(true)
    ensures Ask(ctx, w, hello, 0)
      == (match ctx.reply(w.spent + k + 1, hello)
          case Heard(flight) => (Got(flight), Spent(w, k + 1))
          case Lost(_) => (Failed, Spent(w, k + 1)))
  {
    AfterLost(ctx, w, hello, 0, k);
    assert Take(ctx, Spent(w, k)) == (true, Spent(w, k + 1));
  }

  lemma AnswersAfterLost(ctx: Context, w: World, hello: ClientHello, k: nat, flight: Flight)
    requires k <= ctx.settings.retryLimit && w.spent + k + 1 <= ctx.settings.maxConnections
    requires LostNext(ctx, w, hello, k)
    requires ctx.reply(w.spent + k + 1, hello) == Heard(flight)
    ensures Ask(ctx, w, hello, 0) == (Got(flight), Spent(w, k + 1))
  {
    EndsAfterLost(ctx, w, hello, k);
  }

  lemma StallsAreLost(wire: Wire, ctx: Context, w: World, hello: ClientHello, k: nat)
    requires ctx == Over(wire, ctx.settings, ctx.registry)
    requires Stalling(wire, Resolver(ctx.registry), w, hello, k)
    ensures LostNext(ctx, w, hello, k)
  {
    forall n | w.spent < n <= w.spent + k ensures ctx.reply(n, hello) == Lost(true) {
      assert StallsAt(wire, Resolver(ctx.registry), n, hello);
      var connection :| Meets(wire, n, hello, connection) && Stalls(connection, Resolver(ctx.registry));
      ReplyMeets(wire, ctx, n, hello, connection);
    }
  }

  // The first that answers is the answer, for one connection more than stalled before it.
  lemma RetriedUntilAnswered(
    wire: Wire, ctx: Context, w: World, hello: ClientHello, k: nat, arrivals: seq<Read>, flight: Flight)
    requires ctx == Over(wire, ctx.settings, ctx.registry)
    requires k <= ctx.settings.retryLimit && w.spent + k + 1 <= ctx.settings.maxConnections
    requires Stalling(wire, Resolver(ctx.registry), w, hello, k)
    requires Meets(wire, w.spent + k + 1, hello, Opened(arrivals))
    requires Answer(arrivals, Resolver(ctx.registry)) == Ok(flight)
    ensures Ask(ctx, w, hello, 0) == (Got(flight), Spent(w, k + 1))
  {
    ReplyAnswered(wire, ctx, w.spent + k + 1, hello, arrivals, flight);
    AnswersAfterStalls(wire, ctx, w, hello, k, flight);
  }

  lemma AnswersAfterStalls(wire: Wire, ctx: Context, w: World, hello: ClientHello, k: nat, flight: Flight)
    requires ctx == Over(wire, ctx.settings, ctx.registry)
    requires k <= ctx.settings.retryLimit && w.spent + k + 1 <= ctx.settings.maxConnections
    requires Stalling(wire, Resolver(ctx.registry), w, hello, k)
    requires ctx.reply(w.spent + k + 1, hello) == Heard(flight)
    ensures Ask(ctx, w, hello, 0) == (Got(flight), Spent(w, k + 1))
  {
    StallsAreLost(wire, ctx, w, hello, k);
    AnswersAfterLost(ctx, w, hello, k, flight);
  }

  // One attempt more than there are retries, and no more than that.
  lemma GivenUp(wire: Wire, ctx: Context, w: World, hello: ClientHello)
    requires ctx == Over(wire, ctx.settings, ctx.registry) && ctx.settings.retryLimit >= 0
    requires w.spent + ctx.settings.retryLimit + 1 <= ctx.settings.maxConnections
    requires Stalling(wire, Resolver(ctx.registry), w, hello, ctx.settings.retryLimit + 1)
    ensures Ask(ctx, w, hello, 0) == (Failed, Spent(w, ctx.settings.retryLimit + 1))
  {
    StallsAreLost(wire, ctx, w, hello, ctx.settings.retryLimit + 1);
    AfterLost(ctx, w, hello, 0, ctx.settings.retryLimit + 1);
  }

  // A cancelled run asks for nothing more.
  lemma CancelledAtOnce(wire: Wire, ctx: Context, w: World, hello: ClientHello, k: nat)
    requires ctx == Over(wire, ctx.settings, ctx.registry)
    requires k <= ctx.settings.retryLimit && w.spent + k + 1 <= ctx.settings.maxConnections
    requires Stalling(wire, Resolver(ctx.registry), w, hello, k)
    requires Meets(wire, w.spent + k + 1, hello, Unreachable(true))
    ensures Ask(ctx, w, hello, 0) == (Failed, Spent(w, k + 1))
  {
    StallsAreLost(wire, ctx, w, hello, k);
    ReplyMeets(wire, ctx, w.spent + k + 1, hello, Unreachable(true));
    EndsAfterLost(ctx, w, hello, k);
  }

  // Nor does one whose budget is spent: the attempt it refuses is counted and not granted.
  lemma BudgetEnds(wire: Wire, ctx: Context, w: World, hello: ClientHello, k: nat)
    requires ctx == Over(wire, ctx.settings, ctx.registry)
    requires k <= ctx.settings.retryLimit && w.spent + k == ctx.settings.Budget()
    requires Stalling(wire, Resolver(ctx.registry), w, hello, k)
    ensures Ask(ctx, w, hello, 0) == (Exhausted, World(w.spent + k + 1, w.granted + k, w.incomplete))
  {
    StallsAreLost(wire, ctx, w, hello, k);
    AfterLost(ctx, w, hello, 0, k);
  }

  // A hello that cannot be written costs its connections like one nobody answers.
  lemma Unwritable(wire: Wire, ctx: Context, w: World, hello: ClientHello)
    requires ctx == Over(wire, ctx.settings, ctx.registry) && ctx.settings.retryLimit >= 0
    requires w.spent + ctx.settings.retryLimit + 1 <= ctx.settings.maxConnections
    requires forall n :: Marshalled(hello, wire.entropy(n)).Err?
    ensures Ask(ctx, w, hello, 0) == (Failed, Spent(w, ctx.settings.retryLimit + 1))
  {
    forall n: nat ensures ctx.reply(n, hello) == Lost(true) {
      assert ctx.reply(n, hello) == ReplyOver(wire, ctx.registry, n, hello);
    }
    AfterLost(ctx, w, hello, 0, ctx.settings.retryLimit + 1);
  }

  // --- At a version ---------------------------------------------------------------------------

  function First(ctx: Context, version: Word): ClientHello {
    Asking(ctx, version, ctx.registry.ForVersion(version))
  }

  // A server that is slow to let anyone in is judged by the first answer it gives.
  lemma VersionRetried(
    wire: Wire, ctx: Context, w: World, version: Word, k: nat, arrivals: seq<Read>, flight: Flight)
    requires ctx == Over(wire, ctx.settings, ctx.registry) && ctx.registry.ForVersion(version) != []
    requires k <= ctx.settings.retryLimit && w.spent + k + 1 <= ctx.settings.maxConnections
    requires Stalling(wire, Resolver(ctx.registry), w, First(ctx, version), k)
    requires Meets(wire, w.spent + k + 1, First(ctx, version), Opened(arrivals))
    requires Answer(arrivals, Resolver(ctx.registry)) == Ok(flight)
    ensures Judged(ctx, version, flight, Spent(w, k + 1), VersionProbe(ctx, w, version))
  {
    RetriedUntilAnswered(wire, ctx, w, First(ctx, version), k, arrivals, flight);
    AcceptedExactly(ctx, w, version, flight, Spent(w, k + 1));
  }

  // One that lets nobody in is a transport error, and nothing is noted.
  lemma VersionUnreachable(wire: Wire, ctx: Context, w: World, version: Word)
    requires ctx == Over(wire, ctx.settings, ctx.registry) && ctx.registry.ForVersion(version) != []
    requires ctx.settings.retryLimit >= 0
    requires w.spent + ctx.settings.retryLimit + 1 <= ctx.settings.maxConnections
    requires Stalling(wire, Resolver(ctx.registry), w, First(ctx, version), ctx.settings.retryLimit + 1)
    ensures var (v, w') := VersionProbe(ctx, w, version);
      && v.attempted && !v.accepted && v.transportError && v.alertDescription.None? && v.cipherSuites == []
      && w' == Spent(w, ctx.settings.retryLimit + 1)
  {
    GivenUp(wire, ctx, w, First(ctx, version));
    Unanswered(ctx, w, version);
  }
}
