/**
 The probe of one version, taken apart into the steps between which other probes run
 (pkg/tls/probe/version.go), and the proof that the steps, taken one after another,
 are the probe.
 */
module Scans {
  import opened Bytes
  import opened ServerHellos
  import opened Flights
  import opened ClientHellos
  import opened Suites
  import opened Probing
  import opened Enumerations

  // Where a version probe stands between two of its steps.
  datatype Scan =
    | Opening(version: Word, attempt: nat)
    | Offering(found: Version, remaining: seq<Word>, accepted: seq<Word>, attempt: nat)
    | Done(result: Version)
  {
    function Asked(): Word {
      match this
      case Opening(version, _) => version
      case Offering(found, _, _, _) => found.version
      case Done(result) => result.version
    }

    function Again(): Scan
      requires !Done?
    {
      match this
      case Opening(version, attempt) => Opening(version, attempt + 1)
      case Offering(found, remaining, accepted, attempt) => Offering(found, remaining, accepted, attempt + 1)
    }
  }

  function Start(ctx: Context, version: Word): Scan {
    if ctx.registry.ForVersion(version) == [] then Done(Unprobed(version).(attempted := false)) else Opening(version, 0)
  }

  // The hello the next handshake of a scan writes.
  function NextHello(ctx: Context, scan: Scan): ClientHello
    requires !scan.Done?
  {
    Asking(ctx, scan.Asked(), if scan.Opening? then ctx.registry.ForVersion(scan.version) else scan.remaining)
  }

  function Ended(found: Version, accepted: seq<Word>, complete: bool): Scan {
    Done(found.(cipherSuites := accepted, cipherSuitesComplete := complete))
  }

  function GoOn(found: Version, remaining: seq<Word>, accepted: seq<Word>): Scan {
    if remaining == [] then Ended(found, accepted, true) else Offering(found, remaining, accepted, 0)
  }

  // What a scan makes of the outcome of a question, and what it notes.
  function Settle(ctx: Context, scan: Scan, outcome: Outcome): (Scan, seq<Phase>)
    requires !scan.Done?
  {
    match scan
    case Opening(version, _) => SettleOpening(ctx, version, outcome)
    case Offering(found, remaining, accepted, _) => SettleOffering(found, remaining, accepted, outcome)
  }

  function SettleOpening(ctx: Context, version: Word, outcome: Outcome): (Scan, seq<Phase>) {
    match outcome
    case Exhausted =>
      (Done(Unprobed(version).(attempted := false)), [Phase("versions", VERSIONS_EXHAUSTED)])
    case Failed =>
      (Done(Unprobed(version).(transportError := true)), [])
    case Got(flight) =>
      if flight.Refused() then
        (Done(Unprobed(version).(alertDescription := Some(flight.alert.value.description))), [])
      else if flight.serverHello.None? || flight.serverHello.value.version != version then
        (Done(Unprobed(version)), [])
      else
        var hello := flight.serverHello.value;
        (GoOn(WithHello(Unprobed(version).(accepted := true), hello, flight.serverKeyExchange),
              Without(ctx.registry.ForVersion(version), hello.cipherSuite), [hello.cipherSuite]), [])
  }

  function SettleOffering(found: Version, remaining: seq<Word>, accepted: seq<Word>, outcome: Outcome)
    : (Scan, seq<Phase>)
  {
    match outcome
    case Exhausted => (Ended(found, accepted, false), [Phase("cipher_suites", SUITES_EXHAUSTED)])
    case Failed => (Ended(found, accepted, false), [Phase("cipher_suites", SUITES_SILENT)])
    case Got(flight) =>
      if flight.Refused() || flight.serverHello.None? then (Ended(found, accepted, true), []) else
      var picked := flight.serverHello.value.cipherSuite;
      var index := IndexIn(remaining, picked);
      if index < 0 then (Ended(found, accepted, false), [Phase("cipher_suites", SUITES_UNOFFERED)])
      else (GoOn(found, Remove(remaining, index), accepted + [picked]), [])
  }

  // What a scan makes of one connection's reply: another attempt, or an outcome.
  function Hearing(ctx: Context, scan: Scan, reply: Reply): (Scan, seq<Phase>)
    requires !scan.Done?
  {
    match reply
    case Heard(flight) => Settle(ctx, scan, Got(flight))
    case Lost(retryable) => if retryable then (scan.Again(), []) else Settle(ctx, scan, Failed)
  }

  // How many more questions a scan can ask.
  function Questions(ctx: Context, scan: Scan): nat {
    match scan
    case Opening(version, _) => 1 + |ctx.registry.ForVersion(version)|
    case Offering(_, remaining, _, _) => |remaining|
    case Done(_) => 0
  }

  function AttemptsLeft(ctx: Context, scan: Scan): nat {
    if scan.Done? || scan.attempt > ctx.settings.retryLimit then 0 else ctx.settings.retryLimit - scan.attempt + 1
  }

  // A scan that is not over always has a question to ask.
  predicate Sensible(scan: Scan) {
    scan.Offering? ==> scan.remaining != []
  }

  lemma SettleProgresses(ctx: Context, scan: Scan, outcome: Outcome)
    requires !scan.Done? && Sensible(scan)
    ensures var (next, notes) := Settle(ctx, scan, outcome);
      && Sensible(next)
      && Questions(ctx, next) < Questions(ctx, scan)
      && next.Asked() == scan.Asked()
      && (outcome.Exhausted? ==> notes != [])
  {
  }

  // The steps of one scan, one after another, with nothing in between.
  function RunScan(ctx: Context, w: World, scan: Scan): (Version, World)
    requires Sensible(scan)
    decreases Questions(ctx, scan), AttemptsLeft(ctx, scan)
  {
    if scan.Done? then (scan.result, w)
    else if scan.attempt > ctx.settings.retryLimit then
      SettleProgresses(ctx, scan, Failed);
      var (next, notes) := Settle(ctx, scan, Failed);
      RunScan(ctx, Noted(w, notes), next)
    else
      var (ok, w1) := Take(ctx, w);
      if !ok then
        SettleProgresses(ctx, scan, Exhausted);
        var (next, notes) := Settle(ctx, scan, Exhausted);
        RunScan(ctx, Noted(w1, notes), next)
      else
        HearingProgresses(ctx, scan, ctx.reply(w1.spent, NextHello(ctx, scan)));
        var (next, notes) := Hearing(ctx, scan, ctx.reply(w1.spent, NextHello(ctx, scan)));
        RunScan(ctx, Noted(w1, notes), next)
  }

  function Noted(w: World, notes: seq<Phase>): World {
    w.(incomplete := w.incomplete + notes)
  }

  lemma HearingProgresses(ctx: Context, scan: Scan, reply: Reply)
    requires !scan.Done? && Sensible(scan) && scan.attempt <= ctx.settings.retryLimit
    ensures var next := Hearing(ctx, scan, reply).0;
      && Sensible(next)
      && next.Asked() == scan.Asked()
      && (Questions(ctx, next) < Questions(ctx, scan)
        || (Questions(ctx, next) == Questions(ctx, scan) && AttemptsLeft(ctx, next) < AttemptsLeft(ctx, scan)))
  {
    match reply
    case Heard(flight) => SettleProgresses(ctx, scan, Got(flight));
    case Lost(_) => SettleProgresses(ctx, scan, Failed);
  }

  // The steps of one question are the question asked with retries.
  lemma {:induction false} RunAsks(ctx: Context, w: World, scan: Scan)
    requires !scan.Done? && Sensible(scan)
    ensures var (outcome, w1) := Ask(ctx, w, NextHello(ctx, scan), scan.attempt);
      var (next, notes) := Settle(ctx, scan, outcome);
      Sensible(next) && RunScan(ctx, w, scan) == RunScan(ctx, Noted(w1, notes), next)
    decreases AttemptsLeft(ctx, scan)
  {
    if scan.attempt <= ctx.settings.retryLimit {
      var (ok, w1) := Take(ctx, w);
      if ok && ctx.reply(w1.spent, NextHello(ctx, scan)) == Lost(true) {
        RunTriesAgain(ctx, w, scan);
        RunAsks(ctx, w1, scan.Again());
        SettleIgnoresAttempt(ctx, scan, Ask(ctx, w1, NextHello(ctx, scan), scan.attempt + 1).0);
      }
    }
  }

  // A lost connection that may be tried again is the question with one attempt more.
  lemma RunTriesAgain(ctx: Context, w: World, scan: Scan)
    requires !scan.Done? && Sensible(scan)
    requires scan.attempt <= ctx.settings.retryLimit && Take(ctx, w).0
    requires ctx.reply(Take(ctx, w).1.spent, NextHello(ctx, scan)) == Lost(true)
    ensures Sensible(scan.Again())
    ensures RunScan(ctx, w, scan) == RunScan(ctx, Take(ctx, w).1, scan.Again())
    ensures Ask(ctx, w, NextHello(ctx, scan), scan.attempt)
      == Ask(ctx, Take(ctx, w).1, NextHello(ctx, scan.Again()), scan.Again().attempt)
  {
    var w1 := Take(ctx, w).1;
    assert Noted(w1, []) == w1;
  }

  lemma SettleIgnoresAttempt(ctx: Context, scan: Scan, outcome: Outcome)
    requires !scan.Done?
    ensures Settle(ctx, scan.Again(), outcome) == Settle(ctx, scan, outcome)
    ensures NextHello(ctx, scan.Again()) == NextHello(ctx, scan)
  {
  }

  // A round that picks settles into the scan that goes on without the pick.
  lemma SettlePicks(ctx: Context, w: World, scan: Scan)
    requires scan.Offering? && scan.remaining != []
    requires Picks(ctx, w, scan.found.version, scan.remaining).Some?
    ensures var i := Picks(ctx, w, scan.found.version, scan.remaining).value;
      Settle(ctx, scan, Ask(ctx, w, NextHello(ctx, scan), 0).0)
        == (GoOn(scan.found, Remove(scan.remaining, i), scan.accepted + [scan.remaining[i]]), [])
  {
    var outcome := Ask(ctx, w, NextHello(ctx, scan), 0).0;
    IndexInMeans(scan.remaining, outcome.flight.serverHello.value.cipherSuite);
  }

  lemma SettleEnds(ctx: Context, w: World, scan: Scan)
    requires scan.Offering? && scan.remaining != []
    requires Picks(ctx, w, scan.found.version, scan.remaining).None?
    ensures var (outcome, w1) := Ask(ctx, w, NextHello(ctx, scan), 0);
      var (list, complete, _, w') := Rounds(ctx, w, scan.found.version, scan.remaining, scan.accepted);
      var (next, notes) := Settle(ctx, scan, outcome);
      next == Ended(scan.found, list, complete) && Noted(w1, notes) == w'
  {
    var w1 := Ask(ctx, w, NextHello(ctx, scan), 0).1;
    assert Noted(w1, []) == w1;
  }

  lemma {:induction false} RunOffers(ctx: Context, w: World, found: Version, remaining: seq<Word>, accepted: seq<Word>)
    ensures var (list, complete, _, w') := Rounds(ctx, w, found.version, remaining, accepted);
      RunScan(ctx, w, GoOn(found, remaining, accepted))
        == (found.(cipherSuites := list, cipherSuitesComplete := complete), w')
    decreases |remaining|
  {
    if remaining != [] {
      var scan := Offering(found, remaining, accepted, 0);
      RunAsks(ctx, w, scan);
      if Picks(ctx, w, found.version, remaining).Some? {
        var i := Picks(ctx, w, found.version, remaining).value;
        var w1 := Ask(ctx, w, NextHello(ctx, scan), 0).1;
        SettlePicks(ctx, w, scan);
        assert Noted(w1, []) == w1;
        RoundGoesOn(ctx, w, found.version, remaining, accepted);
        RunOffers(ctx, w1, found, Remove(remaining, i), accepted + [remaining[i]]);
      } else {
        SettleEnds(ctx, w, scan);
      }
    }
  }

  // The steps of a whole scan are the version probe.
  lemma ScanIsVersionProbe(ctx: Context, w: World, version: Word)
    ensures RunScan(ctx, w, Start(ctx, version)) == VersionProbe(ctx, w, version)
  {
    if ctx.registry.ForVersion(version) != [] {
      var scan := Opening(version, 0);
      RunAsks(ctx, w, scan);
      var (outcome, w1) := Ask(ctx, w, NextHello(ctx, scan), 0);
      assert Noted(w1, []) == w1;
      if outcome.Got? && !outcome.flight.Refused() && outcome.flight.serverHello.Some?
        && outcome.flight.serverHello.value.version == version {
        var hello := outcome.flight.serverHello.value;
        var found := WithHello(Unprobed(version).(accepted := true), hello, outcome.flight.serverKeyExchange);
        RunOffers(ctx, w1, found, Without(ctx.registry.ForVersion(version), hello.cipherSuite), [hello.cipherSuite]);
      }
    }
  }

  // --- A scan by itself, against a server without a memory ---------------------------------

  // What such a server replies depends on the hello alone.
  ghost predicate Memoryless(ctx: Context, answer: ClientHello -> Reply) {
    forall n, hello :: ctx.reply(n, hello) == answer(hello)
  }

  // Where a scan ends when the budget is no obstacle: its result, what it notes, and how
  // many connections it takes.
  datatype Solo = Solo(result: Version, notes: seq<Phase>, cost: nat)

  function RunSolo(ctx: Context, answer: ClientHello -> Reply, scan: Scan): Solo
    requires Sensible(scan)
    decreases Questions(ctx, scan), AttemptsLeft(ctx, scan)
  {
    if scan.Done? then Solo(scan.result, [], 0)
    else if scan.attempt > ctx.settings.retryLimit then
      SettleProgresses(ctx, scan, Failed);
      var (next, notes) := Settle(ctx, scan, Failed);
      var rest := RunSolo(ctx, answer, next);
      rest.(notes := notes + rest.notes)
    else
      HearingProgresses(ctx, scan, answer(NextHello(ctx, scan)));
      var (next, notes) := Hearing(ctx, scan, answer(NextHello(ctx, scan)));
      var rest := RunSolo(ctx, answer, next);
      Solo(rest.result, notes + rest.notes, rest.cost + 1)
  }

  // A reply heard is a connection spent, and what it settles.
  lemma SoloHears(ctx: Context, answer: ClientHello -> Reply, w: World, scan: Scan)
    requires Memoryless(ctx, answer) && Sensible(scan) && !scan.Done?
    requires scan.attempt <= ctx.settings.retryLimit && w.spent < ctx.settings.maxConnections
    ensures var (next, notes) := Hearing(ctx, scan, answer(NextHello(ctx, scan)));
      && Sensible(next)
      && RunScan(ctx, w, scan) == RunScan(ctx, Noted(Take(ctx, w).1, notes), next)
      && var rest := RunSolo(ctx, answer, next);
         RunSolo(ctx, answer, scan) == Solo(rest.result, notes + rest.notes, rest.cost + 1)
  {
    HearingProgresses(ctx, scan, answer(NextHello(ctx, scan)));
  }

  // With budget enough, the run of a scan is its run by itself.
  lemma {:induction false} RunIsSolo(ctx: Context, answer: ClientHello -> Reply, w: World, scan: Scan)
    requires Memoryless(ctx, answer) && Sensible(scan)
    requires w.spent + RunSolo(ctx, answer, scan).cost <= ctx.settings.maxConnections
    ensures RunScan(ctx, w, scan) == (RunSolo(ctx, answer, scan).result, Sum(w, RunSolo(ctx, answer, scan)))
    decreases Questions(ctx, scan), AttemptsLeft(ctx, scan)
  {
    if scan.Done? {
      assert w.incomplete + [] == w.incomplete;
    } else if scan.attempt > ctx.settings.retryLimit {
      var (next, notes) := Settle(ctx, scan, Failed);
      SettleProgresses(ctx, scan, Failed);
      SoloGivesUp(ctx, answer, w, scan);
      RunIsSolo(ctx, answer, Noted(w, notes), next);
      AddedUp(w, notes, RunSolo(ctx, answer, next), 0);
    } else {
      var (next, notes) := Hearing(ctx, scan, answer(NextHello(ctx, scan)));
      HearingProgresses(ctx, scan, answer(NextHello(ctx, scan)));
      SoloHears(ctx, answer, w, scan);
      RunIsSolo(ctx, answer, Noted(Take(ctx, w).1, notes), next);
      AddedUp(w, notes, RunSolo(ctx, answer, next), 1);
    }
  }

  // Where a run by itself leaves the probes.
  function Sum(w: World, solo: Solo): World {
    World(w.spent + solo.cost, w.granted + solo.cost, w.incomplete + solo.notes)
  }

  lemma AddedUp(w: World, notes: seq<Phase>, rest: Solo, k: nat)
    ensures Sum(Noted(w.(spent := w.spent + k, granted := w.granted + k), notes), rest)
      == Sum(w, Solo(rest.result, notes + rest.notes, rest.cost + k))
  {
    Associate(w.incomplete, notes, rest.notes);
  }

  lemma SoloGivesUp(ctx: Context, answer: ClientHello -> Reply, w: World, scan: Scan)
    requires Sensible(scan) && !scan.Done? && scan.attempt > ctx.settings.retryLimit
    ensures var (next, notes) := Settle(ctx, scan, Failed);
      && Sensible(next)
      && RunScan(ctx, w, scan) == RunScan(ctx, Noted(w, notes), next)
      && var rest := RunSolo(ctx, answer, next);
         RunSolo(ctx, answer, scan) == Solo(rest.result, notes + rest.notes, rest.cost)
  {
    SettleProgresses(ctx, scan, Failed);
  }
}
