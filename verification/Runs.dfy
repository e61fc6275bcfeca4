/**
 A whole run against a server that chooses by a rule at every version: any schedule of the
 version scan, then the questions after it (Probe in pkg/tls/probe/probe.go). The server
 may remember what it was asked before and on which connection, as long as it keeps to
 its rules.
 */
module Runs {
  import opened Bytes
  import opened ServerHellos
  import opened Flights
  import opened ClientHellos
  import opened Suites
  import opened Probing
  import opened Enumerations
  import opened Framing
  import opened Speeches
  import opened Servers
  import opened Orderings
  import opened Scans
  import opened Concurrency
  import opened Phases

  // Every reply heard in a run is what the server said to that hello on some connection.
  ghost predicate FromServer(ctx: Context, probed: seq<Word>, actions: seq<Action>)
    requires Run(ctx, probed, actions).Some?
  {
    if actions == [] then true else
    var n := |actions| - 1;
    var s := Run(ctx, probed, actions[..n]).value;
    && FromServer(ctx, probed, actions[..n])
    && (actions[n].Hear? ==> SaidBy(ctx, NextHello(ctx, s.slots[actions[n].i].scan), actions[n].reply))
  }

  ghost predicate SaidBy(ctx: Context, hello: ClientHello, reply: Reply) {
    exists n: nat :: reply == ctx.reply(n, hello)
  }

  // One rule for each version, kept on every connection.
  ghost predicate FollowsRules(ctx: Context, probed: seq<Word>, rules: seq<Rule>) {
    && |rules| == |probed|
    && forall i :: 0 <= i < |probed| ==> Follows(ctx, probed[i], rules[i]) && Distinct(rules[i].list)
  }

  function OfferOf(ctx: Context, version: Word): seq<Word> {
    ctx.registry.ForVersion(version)
  }

  // What there is to find at a version.
  ghost predicate Right(ctx: Context, version: Word, rule: Rule, result: Version) {
    && result.version == version
    && result.cipherSuites == rule.Ranking(OfferOf(ctx, version))
    && (result.accepted <==> result.cipherSuites != [])
    && (result.accepted ==> result.cipherSuitesComplete)
  }

  // The connections a goroutine has still to take.
  function Left(ctx: Context, version: Word, rule: Rule, slot: Slot): nat {
    match slot
    case Waiting => RoundsNeeded(rule, OfferOf(ctx, version))
    case Running(scan, pending) =>
      var needed := ScanLeft(ctx, version, rule, scan);
      if pending.Some? && needed > 0 then needed - 1 else needed
    case _ => 0
  }

  function ScanLeft(ctx: Context, version: Word, rule: Rule, scan: Scan): nat {
    match scan
    case Opening(_, _) => RoundsNeeded(rule, OfferOf(ctx, version))
    case Offering(_, remaining, _, _) => RoundsNeeded(rule, remaining)
    case Done(_) => 0
  }

  // A scan is on the way to what there is to find, at its first attempt.
  ghost predicate Scanning(ctx: Context, version: Word, rule: Rule, scan: Scan) {
    match scan
    case Opening(asked, attempt) => asked == version && attempt == 0 && OfferOf(ctx, version) != []
    case Offering(found, remaining, accepted, attempt) =>
      && attempt == 0
      && found.version == version && found.accepted
      && Askable(ctx, version, remaining)
      && accepted != []
      && accepted + rule.Ranking(remaining) == rule.Ranking(OfferOf(ctx, version))
    case Done(result) => Right(ctx, version, rule, result)
  }

  ghost predicate OnRule(ctx: Context, version: Word, rule: Rule, slot: Slot, result: Option<Version>) {
    match slot
    case Waiting => true
    case Running(scan, pending) =>
      && Scanning(ctx, version, rule, scan)
      && pending != Some(false)
      && (pending.Some? ==> !scan.Done?)
    case _ => result.Some? && Right(ctx, version, rule, result.value)
  }

  // --- One step ---------------------------------------------------------------------------------

  // What is left after the best of an offer is taken.
  lemma PickLeaves(ctx: Context, version: Word, rule: Rule, offered: seq<Word>) returns (rest: seq<Word>)
    requires Distinct(rule.list) && Askable(ctx, version, offered) && rule.Ranking(offered) != []
    ensures var i := IndexIn(offered, rule.Ranking(offered)[0]);
      i >= 0 && rest == Remove(offered, i) && offered[i] == rule.Ranking(offered)[0]
    ensures Without(offered, rule.Ranking(offered)[0]) == rest
    ensures rest != [] ==> Askable(ctx, version, rest)
    ensures rule.Ranking(offered) == [rule.Ranking(offered)[0]] + rule.Ranking(rest)
    ensures RoundsNeeded(rule, offered) == RoundsNeeded(rule, rest) + 1
  {
    var best := rule.Ranking(offered)[0];
    RankingShrinks(rule, offered);
    IndexInMeans(offered, best);
    var i := IndexIn(offered, best);
    rest := Remove(offered, i);
    WithoutIsRemove(offered, i);
    NeededShrinks(rule, offered, i);
    LeavesAskable(ctx, version, offered, i);
  }

  lemma LeavesAskable(ctx: Context, version: Word, offered: seq<Word>, i: nat)
    requires Askable(ctx, version, offered) && i < |offered|
    ensures Remove(offered, i) != [] ==> Askable(ctx, version, Remove(offered, i))
  {
    RemoveKeeps(offered, i);
  }

  // Whatever it settles on, the scan goes on with what is left or is over with what there
  // was to find.
  lemma GoesOn(
    ctx: Context, version: Word, rule: Rule, found: Version, remaining: seq<Word>, accepted: seq<Word>)
    requires found.version == version && found.accepted && accepted != []
    requires remaining != [] ==> Askable(ctx, version, remaining)
    requires accepted + rule.Ranking(remaining) == rule.Ranking(OfferOf(ctx, version))
    ensures Scanning(ctx, version, rule, GoOn(found, remaining, accepted))
    ensures ScanLeft(ctx, version, rule, GoOn(found, remaining, accepted)) == RoundsNeeded(rule, remaining)
  {
    NothingToRank(rule);
    if remaining == [] {
      assert accepted + [] == accepted;
    }
  }

  lemma OpeningPicks(ctx: Context, version: Word, rule: Rule, found: Version)
    requires ctx.registry.Valid() && Distinct(rule.list) && OfferOf(ctx, version) != []
    requires found.version == version && found.accepted && rule.Ranking(OfferOf(ctx, version)) != []
    ensures var offer := OfferOf(ctx, version);
      var best := rule.Ranking(offer)[0];
      var next := GoOn(found, Without(offer, best), [best]);
      Scanning(ctx, version, rule, next) && ScanLeft(ctx, version, rule, next) + 1 == RoundsNeeded(rule, offer)
  {
    var offer := OfferOf(ctx, version);
    ForVersionExact(ctx.registry, version);
    var rest := PickLeaves(ctx, version, rule, offer);
    GoesOn(ctx, version, rule, found, rest, [rule.Ranking(offer)[0]]);
  }

  lemma OpeningHears(ctx: Context, version: Word, rule: Rule, reply: Reply)
    requires ctx.registry.Valid() && Distinct(rule.list) && OfferOf(ctx, version) != []
    requires Chooses(reply, version, rule.Ranking(OfferOf(ctx, version)))
    ensures var (next, notes) := Hearing(ctx, Opening(version, 0), reply);
      && Scanning(ctx, version, rule, next) && notes == []
      && ScanLeft(ctx, version, rule, next) + 1 == RoundsNeeded(rule, OfferOf(ctx, version))
  {
    if rule.Ranking(OfferOf(ctx, version)) != [] {
      var hello := reply.flight.serverHello.value;
      OpeningPicks(ctx, version, rule,
                   WithHello(Unprobed(version).(accepted := true), hello, reply.flight.serverKeyExchange));
    }
  }

  lemma OfferingHears(
    ctx: Context, version: Word, rule: Rule, found: Version, remaining: seq<Word>, accepted: seq<Word>, reply: Reply)
    requires Distinct(rule.list) && Scanning(ctx, version, rule, Offering(found, remaining, accepted, 0))
    requires Chooses(reply, version, rule.Ranking(remaining))
    ensures var (next, notes) := Hearing(ctx, Offering(found, remaining, accepted, 0), reply);
      && Scanning(ctx, version, rule, next) && notes == []
      && ScanLeft(ctx, version, rule, next) + 1 == RoundsNeeded(rule, remaining)
  {
    if rule.Ranking(remaining) == [] {
      assert accepted + [] == accepted;
    } else {
      var best := rule.Ranking(remaining)[0];
      var rest := PickLeaves(ctx, version, rule, remaining);
      Associate(accepted, [best], rule.Ranking(rest));
      GoesOn(ctx, version, rule, found, rest, accepted + [best]);
    }
  }

  // What the server says to the hello of a scan is a choice by its rule.
  lemma ScanAnswered(ctx: Context, version: Word, rule: Rule, scan: Scan, reply: Reply)
    requires ctx.registry.Valid() && Follows(ctx, version, rule)
    requires Scanning(ctx, version, rule, scan) && !scan.Done?
    requires SaidBy(ctx, NextHello(ctx, scan), reply)
    ensures Chooses(reply, version, rule.Ranking(if scan.Opening? then OfferOf(ctx, version) else scan.remaining))
  {
    var n: nat :| reply == ctx.reply(n, NextHello(ctx, scan));
    ForVersionExact(ctx.registry, version);
    var suites := if scan.Opening? then OfferOf(ctx, version) else scan.remaining;
    assert Askable(ctx, version, suites);
    assert NextHello(ctx, scan) == Asking(ctx, version, suites);
  }

  lemma ScanStarts(ctx: Context, version: Word, rule: Rule)
    ensures Scanning(ctx, version, rule, Start(ctx, version))
    ensures ScanLeft(ctx, version, rule, Start(ctx, version)) == RoundsNeeded(rule, OfferOf(ctx, version))
  {
    NothingToRank(rule);
  }

  // A scan that is not over has a connection still to take.
  lemma ScanNeeds(ctx: Context, version: Word, rule: Rule, scan: Scan)
    requires Scanning(ctx, version, rule, scan) && !scan.Done?
    ensures ScanLeft(ctx, version, rule, scan) > 0
  {
  }

  // One step of one goroutine: it stays on its way, nothing is noted, and the connections
  // spent and still to be taken add up as before.
  lemma StepOnRule(ctx: Context, probed: seq<Word>, rules: seq<Rule>, s: State, a: Action)
    requires ctx.registry.Valid() && FollowsRules(ctx, probed, rules) && ctx.settings.retryLimit >= 0
    requires |s.slots| == |s.versions| == |probed| && Enabled(ctx, s, a)
    requires a.Hear? ==> SaidBy(ctx, NextHello(ctx, s.slots[a.i].scan), a.reply)
    requires OnRule(ctx, probed[a.i], rules[a.i], s.slots[a.i], s.versions[a.i])
    requires s.world.spent + Left(ctx, probed[a.i], rules[a.i], s.slots[a.i]) <= ctx.settings.maxConnections
    ensures var t := Apply(ctx, probed, s, a);
      && OnRule(ctx, probed[a.i], rules[a.i], t.slots[a.i], t.versions[a.i])
      && t.world.incomplete == s.world.incomplete
      && t.world.spent + Left(ctx, probed[a.i], rules[a.i], t.slots[a.i])
        == s.world.spent + Left(ctx, probed[a.i], rules[a.i], s.slots[a.i])
  {
    var version, rule, slot := probed[a.i], rules[a.i], s.slots[a.i];
    match a
    case Acquire(_) => ScanStarts(ctx, version, rule);
    case TakeOne(_) => ScanNeeds(ctx, version, rule, slot.scan);
    case Hear(_, reply) => HearOnRule(ctx, version, rule, s.world, slot.scan, reply);
    case _ =>
  }

  lemma HearOnRule(ctx: Context, version: Word, rule: Rule, w: World, scan: Scan, reply: Reply)
    requires ctx.registry.Valid() && Follows(ctx, version, rule) && Distinct(rule.list)
    requires Scanning(ctx, version, rule, scan) && !scan.Done?
    requires SaidBy(ctx, NextHello(ctx, scan), reply)
    ensures var (next, notes) := Hearing(ctx, scan, reply);
      && Scanning(ctx, version, rule, next) && Noted(w, notes) == w
      && ScanLeft(ctx, version, rule, next) + 1 == ScanLeft(ctx, version, rule, scan)
  {
    ScanAnswered(ctx, version, rule, scan, reply);
    match scan
    case Opening(_, _) => OpeningHears(ctx, version, rule, reply);
    case Offering(found, remaining, accepted, _) =>
      OfferingHears(ctx, version, rule, found, remaining, accepted, reply);
    assert w.incomplete + [] == w.incomplete;
  }

  // --- The scan -----------------------------------------------------------------------------------

  function AllLeft(ctx: Context, probed: seq<Word>, rules: seq<Rule>, slots: seq<Slot>): (left: seq<nat>)
    requires |probed| == |rules| == |slots|
    ensures |left| == |slots|
    ensures forall i :: 0 <= i < |slots| ==> left[i] == Left(ctx, probed[i], rules[i], slots[i])
  {
    seq(|slots|, i requires 0 <= i < |slots| => Left(ctx, probed[i], rules[i], slots[i]))
  }

  // What the scan of all the versions takes.
  function ScanCost(ctx: Context, probed: seq<Word>, rules: seq<Rule>): nat
    requires |probed| == |rules|
  {
    Total(AllLeft(ctx, probed, rules, Init(probed).slots))
  }

  ghost predicate AllOnRule(ctx: Context, probed: seq<Word>, rules: seq<Rule>, s: State)
    requires |s.slots| == |s.versions| == |probed| == |rules|
  {
    && (forall i :: 0 <= i < |probed| ==> OnRule(ctx, probed[i], rules[i], s.slots[i], s.versions[i]))
    && s.world.spent + Total(AllLeft(ctx, probed, rules, s.slots)) == ScanCost(ctx, probed, rules)
    && s.world.incomplete == []
  }

  lemma {:induction false} RunOnRule(ctx: Context, probed: seq<Word>, rules: seq<Rule>, actions: seq<Action>)
    requires ctx.registry.Valid() && FollowsRules(ctx, probed, rules) && ctx.settings.retryLimit >= 0
    requires Run(ctx, probed, actions).Some? && FromServer(ctx, probed, actions)
    requires ScanCost(ctx, probed, rules) <= ctx.settings.maxConnections
    ensures AllOnRule(ctx, probed, rules, Run(ctx, probed, actions).value)
  {
    if actions != [] {
      var n := |actions| - 1;
      RunOnRule(ctx, probed, rules, actions[..n]);
      StepAllOnRule(ctx, probed, rules, Run(ctx, probed, actions[..n]).value, actions[n]);
    }
  }

  lemma StepAllOnRule(ctx: Context, probed: seq<Word>, rules: seq<Rule>, s: State, a: Action)
    requires ctx.registry.Valid() && FollowsRules(ctx, probed, rules) && ctx.settings.retryLimit >= 0
    requires |s.slots| == |s.versions| == |probed| && Enabled(ctx, s, a)
    requires a.Hear? ==> SaidBy(ctx, NextHello(ctx, s.slots[a.i].scan), a.reply)
    requires ScanCost(ctx, probed, rules) <= ctx.settings.maxConnections
    requires AllOnRule(ctx, probed, rules, s)
    ensures AllOnRule(ctx, probed, rules, Apply(ctx, probed, s, a))
  {
    var t := Apply(ctx, probed, s, a);
    TotalCovers(AllLeft(ctx, probed, rules, s.slots), a.i);
    StepOnRule(ctx, probed, rules, s, a);
    OthersStay(ctx, probed, s, a);
    LeftUpdates(ctx, probed, rules, s.slots, a.i, t.slots[a.i]);
    forall i | 0 <= i < |probed| ensures OnRule(ctx, probed[i], rules[i], t.slots[i], t.versions[i]) {
      assert OnRule(ctx, probed[i], rules[i], s.slots[i], s.versions[i]);
    }
  }

  lemma OthersStay(ctx: Context, probed: seq<Word>, s: State, a: Action)
    requires |s.slots| == |s.versions| == |probed| && Enabled(ctx, s, a)
    ensures var t := Apply(ctx, probed, s, a);
      && |t.slots| == |t.versions| == |probed|
      && t.slots == s.slots[a.i := t.slots[a.i]]
      && t.versions == s.versions[a.i := t.versions[a.i]]
  {
  }

  lemma LeftUpdates(ctx: Context, probed: seq<Word>, rules: seq<Rule>, slots: seq<Slot>, i: nat, slot: Slot)
    requires |probed| == |rules| == |slots| && i < |slots|
    ensures Total(AllLeft(ctx, probed, rules, slots[i := slot]))
      == Total(AllLeft(ctx, probed, rules, slots)) - Left(ctx, probed[i], rules[i], slots[i])
        + Left(ctx, probed[i], rules[i], slot)
  {
    var left := Left(ctx, probed[i], rules[i], slot);
    TotalUpdate(AllLeft(ctx, probed, rules, slots), i, left);
    assert AllLeft(ctx, probed, rules, slots[i := slot]) == AllLeft(ctx, probed, rules, slots)[i := left];
  }

  // Every schedule of the scan finds at every version exactly what the rule would take,
  // best first and complete, for the same connections, and notes nothing.
  lemma ScheduleFindsRules(ctx: Context, probed: seq<Word>, rules: seq<Rule>, actions: seq<Action>)
    requires ctx.registry.Valid() && FollowsRules(ctx, probed, rules) && ctx.settings.retryLimit >= 0
    requires Run(ctx, probed, actions).Some? && FromServer(ctx, probed, actions)
    requires AllOver(Run(ctx, probed, actions).value)
    requires ScanCost(ctx, probed, rules) <= ctx.settings.maxConnections
    ensures var s := Run(ctx, probed, actions).value;
      && s.world.spent == ScanCost(ctx, probed, rules)
      && s.world.incomplete == []
      && forall i :: 0 <= i < |probed| ==>
        s.versions[i].Some? && Right(ctx, probed[i], rules[i], s.versions[i].value)
  {
    RunOnRule(ctx, probed, rules, actions);
    var s := Run(ctx, probed, actions).value;
    forall i | 0 <= i < |probed|
      ensures s.versions[i].Some? && Right(ctx, probed[i], rules[i], s.versions[i].value)
      ensures AllLeft(ctx, probed, rules, s.slots)[i] == 0
    {
      assert OnRule(ctx, probed[i], rules[i], s.slots[i], s.versions[i]);
    }
    TotalZero(AllLeft(ctx, probed, rules, s.slots));
  }

  // --- The run --------------------------------------------------------------------------------------

  // A version below TLS 1.3 at which the server takes anything.
  predicate TakesAny(ctx: Context, version: Word, rule: Rule) {
    version < VERSION_TLS13 && rule.Ranking(OfferOf(ctx, version)) != []
  }

  // The newest of them.
  ghost predicate IsNewest(ctx: Context, probed: seq<Word>, rules: seq<Rule>, i: nat)
    requires |probed| == |rules|
  {
    && i < |probed| && TakesAny(ctx, probed[i], rules[i])
    && forall j :: 0 <= j < |probed| && j != i && TakesAny(ctx, probed[j], rules[j]) ==> probed[j] < probed[i]
  }

  lemma NewestFound(ctx: Context, probed: seq<Word>, rules: seq<Rule>, versions: seq<Version>, i: nat)
    requires |probed| == |rules| == |versions| && IsNewest(ctx, probed, rules, i)
    requires forall j :: 0 <= j < |probed| ==> Right(ctx, probed[j], rules[j], versions[j])
    ensures Accepted(versions) != []
    ensures NewestBelow(Accepted(versions), VERSION_TLS13) == Some(versions[i])
  {
    var accepted := Accepted(versions);
    AcceptedIs(versions, versions[i]);
    NewestBelowIs(accepted, VERSION_TLS13);
    var best := NewestBelow(accepted, VERSION_TLS13).value;
    AcceptedIs(versions, best);
    var j :| 0 <= j < |versions| && versions[j] == best;
    assert Right(ctx, probed[j], rules[j], versions[j]);
  }

  // What there is to observe: at every version the server's suites by its rule there, and
  // about the newest version below TLS 1.3 whether the server has an order of its own and,
  // exactly when it has one that goes against the policy, where.
  ghost predicate AsRuled(
    ctx: Context, probed: seq<Word>, rules: seq<Rule>, i: nat, observation: Observation)
    requires |rules| == |probed| && i < |probed|
  {
    && |observation.versions| == |probed|
    && (forall j :: 0 <= j < |probed| ==> Right(ctx, probed[j], rules[j], observation.versions[j]))
    && observation.order.serverEnforces == Some(rules[i].OwnOrder?)
    && (observation.order.violation.Some? <==>
      rules[i].OwnOrder? && !InPolicyOrder(ctx.registry, Restrict(rules[i].list, OfferOf(ctx, probed[i]))))
    && (observation.order.violation.Some? ==> observation.order.violationVersion == probed[i])
  }

  // A run that is over, and the results in its slots.
  ghost predicate RanTo(
    ctx: Context, probed: seq<Word>, actions: seq<Action>, versions: seq<Version>)
  {
    && Run(ctx, probed, actions).Some? && FromServer(ctx, probed, actions)
    && AllOver(Run(ctx, probed, actions).value)
    && |versions| == |probed|
    && forall j :: 0 <= j < |probed| ==> Run(ctx, probed, actions).value.versions[j] == Some(versions[j])
  }

  // The main result on runs, whatever the schedule.
  lemma WholeRun(
    ctx: Context, probed: seq<Word>, rules: seq<Rule>, actions: seq<Action>, versions: seq<Version>, leg: Session,
    i: nat)
    requires ctx.registry.Valid() && FollowsRules(ctx, probed, rules) && ctx.settings.retryLimit >= 0
    requires RanTo(ctx, probed, actions, versions)
    requires ScanCost(ctx, probed, rules) + 2 <= ctx.settings.maxConnections
    requires IsNewest(ctx, probed, rules, i) && |rules[i].Ranking(OfferOf(ctx, probed[i]))| >= 2
    ensures var (observation, _) := Observe(ctx, Run(ctx, probed, actions).value.world, versions, leg);
      && observation.Some?
      && observation.value.versions == versions
      && AsRuled(ctx, probed, rules, i, observation.value)
  {
    var w := Run(ctx, probed, actions).value.world;
    ScheduleFindsRules(ctx, probed, rules, actions);
    forall j | 0 <= j < |probed| ensures Right(ctx, probed[j], rules[j], versions[j]) {
      assert Run(ctx, probed, actions).value.versions[j] == Some(versions[j]);
    }
    NewestFound(ctx, probed, rules, versions, i);
    OrderOfRule(ctx, w, Accepted(versions), versions[i], rules[i]);
  }

  // And from the bytes: at every version, TLS 1.3 too, the server is described by what it
  // sends for what it is sent.
  ghost predicate ServesAll(wire: Wire, settings: Settings, registry: Registry, probed: seq<Word>, rules: seq<Rule>) {
    && |rules| == |probed|
    && forall j :: 0 <= j < |probed| ==>
      && probed[j] <= VERSION_TLS13 && Distinct(rules[j].list)
      && Writable(Over(wire, settings, registry), probed[j])
      && Serves(wire, registry, probed[j], rules[j])
  }

  lemma WholeRunFromBytes(
    wire: Wire, settings: Settings, registry: Registry, probed: seq<Word>, rules: seq<Rule>, actions: seq<Action>,
    versions: seq<Version>, leg: Session, i: nat)
    requires registry.Valid() && ServesAll(wire, settings, registry, probed, rules) && settings.retryLimit >= 0
    requires RanTo(Over(wire, settings, registry), probed, actions, versions)
    requires ScanCost(Over(wire, settings, registry), probed, rules) + 2 <= settings.maxConnections
    requires IsNewest(Over(wire, settings, registry), probed, rules, i)
    requires |rules[i].Ranking(registry.ForVersion(probed[i]))| >= 2
    ensures var ctx := Over(wire, settings, registry);
      var (observation, _) := Observe(ctx, Run(ctx, probed, actions).value.world, versions, leg);
      && observation.Some?
      && observation.value.versions == versions
      && AsRuled(ctx, probed, rules, i, observation.value)
  {
    var ctx := Over(wire, settings, registry);
    forall j | 0 <= j < |probed| ensures Follows(ctx, probed[j], rules[j]) {
      ServerFollows(wire, settings, registry, probed[j], rules[j]);
    }
    WholeRun(ctx, probed, rules, actions, versions, leg, i);
  }

  // There is a server for any rules at all, one for each version.
  lemma SomeServerServesAll(
    entropy: nat -> Entropy, settings: Settings, registry: Registry, rules: Word -> Rule, done: Message,
    probed: seq<Word>)
    requires IsDone(done)
    requires forall version :: Distinct(rules(version).list)
    requires forall version :: version in probed ==>
      version <= VERSION_TLS13 && Writable(Over(TerseWire(entropy, registry, rules, done), settings, registry), version)
    ensures ServesAll(TerseWire(entropy, registry, rules, done), settings, registry, probed,
                      seq(|probed|, j requires 0 <= j < |probed| => rules(probed[j])))
  {
    var wire := TerseWire(entropy, registry, rules, done);
    forall j | 0 <= j < |probed|
      ensures probed[j] <= VERSION_TLS13 && Writable(Over(wire, settings, registry), probed[j])
      ensures Serves(wire, registry, probed[j], rules(probed[j]))
    {
      assert probed[j] in probed;
      SomeServerServes(entropy, registry, rules, done, probed[j]);
    }
  }
}
