/**
 Whether a server imposes its own order on cipher suites, and whether that order goes
 against the policy (pkg/tls/probe/checks.go).
 */
module Orderings {
  import opened Bytes
  import opened ServerHellos
  import opened Flights
  import opened Suites
  import opened Probing
  import opened Enumerations

  datatype Order = Order(
    applicable: bool,
    serverEnforces: Option<bool>,
    violation: Option<(Word, Word)>,
    violationVersion: Word)

  const ORDER_FIRST := "the server did not answer the first ordering probe"
  const ORDER_SECOND := "the server did not answer the second ordering probe"

  // The newest of the accepted versions older than TLS 1.3.
  function NewestBelow(accepted: seq<Version>, limit: nat): Option<Version> {
    if accepted == [] then None else
    var last := accepted[|accepted| - 1];
    var best := NewestBelow(accepted[..|accepted| - 1], limit);
    if last.version >= limit then best
    else if best.None? || last.version > best.value.version then Some(last)
    else best
  }

  lemma {:induction false} NewestBelowIs(accepted: seq<Version>, limit: nat)
    ensures var best := NewestBelow(accepted, limit);
      && (best.None? <==> forall v :: v in accepted ==> v.version >= limit)
      && (best.Some? ==>
        && best.value in accepted
        && best.value.version < limit
        && forall v :: v in accepted && v.version < limit ==> v.version <= best.value.version)
  {
    if accepted != [] {
      var n := |accepted| - 1;
      NewestBelowIs(accepted[..n], limit);
      assert accepted == accepted[..n] + [accepted[n]];
    }
  }

  ghost predicate NoneAsNewBefore(accepted: seq<Version>, limit: nat, i: nat)
    requires i < |accepted|
  {
    forall j :: 0 <= j < i ==> accepted[j].version < accepted[i].version || accepted[j].version >= limit
  }

  // Of several results for the newest version the first is taken.
  lemma {:induction false} NewestIsFirst(accepted: seq<Version>, limit: nat)
    requires NewestBelow(accepted, limit).Some?
    ensures exists i ::
      0 <= i < |accepted| && accepted[i] == NewestBelow(accepted, limit).value && NoneAsNewBefore(accepted, limit, i)
  {
    var n := |accepted| - 1;
    var front, best := accepted[..n], NewestBelow(accepted, limit);
    NewestBelowIs(front, limit);
    if best == NewestBelow(front, limit) {
      NewestIsFirst(front, limit);
      var i :| 0 <= i < |front| && front[i] == best.value && NoneAsNewBefore(front, limit, i);
      assert accepted[i] == front[i] && NoneAsNewBefore(accepted, limit, i);
    } else {
      assert accepted[n] == best.value;
      forall j | 0 <= j < n ensures accepted[j].version < accepted[n].version || accepted[j].version >= limit {
        assert accepted[j] in front;
      }
      assert NoneAsNewBefore(accepted, limit, n);
    }
  }

  method BelowTls13(accepted: seq<Version>) returns (best: Option<Version>)
    ensures best == NewestBelow(accepted, VERSION_TLS13)
  {
    best := None;
    for i := 0 to |accepted|
      invariant best == NewestBelow(accepted[..i], VERSION_TLS13)
    {
      assert accepted[..i + 1][..i] == accepted[..i];
      if accepted[i].version >= VERSION_TLS13 {
        continue;
      }
      if best.None? || accepted[i].version > best.value.version {
        best := Some(accepted[i]);
      }
    }
    assert accepted[..|accepted|] == accepted;
  }

  function Reverse(ids: seq<Word>): (r: seq<Word>)
    ensures |r| == |ids|
  {
    if ids == [] then [] else Reverse(ids[1..]) + [ids[0]]
  }

  lemma {:induction false} ReverseAt(ids: seq<Word>, i: nat)
    requires i < |ids|
    ensures Reverse(ids)[|ids| - 1 - i] == ids[i]
  {
    if i > 0 {
      ReverseAt(ids[1..], i - 1);
    }
  }

  method Reversed(values: seq<Word>) returns (r: seq<Word>)
    ensures r == Reverse(values)
  {
    var out := new Word[|values|];
    for i := 0 to |values|
      invariant forall j :: 0 <= j < i ==> out[|values| - 1 - j] == values[j]
    {
      out[|values| - 1 - i] := values[i];
    }
    forall k | 0 <= k < |values| ensures out[k] == Reverse(values)[k] {
      ReverseAt(values, |values| - 1 - k);
      assert out[|values| - 1 - (|values| - 1 - k)] == values[|values| - 1 - k];
    }
    r := out[..];
  }

  // --- The first place out of order ---------------------------------------------------

  ghost predicate InPolicyOrder(registry: Registry, preference: seq<Word>) {
    forall i, j :: 0 <= i < j < |preference| ==> registry.RankOf(preference[i]) <= registry.RankOf(preference[j])
  }

  // No suite stands before one of a better category.
  lemma PolicyOrderIs(registry: Registry, preference: seq<Word>)
    ensures InPolicyOrder(registry, preference) <==>
      forall i, j :: 0 <= i < j < |preference| ==>
        !Better(registry.Categorize(preference[j]), registry.Categorize(preference[i]))
  {
    forall a: Category, b: Category ensures a.Rank() < b.Rank() <==> Better(a, b) {
      RankIsOrder(a, b);
    }
    if InPolicyOrder(registry, preference) {
      forall i, j | 0 <= i < j < |preference|
        ensures !Better(registry.Categorize(preference[j]), registry.Categorize(preference[i]))
      {
        assert registry.RankOf(preference[i]) <= registry.RankOf(preference[j]);
      }
    } else {
      var i, j :| 0 <= i < j < |preference| && registry.RankOf(preference[i]) > registry.RankOf(preference[j]);
      assert Better(registry.Categorize(preference[j]), registry.Categorize(preference[i]));
    }
  }

  // And the first inversion is a suite before one of a better category.
  lemma InversionIsWorse(registry: Registry, preference: seq<Word>)
    requires !InPolicyOrder(registry, preference)
    ensures var (worse, better) := OutOfOrder(registry, preference);
      Better(registry.Categorize(better), registry.Categorize(worse))
  {
    OutOfOrderExact(registry, preference);
    var (worse, better) := OutOfOrder(registry, preference);
    RankIsOrder(registry.Categorize(better), registry.Categorize(worse));
  }

  // The first inversion, by the place of the suite preferred and then by the place of the
  // better one.
  ghost predicate IsFirstInversion(registry: Registry, preference: seq<Word>, i: int, j: int) {
    && 0 <= i < j < |preference|
    && registry.RankOf(preference[j]) < registry.RankOf(preference[i])
    && (forall k :: i < k < j ==> registry.RankOf(preference[i]) <= registry.RankOf(preference[k]))
    && (forall h, k :: 0 <= h < i && h < k < |preference| ==>
      registry.RankOf(preference[h]) <= registry.RankOf(preference[k]))
  }

  // The pair of suites at the first inversion.
  ghost predicate IsFirstPair(registry: Registry, preference: seq<Word>, pair: (Word, Word)) {
    exists i, j :: IsFirstInversion(registry, preference, i, j) && pair == (preference[i], preference[j])
  }

  function FirstBelow(registry: Registry, rank: nat, ids: seq<Word>): Option<Word> {
    if ids == [] then None
    else if registry.RankOf(ids[0]) < rank then Some(ids[0])
    else FirstBelow(registry, rank, ids[1..])
  }

  function OutOfOrder(registry: Registry, preference: seq<Word>): (Word, Word) {
    if preference == [] then (0, 0) else
    var better := FirstBelow(registry, registry.RankOf(preference[0]), preference[1..]);
    if better.Some? then (preference[0], better.value) else OutOfOrder(registry, preference[1..])
  }

  lemma {:induction false} FirstBelowIs(registry: Registry, rank: nat, ids: seq<Word>) returns (j: nat)
    ensures FirstBelow(registry, rank, ids).None? ==> forall k :: 0 <= k < |ids| ==> rank <= registry.RankOf(ids[k])
    ensures FirstBelow(registry, rank, ids).Some? ==>
      && j < |ids| && ids[j] == FirstBelow(registry, rank, ids).value
      && registry.RankOf(ids[j]) < rank
      && forall k :: 0 <= k < j ==> rank <= registry.RankOf(ids[k])
  {
    j := 0;
    if ids != [] && registry.RankOf(ids[0]) >= rank {
      var later := FirstBelowIs(registry, rank, ids[1..]);
      j := later + 1;
    }
  }

  // Nothing is reported for a list in policy order, and for any other exactly its first
  // inversion.
  lemma {:induction false} OutOfOrderExact(registry: Registry, preference: seq<Word>)
    ensures if InPolicyOrder(registry, preference) then
        OutOfOrder(registry, preference) == (0, 0)
      else
        IsFirstPair(registry, preference, OutOfOrder(registry, preference))
  {
    if preference != [] {
      var rank := registry.RankOf(preference[0]);
      var rest := preference[1..];
      var at := FirstBelowIs(registry, rank, rest);
      if FirstBelow(registry, rank, rest).Some? {
        assert preference[at + 1] == rest[at];
        assert forall k :: 0 < k < at + 1 ==> preference[k] == rest[k - 1];
        assert IsFirstInversion(registry, preference, 0, at + 1);
      } else {
        OutOfOrderExact(registry, rest);
        assert forall k :: 0 < k < |preference| ==> preference[k] == rest[k - 1];
        if !InPolicyOrder(registry, rest) {
          var i, j :| IsFirstInversion(registry, rest, i, j)
            && OutOfOrder(registry, rest) == (rest[i], rest[j]);
          InversionShifts(registry, preference, i, j);
        }
      }
    }
  }

  // An inversion behind a suite that nothing outranks is the first of the whole list.
  lemma InversionShifts(registry: Registry, preference: seq<Word>, i: int, j: int)
    requires preference != [] && IsFirstInversion(registry, preference[1..], i, j)
    requires FirstBelow(registry, registry.RankOf(preference[0]), preference[1..]).None?
    ensures IsFirstInversion(registry, preference, i + 1, j + 1)
    ensures (preference[i + 1], preference[j + 1]) == (preference[1..][i], preference[1..][j])
  {
    var rest := preference[1..];
    var _ := FirstBelowIs(registry, registry.RankOf(preference[0]), rest);
    assert forall k :: 0 < k < |preference| ==> preference[k] == rest[k - 1];
  }

  method FirstOutOfOrder(registry: Registry, preference: seq<Word>) returns (worse: Word, better: Word)
    ensures (worse, better) == OutOfOrder(registry, preference)
  {
    for index := 0 to |preference|
      invariant OutOfOrder(registry, preference) == OutOfOrder(registry, preference[index..])
    {
      var current := preference[index];
      var currentRank := registry.RankOf(current);
      var after := preference[index + 1..];
      assert preference[index..][0] == current && preference[index..][1..] == after;
      for k := 0 to |after|
        invariant FirstBelow(registry, currentRank, after) == FirstBelow(registry, currentRank, after[k..])
      {
        var later := after[k];
        assert after[k..][0] == later && after[k..][1..] == after[k + 1..];
        if registry.RankOf(later) < currentRank {
          return current, later;
        }
      }
      assert after[|after|..] == [];
    }
    assert preference[|preference|..] == [];
    worse, better := 0, 0;
  }

  // --- The probe ---------------------------------------------------------------------------

  function OrderProbe(ctx: Context, w: World, accepted: seq<Version>): (Order, World) {
    var version := NewestBelow(accepted, VERSION_TLS13);
    if version.None? then (Order(false, None, None, 0), w) else
    var suites := version.value.cipherSuites;
    if |suites| < 2 then (Order(true, Some(true), None, 0), w) else
    var (forward, w1) := Ask(ctx, w, Asking(ctx, version.value.version, suites), 0);
    if !forward.Got? || forward.flight.serverHello.None? then
      (Order(true, None, None, 0), w1.Noting("cipher_suite_order", ORDER_FIRST))
    else
      var (backward, w2) := Ask(ctx, w1, Asking(ctx, version.value.version, Reverse(suites)), 0);
      if !backward.Got? || backward.flight.serverHello.None? then
        (Order(true, None, None, 0), w2.Noting("cipher_suite_order", ORDER_SECOND))
      else
        var enforces := forward.flight.serverHello.value.cipherSuite == backward.flight.serverHello.value.cipherSuite;
        var (worse, better) := OutOfOrder(ctx.registry, suites);
        if enforces && worse != 0 then
          (Order(true, Some(true), Some((worse, better)), version.value.version), w2)
        else
          (Order(true, Some(enforces), None, 0), w2)
  }

  method ProbeOrder(prober: Prober, accepted: seq<Version>) returns (order: Order)
    requires prober.Valid()
    modifies prober
    ensures (order, prober.State()) == OrderProbe(prober.ctx, old(prober.State()), accepted)
  {
    var version := BelowTls13(accepted);
    if version.None? {
      return Order(false, None, None, 0);
    }
    order := Order(true, None, None, 0);
    var suites := version.value.cipherSuites;
    if |suites| < 2 {
      order := order.(serverEnforces := Some(true));
      return;
    }
    var name := prober.settings.serverName;
    var forward := prober.HandshakeWithRetry(BaseHello(name, version.value.version, suites));
    if !forward.Got? || forward.flight.serverHello.None? {
      prober.NoteIncomplete("cipher_suite_order", ORDER_FIRST);
      return;
    }
    var reversedSuites := Reversed(suites);
    var backward := prober.HandshakeWithRetry(BaseHello(name, version.value.version, reversedSuites));
    if !backward.Got? || backward.flight.serverHello.None? {
      prober.NoteIncomplete("cipher_suite_order", ORDER_SECOND);
      return;
    }
    var enforces := forward.flight.serverHello.value.cipherSuite == backward.flight.serverHello.value.cipherSuite;
    order := order.(serverEnforces := Some(enforces));
    if enforces {
      var worse, better := FirstOutOfOrder(prober.registry, suites);
      if worse != 0 {
        order := order.(violation := Some((worse, better)), violationVersion := version.value.version);
      }
    }
  }

  // --- What it finds out ---------------------------------------------------------------------

  lemma {:induction false} ReverseMembers(ids: seq<Word>)
    ensures forall id :: id in Reverse(ids) <==> id in ids
    ensures Distinct(ids) ==> Distinct(Reverse(ids))
    ensures ids != [] ==> Reverse(ids)[0] == ids[|ids| - 1]
  {
    if ids != [] {
      ReverseMembers(ids[1..]);
      assert ids == [ids[0]] + ids[1..];
    }
    forall k | 0 <= k < |ids| ensures Reverse(ids)[k] == ids[|ids| - 1 - k] {
      ReverseAt(ids, |ids| - 1 - k);
    }
  }

  lemma {:induction false} RestrictAll(ids: seq<Word>, allowed: seq<Word>)
    requires forall id :: id in ids ==> id in allowed
    ensures Restrict(ids, allowed) == ids
  {
    if ids != [] {
      RestrictAll(ids[1..], allowed);
    }
  }

  // Offered what it accepts, in any order, a server with its own order ranks it the same,
  // and one that follows the client ranks it as it was offered.
  lemma RankingAgain(rule: Rule, offer: seq<Word>, again: seq<Word>)
    requires Distinct(rule.list) && Distinct(offer)
    requires forall id :: id in again <==> id in rule.Ranking(offer)
    ensures rule.Ranking(again) == if rule.OwnOrder? then rule.Ranking(offer) else again
  {
    RankingSize(rule, offer);
    if rule.OwnOrder? {
      RestrictCongruent(rule.list, again, offer);
    } else {
      RestrictAll(again, rule.list);
    }
  }

  // Asked a question of an answering server's own suites, at the cost of one connection.
  lemma AskFollowed(ctx: Context, w: World, version: Word, rule: Rule, suites: seq<Word>)
    requires Follows(ctx, version, rule) && Askable(ctx, version, suites)
    requires rule.Ranking(suites) != []
    requires ctx.settings.retryLimit >= 0 && w.spent + 1 <= ctx.settings.maxConnections
    ensures var (outcome, w') := Ask(ctx, w, Asking(ctx, version, suites), 0);
      && outcome.Got? && outcome.flight.serverHello.Some?
      && outcome.flight.serverHello.value.cipherSuite == rule.Ranking(suites)[0]
      && w' == Spent(w, 1)
  {
    var hello := Asking(ctx, version, suites);
    assert Chooses(ctx.reply(w.spent + 1, hello), version, rule.Ranking(suites));
    AskAnswered(ctx, w, hello);
  }

  // The two ordering questions, each answered with the best of what it offered.
  lemma OrderAnswered(ctx: Context, w: World, accepted: seq<Version>, v: Version, rule: Rule)
    requires Follows(ctx, v.version, rule)
    requires NewestBelow(accepted, VERSION_TLS13) == Some(v) && |v.cipherSuites| >= 2
    requires Askable(ctx, v.version, v.cipherSuites) && rule.Ranking(v.cipherSuites) != []
    requires Askable(ctx, v.version, Reverse(v.cipherSuites)) && rule.Ranking(Reverse(v.cipherSuites)) != []
    requires ctx.settings.retryLimit >= 0 && w.spent + 2 <= ctx.settings.maxConnections
    ensures var enforces := rule.Ranking(v.cipherSuites)[0] == rule.Ranking(Reverse(v.cipherSuites))[0];
      var pair := OutOfOrder(ctx.registry, v.cipherSuites);
      OrderProbe(ctx, w, accepted) ==
        (if enforces && pair.0 != 0 then Order(true, Some(true), Some(pair), v.version)
         else Order(true, Some(enforces), None, 0),
         Spent(w, 2))
  {
    AskFollowed(ctx, w, v.version, rule, v.cipherSuites);
    AskFollowed(ctx, Spent(w, 1), v.version, rule, Reverse(v.cipherSuites));
  }

  // The suites found are askable again, forwards and backwards, and how the rule ranks
  // them then tells the two kinds of server apart.
  lemma FoundSuites(ctx: Context, version: Word, rule: Rule, suites: seq<Word>)
    requires ctx.registry.Valid() && Distinct(rule.list)
    requires suites == rule.Ranking(ctx.registry.ForVersion(version)) && |suites| >= 2
    ensures Askable(ctx, version, suites) && Askable(ctx, version, Reverse(suites))
    ensures rule.Ranking(suites) == suites
    ensures rule.Ranking(Reverse(suites)) != []
    ensures rule.Ranking(suites)[0] == rule.Ranking(Reverse(suites))[0] <==> rule.OwnOrder?
    ensures 0 !in suites
  {
    var offer := ctx.registry.ForVersion(version);
    ForVersionExact(ctx.registry, version);
    RankingSize(rule, offer);
    ReverseMembers(suites);
    RankingAgain(rule, offer, suites);
    RankingAgain(rule, offer, Reverse(suites));
  }

  // The verdict on a server that chooses by a rule, from the suites an enumeration found.
  // One with its own order is found out to have one, and is reported exactly when that
  // order goes against the policy, at the first place where it does. One that follows the
  // client is found out to, and nothing is reported.
  lemma OrderOfRule(ctx: Context, w: World, accepted: seq<Version>, v: Version, rule: Rule)
    requires ctx.registry.Valid() && Distinct(rule.list) && Follows(ctx, v.version, rule)
    requires NewestBelow(accepted, VERSION_TLS13) == Some(v)
    requires v.cipherSuites == rule.Ranking(ctx.registry.ForVersion(v.version)) && |v.cipherSuites| >= 2
    requires ctx.settings.retryLimit >= 0 && w.spent + 2 <= ctx.settings.maxConnections
    ensures var (order, w') := OrderProbe(ctx, w, accepted);
      && order.applicable
      && order.serverEnforces == Some(rule.OwnOrder?)
      && (order.violation.Some? <==> rule.OwnOrder? && !InPolicyOrder(ctx.registry, v.cipherSuites))
      && (order.violation.Some? ==> order.violationVersion == v.version)
      && (order.violation.Some? ==> IsFirstPair(ctx.registry, v.cipherSuites, order.violation.value))
      && w' == Spent(w, 2)
  {
    FoundSuites(ctx, v.version, rule, v.cipherSuites);
    OrderAnswered(ctx, w, accepted, v, rule);
    OutOfOrderExact(ctx.registry, v.cipherSuites);
  }

  // From the version scan to the verdict. The server is asked at a version, the suites it
  // accepts are enumerated, and where none of the other versions accepted below TLS 1.3 is
  // newer, the order of its own list, or its having none, decides what is reported.
  lemma EndToEnd(ctx: Context, w: World, version: Word, rule: Rule, others: seq<Version>)
    requires ctx.registry.Valid() && Distinct(rule.list) && Follows(ctx, version, rule)
    requires version < VERSION_TLS13
    requires ctx.settings.retryLimit >= 0
    requires |rule.Ranking(ctx.registry.ForVersion(version))| >= 2
    requires w.spent + RoundsNeeded(rule, ctx.registry.ForVersion(version)) + 2 <= ctx.settings.maxConnections
    requires forall other :: other in others ==> other.version < version || other.version >= VERSION_TLS13
    ensures var (v, w1) := VersionProbe(ctx, w, version);
      var (order, w2) := OrderProbe(ctx, w1, others + [v]);
      && v.version == version && v.accepted && v.cipherSuitesComplete
      && order.serverEnforces == Some(rule.OwnOrder?)
      && (order.violation.Some? <==>
        rule.OwnOrder? && !InPolicyOrder(ctx.registry, Restrict(rule.list, ctx.registry.ForVersion(version))))
      && (rule.ClientOrder? ==> StrictlyAscending(v.cipherSuites))
      && w2.incomplete == w.incomplete
  {
    var offer := ctx.registry.ForVersion(version);
    ForVersionExact(ctx.registry, version);
    RankingSize(rule, offer);
    if offer == [] {
      NothingToRank(rule);
    }
    VersionProbeExact(ctx, w, version, rule);
    VersionKept(ctx, w, version);
    var (v, w1) := VersionProbe(ctx, w, version);
    assert rule.Ranking(offer)[0] in rule.Ranking(offer);
    NewestLast(others, v);
    OrderOfRule(ctx, w1, others + [v], v, rule);
    if rule.ClientOrder? {
      FoundInCatalogueOrder(offer, rule.list);
    }
  }

  // With fewer than two suites there is no order to have, and nothing is asked; without a
  // version below TLS 1.3 there is nothing to ask about.
  lemma NothingToOrder(ctx: Context, w: World, accepted: seq<Version>)
    ensures var (order, w') := OrderProbe(ctx, w, accepted);
      var version := NewestBelow(accepted, VERSION_TLS13);
      && (version.None? ==> !order.applicable && order.serverEnforces.None? && order.violation.None? && w' == w)
      && (version.Some? && |version.value.cipherSuites| < 2 ==>
        order.applicable && order.serverEnforces == Some(true) && order.violation.None? && w' == w)
      && (version.Some? && |version.value.cipherSuites| >= 2 && ctx.settings.retryLimit >= 0 ==> w'.spent > w.spent)
  {
    var version := NewestBelow(accepted, VERSION_TLS13);
    if version.Some? && |version.value.cipherSuites| >= 2 {
      var suites := version.value.cipherSuites;
      AskSpends(ctx, w, Asking(ctx, version.value.version, suites), 0);
      var w1 := Ask(ctx, w, Asking(ctx, version.value.version, suites), 0).1;
      AskSpends(ctx, w1, Asking(ctx, version.value.version, Reverse(suites)), 0);
      if ctx.settings.retryLimit >= 0 {
        AskCosts(ctx, w, Asking(ctx, version.value.version, suites));
      }
    }
  }

  lemma AskCosts(ctx: Context, w: World, hello: ClientHellos.ClientHello)
    requires ctx.settings.retryLimit >= 0
    ensures Ask(ctx, w, hello, 0).1.spent > w.spent
  {
    var (ok, w1) := Take(ctx, w);
    if ok && ctx.reply(w1.spent, hello) == Lost(true) {
      AskSpends(ctx, w1, hello, 1);
    }
  }

  lemma NewestLast(others: seq<Version>, v: Version)
    requires v.version < VERSION_TLS13
    requires forall other :: other in others ==> other.version < v.version || other.version >= VERSION_TLS13
    ensures NewestBelow(others + [v], VERSION_TLS13) == Some(v)
  {
    NewestBelowIs(others, VERSION_TLS13);
    assert (others + [v])[..|others|] == others;
  }

  lemma VersionKept(ctx: Context, w: World, version: Word)
    ensures VersionProbe(ctx, w, version).0.version == version
  {
  }

  // Whatever the server does, a reported violation is one: the server picked the same
  // suite both times, and the list it was read from has that pair as its first inversion.
  lemma ViolationIsReal(ctx: Context, w: World, accepted: seq<Version>)
    requires OrderProbe(ctx, w, accepted).0.violation.Some?
    ensures NewestBelow(accepted, VERSION_TLS13).Some?
    ensures var order, v := OrderProbe(ctx, w, accepted).0, NewestBelow(accepted, VERSION_TLS13).value;
      && order.serverEnforces == Some(true)
      && order.violationVersion == v.version
      && IsFirstPair(ctx.registry, v.cipherSuites, order.violation.value)
  {
    var v := NewestBelow(accepted, VERSION_TLS13).value;
    OutOfOrderExact(ctx.registry, v.cipherSuites);
  }
}
