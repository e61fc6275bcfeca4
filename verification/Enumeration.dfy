/**
 What an enumeration of cipher suites finds out (pkg/tls/probe/version.go): something
 sound about every server, and exactly the right thing about the two kinds of server
 the protocol knows, one with its own preference and one that follows the client's.
 */
module Enumerations {
  import opened Bytes
  import opened ServerHellos
  import opened Flights
  import opened Suites
  import opened Probing

  // --- Every server ---------------------------------------------------------------------

  // Asking only spends: nothing is noted, and an answer is the server's on the last
  // connection taken.
  lemma {:induction false} AskSpends(ctx: Context, w: World, hello: ClientHellos.ClientHello, attempt: nat)
    ensures var (outcome, w') := Ask(ctx, w, hello, attempt);
      && w'.spent >= w.spent
      && w'.incomplete == w.incomplete
      && (outcome.Exhausted? ==> w'.spent > ctx.settings.Budget())
      && (outcome.Got? ==> w'.spent > w.spent && ctx.reply(w'.spent, hello) == Heard(outcome.flight))
    decreases ctx.settings.retryLimit - attempt
  {
    if attempt <= ctx.settings.retryLimit {
      var (ok, w1) := Take(ctx, w);
      if ok && ctx.reply(w1.spent, hello) == Lost(true) {
        AskSpends(ctx, w1, hello, attempt + 1);
      }
    }
  }

  // The members of one list that are not in another, in the order of the first.
  function Minus(ids: seq<Word>, gone: seq<Word>): seq<Word> {
    if ids == [] then [] else (if ids[0] in gone then [] else [ids[0]]) + Minus(ids[1..], gone)
  }

  predicate Declined(flight: Flight) {
    flight.Refused() || flight.serverHello.None?
  }

  lemma {:induction false} IndexInMeans(ids: seq<Word>, id: Word)
    ensures var i := IndexIn(ids, id);
      if i < 0 then id !in ids else ids[i] == id
  {
    if ids != [] && ids[0] != id {
      IndexInMeans(ids[1..], id);
    }
  }

  lemma RemoveKeeps(ids: seq<Word>, i: nat)
    requires i < |ids| && Distinct(ids)
    ensures Distinct(Remove(ids, i))
    ensures multiset(Remove(ids, i)) + multiset{ids[i]} == multiset(ids)
    ensures forall id :: id in Remove(ids, i) <==> id in ids && id != ids[i]
  {
    var a, x, b := ids[..i], ids[i], ids[i + 1..];
    assert ids == a + [x] + b;
    assert x !in a && x !in b;
    RemoveDistinct(ids, i);
  }

  lemma RemoveDistinct(ids: seq<Word>, i: nat)
    requires i < |ids| && Distinct(ids)
    ensures Distinct(Remove(ids, i))
  {
    var rest := Remove(ids, i);
    forall j, k | 0 <= j < k < |rest| ensures rest[j] != rest[k] {
      assert rest[j] == ids[if j < i then j else j + 1] && rest[k] == ids[if k < i then k else k + 1];
    }
  }

  lemma {:induction false} MinusAppend(a: seq<Word>, b: seq<Word>, gone: seq<Word>)
    ensures Minus(a + b, gone) == Minus(a, gone) + Minus(b, gone)
  {
    if a == [] {
      assert a + b == b;
    } else {
      MinusAppend(a[1..], b, gone);
      assert (a + b)[0] == a[0] && (a + b)[1..] == a[1..] + b;
      Associate(if a[0] in gone then [] else [a[0]], Minus(a[1..], gone), Minus(b, gone));
    }
  }

  lemma {:induction false} MinusNothing(ids: seq<Word>, gone: seq<Word>)
    requires forall id :: id in ids ==> id !in gone
    ensures Minus(ids, gone) == ids
  {
    if ids != [] {
      MinusNothing(ids[1..], gone);
    }
  }

  // Deleting an accepted suite makes no difference to what is left unaccepted.
  lemma MinusRemove(ids: seq<Word>, i: nat, gone: seq<Word>)
    requires i < |ids| && ids[i] in gone
    ensures Minus(Remove(ids, i), gone) == Minus(ids, gone)
  {
    var a, b := ids[..i], ids[i + 1..];
    assert ids == a + ([ids[i]] + b);
    MinusAppend(a, [ids[i]] + b, gone);
    MinusAppend([ids[i]], b, gone);
    MinusAppend(a, b, gone);
    assert Minus([ids[i]], gone) == [] + Minus([], gone);
  }

  // What is true of an enumeration whatever the server does, remembers or gets wrong.
  // The picks and what is left divide what was to be offered, without duplicates and
  // keeping its order; the answer is called incomplete exactly when a phase was noted;
  // and it is called complete only when nothing was left, or when exactly what was left
  // had been offered and declined.
  ghost predicate Sound(
    ctx: Context, w: World, version: Word, remaining: seq<Word>, accepted: seq<Word>,
    result: (seq<Word>, bool, seq<Word>, World))
  {
    var (list, complete, left, w') := result;
    && accepted <= list
    && Distinct(list)
    && left == Minus(remaining, list)
    && multiset(list[|accepted|..]) + multiset(left) == multiset(remaining)
    && (complete <==> w'.incomplete == w.incomplete)
    && (!complete ==> exists reason :: w'.incomplete == w.incomplete + [Phase("cipher_suites", reason)])
    && (complete && left != [] ==>
      var reply := ctx.reply(w'.spent, Asking(ctx, version, left));
      reply.Heard? && Declined(reply.flight))
  }

  lemma {:induction false} RoundsSound(ctx: Context, w: World, version: Word, remaining: seq<Word>, accepted: seq<Word>)
    requires Distinct(remaining) && Distinct(accepted)
    requires forall id :: id in remaining ==> id !in accepted
    ensures Sound(ctx, w, version, remaining, accepted, Rounds(ctx, w, version, remaining, accepted))
    decreases |remaining|
  {
    if remaining != [] && Picks(ctx, w, version, remaining).Some? {
      var index := Picks(ctx, w, version, remaining).value;
      var picked := remaining[index];
      var w1 := Ask(ctx, w, Asking(ctx, version, remaining), 0).1;
      RoundGoesOn(ctx, w, version, remaining, accepted);
      RemoveKeeps(remaining, index);
      PickIsNew(accepted, picked);
      RoundsSound(ctx, w1, version, Remove(remaining, index), accepted + [picked]);
      SoundStep(ctx, w, w1, version, remaining, index, accepted,
                Rounds(ctx, w1, version, Remove(remaining, index), accepted + [picked]));
    } else {
      RoundEnds(ctx, w, version, remaining, accepted);
    }
  }

  // Where in what remains the pick of the next round stands, if there is one.
  function Picks(ctx: Context, w: World, version: Word, remaining: seq<Word>): (index: Option<nat>)
    ensures index.Some? ==> index.value < |remaining|
  {
    var outcome := Ask(ctx, w, Asking(ctx, version, remaining), 0).0;
    if !outcome.Got? || Declined(outcome.flight) then None else
    var i := IndexIn(remaining, outcome.flight.serverHello.value.cipherSuite);
    if i < 0 then None else Some(i)
  }

  lemma RoundGoesOn(ctx: Context, w: World, version: Word, remaining: seq<Word>, accepted: seq<Word>)
    requires remaining != [] && Picks(ctx, w, version, remaining).Some?
    ensures var i := Picks(ctx, w, version, remaining).value;
      var w1 := Ask(ctx, w, Asking(ctx, version, remaining), 0).1;
      && w1.incomplete == w.incomplete
      && Rounds(ctx, w, version, remaining, accepted)
        == Rounds(ctx, w1, version, Remove(remaining, i), accepted + [remaining[i]])
  {
    AskSpends(ctx, w, Asking(ctx, version, remaining), 0);
    var outcome := Ask(ctx, w, Asking(ctx, version, remaining), 0).0;
    IndexInMeans(remaining, outcome.flight.serverHello.value.cipherSuite);
  }

  lemma RoundEnds(ctx: Context, w: World, version: Word, remaining: seq<Word>, accepted: seq<Word>)
    requires remaining == [] || Picks(ctx, w, version, remaining).None?
    requires Distinct(remaining) && Distinct(accepted)
    requires forall id :: id in remaining ==> id !in accepted
    ensures Sound(ctx, w, version, remaining, accepted, Rounds(ctx, w, version, remaining, accepted))
  {
    assert accepted[|accepted|..] == [];
    MinusNothing(remaining, accepted);
    AskSpends(ctx, w, Asking(ctx, version, remaining), 0);
  }

  lemma PickListed(accepted: seq<Word>, picked: Word, list: seq<Word>)
    requires accepted + [picked] <= list
    ensures accepted <= list && picked in list
    ensures list[|accepted|..] == [picked] + list[|accepted| + 1..]
  {
    assert list[|accepted|] == (accepted + [picked])[|accepted|] == picked;
  }

  lemma PickDivides(remaining: seq<Word>, i: nat, later: seq<Word>, left: seq<Word>)
    requires i < |remaining| && Distinct(remaining)
    requires multiset(later) + multiset(left) == multiset(Remove(remaining, i))
    ensures multiset([remaining[i]] + later) + multiset(left) == multiset(remaining)
  {
    RemoveKeeps(remaining, i);
  }

  // A round that picked leaves sound what is sound of the rounds after it.
  lemma SoundStep(
    ctx: Context, w: World, w1: World, version: Word, remaining: seq<Word>, i: nat, accepted: seq<Word>,
    result: (seq<Word>, bool, seq<Word>, World))
    requires i < |remaining| && Distinct(remaining) && w1.incomplete == w.incomplete
    requires Sound(ctx, w1, version, Remove(remaining, i), accepted + [remaining[i]], result)
    ensures Sound(ctx, w, version, remaining, accepted, result)
  {
    var list, left := result.0, result.2;
    PickListed(accepted, remaining[i], list);
    PickDivides(remaining, i, list[|accepted| + 1..], left);
    MinusRemove(remaining, i, list);
  }

  lemma PickIsNew(accepted: seq<Word>, picked: Word)
    requires Distinct(accepted) && picked !in accepted
    ensures Distinct(accepted + [picked])
  {
  }

  lemma {:induction false} WithoutIs(ids: seq<Word>, id: Word)
    requires Distinct(ids)
    ensures Distinct(Without(ids, id))
    ensures forall x :: x in Without(ids, id) <==> x in ids && x != id
    ensures |Without(ids, id)| == if id in ids then |ids| - 1 else |ids|
  {
    if ids != [] {
      var n := |ids| - 1;
      WithoutIs(ids[..n], id);
      assert ids == ids[..n] + [ids[n]];
      assert ids[n] !in ids[..n];
    }
  }

  // The same of enumerate itself: it starts from the version's offer without the first
  // pick, and that pick heads what it returns, offered or not.
  lemma EnumerationSound(ctx: Context, w: World, version: Word, firstPick: Word)
    requires ctx.registry.Valid()
    ensures Sound(ctx, w, version, Without(ctx.registry.ForVersion(version), firstPick), [firstPick],
                  Enumeration(ctx, w, version, firstPick))
    ensures forall id :: id in Enumeration(ctx, w, version, firstPick).0 ==>
      id == firstPick || id in ctx.registry.ForVersion(version)
  {
    var offer := ctx.registry.ForVersion(version);
    var remaining := Without(offer, firstPick);
    ForVersionExact(ctx.registry, version);
    WithoutIs(offer, firstPick);
    RoundsSound(ctx, w, version, remaining, [firstPick]);
    var list := Enumeration(ctx, w, version, firstPick).0;
    forall id | id in list ensures id == firstPick || id in offer {
      var k :| 0 <= k < |list| && list[k] == id;
      if k > 0 {
        assert list[1..][k - 1] == id;
        assert id in multiset(list[1..]);
        assert id in multiset(remaining);
      }
    }
  }

  // --- Servers that choose by a rule -------------------------------------------------------

  // The members of one list that are in another, in the order of the first.
  function Restrict(ids: seq<Word>, allowed: seq<Word>): seq<Word> {
    if ids == [] then [] else (if ids[0] in allowed then [ids[0]] else []) + Restrict(ids[1..], allowed)
  }

  // A server picks the first suite of its own list that it was offered, or the first it
  // was offered that is on its list.
  datatype Rule = OwnOrder(list: seq<Word>) | ClientOrder(list: seq<Word>) {
    // What it would take of an offer, best first.
    function Ranking(offered: seq<Word>): seq<Word> {
      if OwnOrder? then Restrict(list, offered) else Restrict(offered, list)
    }
  }

  ghost predicate Chooses(reply: Reply, version: Word, ranking: seq<Word>) {
    && reply.Heard?
    && if ranking == [] then
         Declined(reply.flight)
       else
         && !Declined(reply.flight)
         && reply.flight.serverHello.value.version == version
         && reply.flight.serverHello.value.cipherSuite == ranking[0]
  }

  // Whatever connection it is asked on, and whatever part of the version's suites it is
  // offered in whatever order, the server answers and chooses by the rule.
  ghost predicate Follows(ctx: Context, version: Word, rule: Rule) {
    forall n, suites :: Askable(ctx, version, suites) ==>
      Chooses(ctx.reply(n, Asking(ctx, version, suites)), version, rule.Ranking(suites))
  }

  ghost predicate Askable(ctx: Context, version: Word, suites: seq<Word>) {
    && suites != []
    && Distinct(suites)
    && forall id :: id in suites ==> id in ctx.registry.ForVersion(version)
  }

  lemma {:induction false} RestrictIs(ids: seq<Word>, allowed: seq<Word>)
    requires Distinct(ids)
    ensures Distinct(Restrict(ids, allowed))
    ensures forall id :: id in Restrict(ids, allowed) <==> id in ids && id in allowed
  {
    if ids != [] {
      RestrictIs(ids[1..], allowed);
      assert ids[0] !in ids[1..];
      assert ids == [ids[0]] + ids[1..];
    }
  }

  lemma {:induction false} RestrictCongruent(ids: seq<Word>, a: seq<Word>, b: seq<Word>)
    requires forall id :: id in ids ==> (id in a <==> id in b)
    ensures Restrict(ids, a) == Restrict(ids, b)
  {
    if ids != [] {
      RestrictCongruent(ids[1..], a, b);
    }
  }

  lemma {:induction false} RestrictAppend(a: seq<Word>, b: seq<Word>, allowed: seq<Word>)
    ensures Restrict(a + b, allowed) == Restrict(a, allowed) + Restrict(b, allowed)
  {
    if a == [] {
      assert a + b == b;
    } else {
      RestrictAppend(a[1..], b, allowed);
      assert (a + b)[0] == a[0] && (a + b)[1..] == a[1..] + b;
      Associate(if a[0] in allowed then [a[0]] else [], Restrict(a[1..], allowed), Restrict(b, allowed));
    }
  }

  // Taking the head of a restriction out of the allowed list leaves the rest of it.
  lemma {:induction false} RestrictWithoutHead(ids: seq<Word>, allowed: seq<Word>, less: seq<Word>)
    requires Distinct(ids) && Restrict(ids, allowed) != []
    requires forall id :: id in less <==> id in allowed && id != Restrict(ids, allowed)[0]
    ensures Restrict(ids, less) == Restrict(ids, allowed)[1..]
  {
    var head := Restrict(ids, allowed)[0];
    if ids[0] in allowed {
      assert head == ids[0];
      assert ids[0] !in ids[1..];
      RestrictCongruent(ids[1..], less, allowed);
    } else {
      RestrictWithoutHead(ids[1..], allowed, less);
    }
  }

  // Taking it out of the list that is restricted leaves the rest of it too.
  lemma {:induction false} RestrictRemove(ids: seq<Word>, allowed: seq<Word>, i: nat)
    requires Distinct(ids) && Restrict(ids, allowed) != []
    requires i < |ids| && ids[i] == Restrict(ids, allowed)[0]
    ensures Restrict(Remove(ids, i), allowed) == Restrict(ids, allowed)[1..]
  {
    if i == 0 {
      RestrictIs(ids, allowed);
      assert ids[0] in Restrict(ids, allowed);
      assert Remove(ids, 0) == ids[1..];
    } else {
      assert ids[0] !in allowed;
      RestrictRemove(ids[1..], allowed, i - 1);
      RemoveInTail(ids, i);
    }
  }

  lemma RemoveInTail(ids: seq<Word>, i: nat)
    requires 0 < i < |ids|
    ensures Remove(ids, i)[0] == ids[0] && Remove(ids, i)[1..] == Remove(ids[1..], i - 1)
  {
  }

  lemma RankingShrinks(rule: Rule, offered: seq<Word>)
    requires Distinct(offered) && Distinct(rule.list) && rule.Ranking(offered) != []
    ensures var i := IndexIn(offered, rule.Ranking(offered)[0]);
      i >= 0 && rule.Ranking(Remove(offered, i)) == rule.Ranking(offered)[1..]
  {
    var ranking := rule.Ranking(offered);
    var i := IndexIn(offered, ranking[0]);
    IndexInMeans(offered, ranking[0]);
    RestrictIs(rule.list, offered);
    RestrictIs(offered, rule.list);
    assert ranking[0] in ranking;
    RemoveKeeps(offered, i);
    if rule.OwnOrder? {
      RestrictWithoutHead(rule.list, offered, Remove(offered, i));
    } else {
      RestrictRemove(offered, rule.list, i);
    }
  }

  lemma RankingSize(rule: Rule, offered: seq<Word>)
    requires Distinct(offered) && Distinct(rule.list)
    ensures Distinct(rule.Ranking(offered))
    ensures forall id :: id in rule.Ranking(offered) <==> id in offered && id in rule.list
    ensures |rule.Ranking(offered)| <= |offered|
    ensures |rule.Ranking(offered)| == |offered| <==> forall id :: id in offered ==> id in rule.list
  {
    RestrictIs(rule.list, offered);
    RestrictIs(offered, rule.list);
    var ranking := rule.Ranking(offered);
    SetSize(ranking);
    SetSize(offered);
    assert Ids(ranking) <= Ids(offered);
    if |ranking| == |offered| {
      SubsetEqual(Ids(ranking), Ids(offered));
      assert forall id :: id in offered ==> id in Ids(ranking);
    }
    if forall id :: id in offered ==> id in rule.list {
      assert Ids(ranking) == Ids(offered);
    }
    SubsetSize(Ids(ranking), Ids(offered));
  }

  function Ids(s: seq<Word>): set<Word> {
    set id | id in s
  }

  lemma {:induction false} SetSize(s: seq<Word>)
    requires Distinct(s)
    ensures |Ids(s)| == |s|
  {
    if s != [] {
      SetSize(s[1..]);
      assert s == [s[0]] + s[1..];
      assert Ids(s) == {s[0]} + Ids(s[1..]);
      assert s[0] !in s[1..];
    }
  }

  lemma SubsetSize(a: set<Word>, b: set<Word>)
    requires a <= b
    ensures |a| <= |b|
  {
    assert b == a + (b - a);
  }

  lemma SubsetEqual(a: set<Word>, b: set<Word>)
    requires a <= b && |a| == |b|
    ensures a == b
  {
    assert b == a + (b - a);
    assert |b - a| == 0;
  }

  // A question a server that answers is asked costs one connection.
  lemma AskAnswered(ctx: Context, w: World, hello: ClientHellos.ClientHello)
    requires ctx.settings.retryLimit >= 0 && w.spent + 1 <= ctx.settings.maxConnections
    requires ctx.reply(w.spent + 1, hello).Heard?
    ensures Ask(ctx, w, hello, 0) ==
      (Got(ctx.reply(w.spent + 1, hello).flight), Spent(w, 1))
  {
  }

  // One more round than there are suites to accept, unless that leaves none to offer.
  function RoundsNeeded(rule: Rule, offered: seq<Word>): nat {
    var n := |rule.Ranking(offered)|;
    if n < |offered| then n + 1 else n
  }

  function Spent(w: World, n: nat): World {
    w.(spent := w.spent + n, granted := w.granted + n)
  }

  // One round of a server that chooses by a rule: the best of what remains is taken.
  lemma RoundPicks(ctx: Context, w: World, version: Word, rule: Rule, remaining: seq<Word>, accepted: seq<Word>)
    requires Follows(ctx, version, rule) && Distinct(rule.list) && Askable(ctx, version, remaining)
    requires ctx.settings.retryLimit >= 0 && w.spent + 1 <= ctx.settings.maxConnections
    requires rule.Ranking(remaining) != []
    ensures var best := rule.Ranking(remaining)[0];
      var i := IndexIn(remaining, best);
      && i >= 0
      && remaining[i] == best
      && rule.Ranking(Remove(remaining, i)) == rule.Ranking(remaining)[1..]
      && Rounds(ctx, w, version, remaining, accepted)
        == Rounds(ctx, Spent(w, 1), version, Remove(remaining, i), accepted + [best])
  {
    var hello := Asking(ctx, version, remaining);
    assert Chooses(ctx.reply(w.spent + 1, hello), version, rule.Ranking(remaining));
    AskAnswered(ctx, w, hello);
    RankingShrinks(rule, remaining);
    IndexInMeans(remaining, rule.Ranking(remaining)[0]);
  }

  // And when it would take nothing of what remains, it says so.
  lemma RoundDeclined(ctx: Context, w: World, version: Word, rule: Rule, remaining: seq<Word>, accepted: seq<Word>)
    requires Follows(ctx, version, rule) && Askable(ctx, version, remaining)
    requires ctx.settings.retryLimit >= 0 && w.spent + 1 <= ctx.settings.maxConnections
    requires rule.Ranking(remaining) == []
    ensures Rounds(ctx, w, version, remaining, accepted) == (accepted, true, remaining, Spent(w, 1))
  {
    var hello := Asking(ctx, version, remaining);
    assert Chooses(ctx.reply(w.spent + 1, hello), version, rule.Ranking(remaining));
    AskAnswered(ctx, w, hello);
  }

  // An answer without a hello that refuses nothing, which is what a warning ahead of the
  // handshake can leave, is taken for the end of what the server accepts.
  ghost predicate Unheard(reply: Reply) {
    reply.Heard? && reply.flight.serverHello.None? && !reply.flight.Refused()
  }

  lemma RoundUnheard(ctx: Context, w: World, version: Word, remaining: seq<Word>, accepted: seq<Word>)
    requires ctx.settings.retryLimit >= 0 && w.spent + 1 <= ctx.settings.maxConnections
    requires remaining != [] && Unheard(ctx.reply(w.spent + 1, Asking(ctx, version, remaining)))
    ensures Rounds(ctx, w, version, remaining, accepted) == (accepted, true, remaining, Spent(w, 1))
  {
    AskAnswered(ctx, w, Asking(ctx, version, remaining));
  }

  lemma VersionUnheard(ctx: Context, w: World, version: Word)
    requires ctx.settings.retryLimit >= 0 && w.spent + 1 <= ctx.settings.maxConnections
    requires ctx.registry.ForVersion(version) != []
    requires Unheard(ctx.reply(w.spent + 1, Asking(ctx, version, ctx.registry.ForVersion(version))))
    ensures VersionProbe(ctx, w, version) == (Unprobed(version), Spent(w, 1))
  {
    AskAnswered(ctx, w, Asking(ctx, version, ctx.registry.ForVersion(version)));
  }

  // What a version comes to when its first question was answered with this flight: it is
  // accepted if and only if that refuses nothing, has a hello, and the hello is of the
  // version asked. Where it is not, the answer is all that was asked for, and nothing is
  // left of it but the description of its alert.
  ghost predicate Judged(ctx: Context, version: Word, flight: Flight, w1: World, result: (Version, World)) {
    var (v, w') := result;
    var refused := flight.alert.Some? && flight.alert.value.level == 2;
    && v.version == version && v.attempted && !v.transportError
    && (v.accepted <==>
      !refused && flight.serverHello.Some? && flight.serverHello.value.version == version)
    && v.alertDescription == (if refused then Some(flight.alert.value.description) else None)
    && (v.accepted ==> v.cipherSuites != [] && v.cipherSuites[0] == flight.serverHello.value.cipherSuite)
    && (!v.accepted ==>
      && v.cipherSuites == [] && !v.cipherSuitesComplete && w' == w1
      && v.selectedGroup.None? && v.finiteField.None? && v.signatureAlgorithm.None?
      && v.extendedMasterSecret.None? && v.secureRenegotiation.None?)
  }

  lemma AcceptedExactly(ctx: Context, w: World, version: Word, flight: Flight, w1: World)
    requires ctx.registry.ForVersion(version) != []
    requires Ask(ctx, w, Asking(ctx, version, ctx.registry.ForVersion(version)), 0) == (Got(flight), w1)
    ensures Judged(ctx, version, flight, w1, VersionProbe(ctx, w, version))
  {
    var (v, w') := VersionProbe(ctx, w, version);
    if v.accepted {
      var pick := flight.serverHello.value.cipherSuite;
      RoundsKeepFirst(ctx, w1, version, Without(ctx.registry.ForVersion(version), pick), [pick]);
    }
  }

  lemma {:induction false} RoundsKeepFirst(
    ctx: Context, w: World, version: Word, remaining: seq<Word>, accepted: seq<Word>)
    ensures accepted <= Rounds(ctx, w, version, remaining, accepted).0
    decreases |remaining|
  {
    if remaining != [] {
      match OneRound(ctx, w, version, remaining)
      case (At(index), w1) =>
        RoundsKeepFirst(ctx, w1, version, Remove(remaining, index), accepted + [remaining[index]]);
      case _ =>
    }
  }

  // Without a reply: a version without suites is not attempted and costs nothing, one the
  // budget refused is not attempted and is noted, and one whose connections all failed is a
  // transport error.
  lemma Unanswered(ctx: Context, w: World, version: Word)
    ensures var (v, w') := VersionProbe(ctx, w, version);
      var offer := ctx.registry.ForVersion(version);
      var (outcome, w1) := Ask(ctx, w, Asking(ctx, version, offer), 0);
      && v.version == version
      && (offer == [] ==> !v.attempted && !v.accepted && !v.transportError && w' == w)
      && (offer != [] && outcome.Exhausted? ==>
        && !v.attempted && !v.accepted && !v.transportError
        && w'.spent == w1.spent && w'.incomplete == w1.incomplete + [Phase("versions", VERSIONS_EXHAUSTED)])
      && (offer != [] && outcome.Failed? ==> v.attempted && !v.accepted && v.transportError && w' == w1)
      && (v.transportError ==> offer != [] && outcome.Failed?)
  {
  }

  ghost predicate Exactly(result: (seq<Word>, bool, seq<Word>, World), list: seq<Word>, w: World) {
    result.0 == list && result.1 && result.3 == w
  }

  lemma NeededShrinks(rule: Rule, remaining: seq<Word>, i: nat)
    requires i < |remaining| && rule.Ranking(remaining) != []
    requires rule.Ranking(Remove(remaining, i)) == rule.Ranking(remaining)[1..]
    ensures RoundsNeeded(rule, remaining) == RoundsNeeded(rule, Remove(remaining, i)) + 1
  {
  }

  lemma {:induction false} RoundsExact(
    ctx: Context, w: World, version: Word, rule: Rule, remaining: seq<Word>, accepted: seq<Word>)
    requires Follows(ctx, version, rule) && Distinct(rule.list)
    requires Distinct(remaining) && forall id :: id in remaining ==> id in ctx.registry.ForVersion(version)
    requires ctx.settings.retryLimit >= 0
    requires w.spent + RoundsNeeded(rule, remaining) <= ctx.settings.maxConnections
    ensures Exactly(Rounds(ctx, w, version, remaining, accepted),
                    accepted + rule.Ranking(remaining), Spent(w, RoundsNeeded(rule, remaining)))
    decreases |remaining|
  {
    var ranking := rule.Ranking(remaining);
    if remaining == [] {
      NothingToRank(rule);
      assert accepted + [] == accepted;
    } else if ranking == [] {
      RoundDeclined(ctx, w, version, rule, remaining, accepted);
      assert accepted + [] == accepted;
    } else {
      var rest := RoundTaken(ctx, w, version, rule, remaining, accepted);
      RoundsExact(ctx, Spent(w, 1), version, rule, rest, accepted + [ranking[0]]);
      OneMoreSpent(Rounds(ctx, Spent(w, 1), version, rest, accepted + [ranking[0]]), accepted, ranking, w,
                   RoundsNeeded(rule, rest));
    }
  }

  // What is left after a round that picked is the same problem with one suite fewer.
  lemma RoundTaken(
    ctx: Context, w: World, version: Word, rule: Rule, remaining: seq<Word>, accepted: seq<Word>)
    returns (rest: seq<Word>)
    requires Follows(ctx, version, rule) && Distinct(rule.list) && Askable(ctx, version, remaining)
    requires ctx.settings.retryLimit >= 0 && w.spent + 1 <= ctx.settings.maxConnections
    requires rule.Ranking(remaining) != []
    ensures |rest| < |remaining| && Distinct(rest)
    ensures forall id :: id in rest ==> id in ctx.registry.ForVersion(version)
    ensures rule.Ranking(rest) == rule.Ranking(remaining)[1..]
    ensures RoundsNeeded(rule, remaining) == RoundsNeeded(rule, rest) + 1
    ensures Rounds(ctx, w, version, remaining, accepted)
      == Rounds(ctx, Spent(w, 1), version, rest, accepted + [rule.Ranking(remaining)[0]])
  {
    RoundPicks(ctx, w, version, rule, remaining, accepted);
    var i := IndexIn(remaining, rule.Ranking(remaining)[0]);
    rest := Remove(remaining, i);
    NeededShrinks(rule, remaining, i);
    RemoveKeeps(remaining, i);
  }

  lemma OneMoreSpent(
    result: (seq<Word>, bool, seq<Word>, World), accepted: seq<Word>, ranking: seq<Word>, w: World, n: nat)
    requires ranking != []
    requires Exactly(result, accepted + [ranking[0]] + ranking[1..], Spent(Spent(w, 1), n))
    ensures Exactly(result, accepted + ranking, Spent(w, n + 1))
  {
    assert accepted + [ranking[0]] + ranking[1..] == accepted + ranking;
  }

  lemma {:induction false} NothingToRank(rule: Rule)
    ensures rule.Ranking([]) == []
    decreases |rule.list|
  {
    if rule.OwnOrder? && rule.list != [] {
      NothingToRank(OwnOrder(rule.list[1..]));
    }
  }

  lemma {:induction false} WithoutIsRemove(ids: seq<Word>, i: nat)
    requires Distinct(ids) && i < |ids|
    ensures Without(ids, ids[i]) == Remove(ids, i)
  {
    var n := |ids| - 1;
    if i == n {
      WithoutNothing(ids[..n], ids[i]);
    } else {
      WithoutIsRemove(ids[..n], i);
      assert Remove(ids, i) == Remove(ids[..n], i) + [ids[n]];
    }
  }

  lemma {:induction false} WithoutNothing(ids: seq<Word>, id: Word)
    requires id !in ids
    ensures Without(ids, id) == ids
  {
    if ids != [] {
      WithoutNothing(ids[..|ids| - 1], id);
      FrontAndLast(ids);
    }
  }

  // The first handshake of a version probe is a round like the others.
  lemma FirstPick(ctx: Context, w: World, version: Word, rule: Rule)
    requires ctx.registry.Valid() && Follows(ctx, version, rule) && Distinct(rule.list)
    requires ctx.settings.retryLimit >= 0 && w.spent + 1 <= ctx.settings.maxConnections
    requires ctx.registry.ForVersion(version) != []
    ensures var offer := ctx.registry.ForVersion(version);
      var ranking := rule.Ranking(offer);
      var (v, w') := VersionProbe(ctx, w, version);
      if ranking == [] then
        v.attempted && !v.accepted && v.cipherSuites == [] && w' == Spent(w, 1)
      else
        var (list, complete, _, w2) := Enumeration(ctx, Spent(w, 1), version, ranking[0]);
        v.attempted && v.accepted && v.cipherSuites == list && v.cipherSuitesComplete == complete && w' == w2
  {
    var offer := ctx.registry.ForVersion(version);
    ForVersionExact(ctx.registry, version);
    assert Askable(ctx, version, offer);
    var hello := Asking(ctx, version, offer);
    assert Chooses(ctx.reply(w.spent + 1, hello), version, rule.Ranking(offer));
    AskAnswered(ctx, w, hello);
  }

  lemma EnumerationExact(ctx: Context, w: World, version: Word, rule: Rule)
    requires ctx.registry.Valid() && Follows(ctx, version, rule) && Distinct(rule.list)
    requires ctx.settings.retryLimit >= 0
    requires rule.Ranking(ctx.registry.ForVersion(version)) != []
    requires w.spent + RoundsNeeded(rule, ctx.registry.ForVersion(version)) - 1 <= ctx.settings.maxConnections
    ensures var offer := ctx.registry.ForVersion(version);
      RoundsNeeded(rule, offer) >= 1
      && Exactly(Enumeration(ctx, w, version, rule.Ranking(offer)[0]), rule.Ranking(offer),
                 Spent(w, RoundsNeeded(rule, offer) - 1))
  {
    var offer := ctx.registry.ForVersion(version);
    var ranking := rule.Ranking(offer);
    ForVersionExact(ctx.registry, version);
    RankingShrinks(rule, offer);
    var i := IndexIn(offer, ranking[0]);
    IndexInMeans(offer, ranking[0]);
    WithoutIsRemove(offer, i);
    RemoveKeeps(offer, i);
    NeededShrinks(rule, offer, i);
    RoundsExact(ctx, w, version, rule, Remove(offer, i), [ranking[0]]);
    assert [ranking[0]] + ranking[1..] == ranking;
  }

  // The main result on enumeration. Asked at a version it has suites for, a server that
  // chooses by a rule is found to accept exactly the suites the rule would take, best
  // first, and the finding is called complete. It costs one connection more than there
  // are suites found exactly when some suite offered is not accepted, and as many as there
  // are otherwise.
  lemma VersionProbeExact(ctx: Context, w: World, version: Word, rule: Rule)
    requires ctx.registry.Valid() && Follows(ctx, version, rule) && Distinct(rule.list)
    requires ctx.registry.ForVersion(version) != []
    requires ctx.settings.retryLimit >= 0
    requires w.spent + RoundsNeeded(rule, ctx.registry.ForVersion(version)) <= ctx.settings.maxConnections
    ensures var offer := ctx.registry.ForVersion(version);
      var (v, w') := VersionProbe(ctx, w, version);
      && v.attempted
      && (v.accepted <==> exists id :: id in offer && id in rule.list)
      && v.cipherSuites == rule.Ranking(offer)
      && (v.accepted ==> v.cipherSuitesComplete)
      && w'.incomplete == w.incomplete
      && w'.spent - w.spent == w'.granted - w.granted == RoundsNeeded(rule, offer)
      && (w'.spent == w.spent + |v.cipherSuites| + 1 <==> exists id :: id in offer && id !in rule.list)
      && (w'.spent == w.spent + |v.cipherSuites| <==> forall id :: id in offer ==> id in rule.list)
  {
    var offer := ctx.registry.ForVersion(version);
    var ranking := rule.Ranking(offer);
    ForVersionExact(ctx.registry, version);
    RankingSize(rule, offer);
    FirstPick(ctx, w, version, rule);
    if ranking == [] {
      assert forall id :: !(id in offer && id in rule.list);
    } else {
      assert ranking[0] in ranking;
      EnumerationExact(ctx, Spent(w, 1), version, rule);
    }
  }

  // With its own order, what is found is the server's preference; following the client,
  // it is the catalogue's order, whatever the server's list looks like.
  lemma FoundInServerOrder(offer: seq<Word>, list: seq<Word>, i: nat, j: nat)
    requires Distinct(list)
    requires i < j < |list| && list[i] in offer && list[j] in offer
    ensures exists a, b ::
      && 0 <= a < b < |OwnOrder(list).Ranking(offer)|
      && OwnOrder(list).Ranking(offer)[a] == list[i] && OwnOrder(list).Ranking(offer)[b] == list[j]
  {
    var x, y := list[..j], list[j..];
    assert list == x + y;
    RestrictAppend(x, y, offer);
    RestrictIs(x, offer);
    RestrictIs(y, offer);
    assert x[i] == list[i] && list[i] in x && y[0] == list[j] && list[j] in y;
    var rx, ry := Restrict(x, offer), Restrict(y, offer);
    var a :| 0 <= a < |rx| && rx[a] == list[i];
    var b :| 0 <= b < |ry| && ry[b] == list[j];
    var ranking := OwnOrder(list).Ranking(offer);
    assert ranking == rx + ry;
    assert ranking[a] == list[i] && ranking[|rx| + b] == list[j];
  }

  lemma {:induction false} FoundInCatalogueOrder(offer: seq<Word>, list: seq<Word>)
    requires StrictlyAscending(offer)
    ensures StrictlyAscending(ClientOrder(list).Ranking(offer))
  {
    if offer != [] {
      FoundInCatalogueOrder(offer[1..], list);
      RestrictIs(offer[1..], list);
      var rest := Restrict(offer[1..], list);
      forall k | 0 <= k < |rest| ensures offer[0] < rest[k] {
        assert rest[k] in rest;
        var m :| 0 <= m < |offer[1..]| && offer[1..][m] == rest[k];
        assert offer[m + 1] == rest[k];
      }
    }
  }
}
