/**
 What the analysis makes of an observation (pkg/tls/connection_analysis/analysis): the
 key exchange findings, the phases that were cut short, and the rule table over all of
 them. Rule texts, severities and the sentences of messages are parameters.
 */
module Findings {
  import opened Bytes
  import opened Suites
  import opened Probing
  import opened Enumerations
  import opened Concurrency
  import opened Phases
  import opened Sorting

  datatype Level = LevelNone | LevelNote | LevelWarning | LevelError | Unknown(text: string) {
    // A level the table does not hold counts for nothing.
    function Rank(): nat {
      match this
      case LevelNone => 0
      case LevelNote => 1
      case LevelWarning => 2
      case LevelError => 3
      case Unknown(_) => 0
    }
  }

  datatype Kind = Fail | Open | NotApplicable

  datatype Property = Text(text: string) | Names(names: seq<string>) | Number(number: int)

  datatype Finding = Finding(
    ruleId: string, kind: Kind, level: Level, message: string, properties: map<string, Property>)

  // The tables the findings are dressed from.
  datatype Texts = Texts(
    titles: map<string, string>,
    descriptions: map<string, string>,
    severities: map<string, Level>,
    groupSentence: (string, string) -> string,
    primeSentence: (string, int) -> string,
    versionName: Word -> string)
  {
    function Title(ruleId: string): string {
      if ruleId in titles then titles[ruleId] else ""
    }

    function Description(ruleId: string): string {
      if ruleId in descriptions then descriptions[ruleId] else ""
    }

    // MakeResult: a finding of a rule, at the level the policy gives it.
    function Make(ruleId: string): Finding {
      Finding(
        ruleId, Fail, if ruleId in severities then severities[ruleId] else LevelNone, Description(ruleId),
        map["subject" := Text(Title(ruleId))])
    }
  }

  const CHECK_NOT_DETERMINED := "tls_check_not_determined"
  const GROUP_INSUFFICIENT := "tls_key_exchange_group_insufficient"
  const GROUP_PHASE_OUT := "tls_key_exchange_group_phase_out"
  const GROUP_WEAK_ACCEPTED := "tls_key_exchange_group_weak_accepted"
  const FINITE_FIELD_SMALL := "tls_key_exchange_finite_field_small"
  const MINIMUM_PRIME_BITS: nat := 2048

  // A check that was not run: an open question, at level none.
  function NotDetermined(check: string, reason: string): Finding {
    Finding(
      CHECK_NOT_DETERMINED, Open, LevelNone,
      "The " + check + " check could not be completed: " + reason + ". It is not a pass.",
      map["subject" := Text("Undetermined: " + check), "check" := Text(check), "reason" := Text(reason)])
  }

  // --- Key exchange groups ------------------------------------------------------------------

  // The policy on groups: which are good, which are on their way out, and their names.
  datatype Policy = Policy(good: set<Word>, phaseOut: set<Word>, name: Word -> string) {
    function Categorize(group: Word): Category {
      if group in good then Good else if group in phaseOut then PhaseOut else Insufficient
    }
  }

  function NameIf(policy: Policy, group: Word, category: Category): seq<string> {
    if policy.Categorize(group) == category then [policy.name(group)] else []
  }

  // The names of the groups of one category, in the order the groups come.
  function NamesAlong(policy: Policy, groups: seq<Word>, category: Category): seq<string> {
    if groups == [] then [] else NameIf(policy, groups[0], category) + NamesAlong(policy, groups[1..], category)
  }

  lemma {:induction false} NamesAppend(policy: Policy, a: seq<Word>, b: seq<Word>, category: Category)
    ensures NamesAlong(policy, a + b, category) == NamesAlong(policy, a, category) + NamesAlong(policy, b, category)
  {
    if a == [] {
      assert a + b == b;
    } else {
      NamesAppend(policy, a[1..], b, category);
      assert (a + b)[0] == a[0] && (a + b)[1..] == a[1..] + b;
      Associate(NameIf(policy, a[0], category), NamesAlong(policy, a[1..], category), NamesAlong(policy, b, category));
    }
  }

  lemma NamesOfOne(policy: Policy, x: Word, category: Category)
    ensures NamesAlong(policy, [x], category) == NameIf(policy, x, category)
  {
    assert [x][1..] == [];
  }

  lemma NamesApart(policy: Policy, a: seq<Word>, x: Word, b: seq<Word>, category: Category)
    ensures multiset(NamesAlong(policy, a + [x] + b, category))
      == multiset(NameIf(policy, x, category)) + multiset(NamesAlong(policy, a + b, category))
  {
    NamesAppend(policy, a + [x], b, category);
    NamesAppend(policy, a, [x], category);
    NamesOfOne(policy, x, category);
    NamesAppend(policy, a, b, category);
  }

  lemma WithoutOne(b: seq<Word>, x: Word) returns (front: seq<Word>, back: seq<Word>)
    requires x in b
    ensures b == front + [x] + back
    ensures multiset(front + back) == multiset(b) - multiset{x}
  {
    var k :| 0 <= k < |b| && b[k] == x;
    front, back := b[..k], b[k + 1..];
    assert b == front + [x] + back;
  }

  lemma {:induction false} NamesForgetOrder(policy: Policy, a: seq<Word>, b: seq<Word>, category: Category)
    requires multiset(a) == multiset(b)
    ensures multiset(NamesAlong(policy, a, category)) == multiset(NamesAlong(policy, b, category))
  {
    if a == [] {
      assert |multiset(b)| == |b|;
    } else {
      var x, rest := a[0], a[1..];
      assert a == [x] + rest;
      assert x in multiset(b);
      var front, back := WithoutOne(b, x);
      NamesForgetOrder(policy, rest, front + back, category);
      NamesApart(policy, front, x, back, category);
    }
  }

  // The groups of a set in some order, each once.
  ghost predicate Lists(groups: seq<Word>, chosen: set<Word>) {
    multiset(groups) == multiset(chosen)
  }

  ghost function Listed(chosen: set<Word>): (groups: seq<Word>)
    ensures Lists(groups, chosen)
  {
    if chosen == {} then [] else
    var x :| x in chosen;
    [x] + Listed(chosen - {x})
  }

  ghost function SortedNames(policy: Policy, chosen: set<Word>, category: Category): seq<string> {
    Sort(Before, NamesAlong(policy, Listed(chosen), category))
  }

  // Go iterates over a map in any order, a new one each time. Whichever it is, the names
  // come out the same once sorted.
  lemma IterationOrderForgotten(policy: Policy, chosen: set<Word>, order: seq<Word>, category: Category)
    requires Lists(order, chosen)
    ensures Sort(Before, NamesAlong(policy, order, category)) == SortedNames(policy, chosen, category)
  {
    NamesForgetOrder(policy, order, Listed(chosen), category);
    BeforeIsTotal();
    SortForgetsOrder(Before, NamesAlong(policy, order, category), NamesAlong(policy, Listed(chosen), category));
  }

  lemma OneMore(order: seq<Word>, pending: set<Word>, chosen: set<Word>, group: Word)
    requires group in pending && multiset(order) + multiset(pending) == multiset(chosen)
    ensures multiset(order + [group]) + multiset(pending - {group}) == multiset(chosen)
  {
    assert multiset(pending) == multiset(pending - {group}) + multiset{group};
  }

  lemma NamesSnoc(policy: Policy, groups: seq<Word>, group: Word, category: Category)
    ensures NamesAlong(policy, groups + [group], category)
      == NamesAlong(policy, groups, category) + NameIf(policy, group, category)
  {
    NamesAppend(policy, groups, [group], category);
    NamesOfOne(policy, group, category);
  }

  method NamesInAnyOrder(policy: Policy, chosen: set<Word>, category: Category) returns (named: array<string>)
    ensures fresh(named)
    ensures Sort(Before, named[..]) == SortedNames(policy, chosen, category)
  {
    var pending, names: seq<string> := chosen, [];
    ghost var order: seq<Word> := [];
    while pending != {}
      invariant multiset(order) + multiset(pending) == multiset(chosen)
      invariant names == NamesAlong(policy, order, category)
      decreases |pending|
    {
      var group :| group in pending;
      OneMore(order, pending, chosen, group);
      NamesSnoc(policy, order, group, category);
      order := order + [group];
      pending := pending - {group};
      if policy.Categorize(group) == category {
        names := names + [policy.name(group)];
      }
    }
    IterationOrderForgotten(policy, chosen, order, category);
    named := new string[|names|](i requires 0 <= i < |names| => names[i]);
    assert named[..] == names;
  }

  function JoinNames(names: seq<string>): string {
    if names == [] then "" else
    var n := |names| - 1;
    JoinNames(names[..n]) + (if n == 0 then "" else ", ") + names[n]
  }

  method JoinedNames(names: array<string>) returns (joined: string)
    ensures joined == JoinNames(names[..])
  {
    joined := "";
    for index := 0 to names.Length
      invariant joined == JoinNames(names[..index])
    {
      assert names[..index + 1][..index] == names[..index];
      if index != 0 {
        joined := joined + ", ";
      }
      joined := joined + names[index];
    }
    assert names[..names.Length] == names[..];
  }

  function GroupFinding(texts: Texts, ruleId: string, names: seq<string>): Finding {
    var made := texts.Make(ruleId);
    made.(message := texts.groupSentence(ruleId, JoinNames(names)),
          properties := made.properties["groups" := Names(names)])
  }

  ghost function CategoryFindings(texts: Texts, policy: Policy, chosen: set<Word>, category: Category, ruleId: string)
    : seq<Finding>
  {
    var names := SortedNames(policy, chosen, category);
    if names == [] then [] else [GroupFinding(texts, ruleId, names)]
  }

  function GroupNames(policy: Policy, groups: seq<Word>): seq<string> {
    seq(|groups|, i requires 0 <= i < |groups| => policy.name(groups[i]))
  }

  function WeakFindings(texts: Texts, policy: Policy, weak: seq<Word>): seq<Finding> {
    if weak == [] then [] else [GroupFinding(texts, GROUP_WEAK_ACCEPTED, Sort(Before, GroupNames(policy, weak)))]
  }

  // --- Finite fields ---------------------------------------------------------------------------

  predicate Sized(v: Option<Version>) {
    v.Some? && v.value.accepted && v.value.finiteField.Some? && v.value.finiteField.value.primeBits != 0
  }

  function Bits(v: Option<Version>): nat
    requires Sized(v)
  {
    v.value.finiteField.value.primeBits
  }

  // The earliest of the accepted versions with the smallest prime, if one was measured.
  ghost predicate IsSmallest(versions: seq<Option<Version>>, k: nat) {
    && k < |versions| && Sized(versions[k])
    && (forall i :: 0 <= i < |versions| && Sized(versions[i]) ==>
      Bits(versions[k]) <= Bits(versions[i]))
    && (forall i :: 0 <= i < k && Sized(versions[i]) ==>
      Bits(versions[k]) < Bits(versions[i]))
  }

  function PrimeFinding(texts: Texts, v: Option<Version>): Finding
    requires Sized(v)
  {
    var made := texts.Make(FINITE_FIELD_SMALL);
    var name, bits := texts.versionName(v.value.version), Bits(v);
    made.(message := texts.primeSentence(name, bits),
          properties := made.properties["primeBits" := Number(bits)]["version" := Text(name)])
  }

  function Smallest(versions: seq<Option<Version>>): (k: Option<nat>)
    ensures k.Some? ==> IsSmallest(versions, k.value)
    ensures k.None? ==> forall i :: 0 <= i < |versions| ==> !Sized(versions[i])
  {
    if versions == [] then None else
    var n := |versions| - 1;
    var k := Smallest(versions[..n]);
    if !Sized(versions[n]) then k
    else if k.None? || Bits(versions[n]) < Bits(versions[k.value])
    then Some(n) else k
  }

  function FiniteFieldFindings(texts: Texts, versions: seq<Option<Version>>): seq<Finding> {
    var k := Smallest(versions);
    if k.None? || Bits(versions[k.value]) >= MINIMUM_PRIME_BITS then []
    else [PrimeFinding(texts, versions[k.value])]
  }

  // A finding is raised exactly when some accepted version was measured below the
  // minimum, and it is about the earliest of those with the smallest prime.
  lemma FiniteFieldExact(texts: Texts, versions: seq<Option<Version>>)
    ensures FiniteFieldFindings(texts, versions) != [] <==>
      exists i :: 0 <= i < |versions| && Sized(versions[i])
        && Bits(versions[i]) < MINIMUM_PRIME_BITS
    ensures forall k: nat :: IsSmallest(versions, k) && Bits(versions[k]) < MINIMUM_PRIME_BITS ==>
      FiniteFieldFindings(texts, versions) == [PrimeFinding(texts, versions[k])]
  {
    var s := Smallest(versions);
    forall k: nat | IsSmallest(versions, k) ensures s == Some(k) {
    }
  }

  method AnalyzeFiniteField(texts: Texts, versions: seq<Option<Version>>) returns (results: seq<Finding>)
    ensures results == FiniteFieldFindings(texts, versions)
  {
    var smallest, version := 0, 0;
    ghost var at: Option<nat> := None;
    for i := 0 to |versions|
      invariant at == Smallest(versions[..i])
      invariant smallest == if at.None? then 0 else Bits(versions[at.value])
      invariant at.Some? ==> version == versions[at.value].value.version
    {
      assert versions[..i + 1][..i] == versions[..i];
      if versions[i].None? {
        continue;
      }
      var accepted := versions[i].value;
      if !accepted.accepted || accepted.finiteField.None? || accepted.finiteField.value.primeBits == 0 {
        continue;
      }
      var bits := accepted.finiteField.value.primeBits;
      if smallest == 0 || bits < smallest {
        smallest := bits;
        version := accepted.version;
        at := Some(i);
      }
    }
    assert versions[..|versions|] == versions;
    if smallest == 0 || smallest >= MINIMUM_PRIME_BITS {
      return [];
    }
    var made := texts.Make(FINITE_FIELD_SMALL);
    var name := texts.versionName(version);
    results := [made.(message := texts.primeSentence(name, smallest),
                      properties := made.properties["primeBits" := Number(smallest)]["version" := Text(name)])];
  }

  // Without groups, or where they were not asked about, nothing is reported at all.
  ghost function KeyExchangeFindings(
    texts: Texts, policy: Policy, groups: Option<Groups>, versions: seq<Option<Version>>): seq<Finding>
  {
    if groups.None? || !groups.value.tested then [] else
    var chosen := groups.value.selected.Values;
    CategoryFindings(texts, policy, chosen, Insufficient, GROUP_INSUFFICIENT)
    + CategoryFindings(texts, policy, chosen, PhaseOut, GROUP_PHASE_OUT)
    + WeakFindings(texts, policy, groups.value.weakAccepted)
    + FiniteFieldFindings(texts, versions)
  }

  method AnalyzeCategory(texts: Texts, policy: Policy, chosen: set<Word>, category: Category, ruleId: string)
    returns (results: seq<Finding>)
    ensures results == CategoryFindings(texts, policy, chosen, category, ruleId)
  {
    var named := NamesInAnyOrder(policy, chosen, category);
    if named.Length == 0 {
      return [];
    }
    var finding := FindingOverNames(texts, ruleId, named);
    results := [finding];
  }

  method AnalyzeWeak(texts: Texts, policy: Policy, weak: seq<Word>) returns (results: seq<Finding>)
    ensures results == WeakFindings(texts, policy, weak)
  {
    if |weak| == 0 {
      return [];
    }
    var named := new string[|weak|](i requires 0 <= i < |weak| => policy.name(weak[i]));
    assert named[..] == GroupNames(policy, weak);
    var finding := FindingOverNames(texts, GROUP_WEAK_ACCEPTED, named);
    results := [finding];
  }

  method AnalyzeKeyExchangeParameters(
    texts: Texts, policy: Policy, groups: Option<Groups>, versions: seq<Option<Version>>)
    returns (results: seq<Finding>)
    ensures results == KeyExchangeFindings(texts, policy, groups, versions)
  {
    if groups.None? || !groups.value.tested {
      return [];
    }
    var chosen := groups.value.selected.Values;
    results := AnalyzeCategory(texts, policy, chosen, Insufficient, GROUP_INSUFFICIENT);
    var more := AnalyzeCategory(texts, policy, chosen, PhaseOut, GROUP_PHASE_OUT);
    results := results + more;
    more := AnalyzeWeak(texts, policy, groups.value.weakAccepted);
    results := results + more;
    more := AnalyzeFiniteField(texts, versions);
    results := results + more;
  }

  // The names are sorted once for the message and once for the property.
  method FindingOverNames(texts: Texts, ruleId: string, named: array<string>) returns (finding: Finding)
    ensures finding == GroupFinding(texts, ruleId, Sort(Before, named[..]))
  {
    var sorted := SortedStrings(named);
    var joined := JoinedNames(sorted);
    var again := SortedStrings(named);
    var made := texts.Make(ruleId);
    finding := made.(message := texts.groupSentence(ruleId, joined),
                     properties := made.properties["groups" := Names(again[..])]);
  }

  // --- The run -----------------------------------------------------------------------------------

  // A result the analysis produced; Go's nil is None.
  type Entry = Option<Finding>

  // Rule is one row of the rule table. A text that is empty is left off.
  datatype Rule = Rule(id: string, title: Option<string>, description: Option<string>)

  function RuleFor(texts: Texts, id: string): Rule {
    Rule(id, NonEmpty(texts.Title(id)), NonEmpty(texts.Description(id)))
  }

  function NonEmpty(text: string): Option<string> {
    if text == "" then None else Some(text)
  }

  predicate Raises(entry: Entry, id: string) {
    entry.Some? && entry.value.ruleId == id && id != ""
  }

  ghost predicate EverRaised(results: seq<Entry>, id: string) {
    exists r :: r in results && Raises(r, id)
  }

  function RuleIds(results: seq<Entry>): seq<string> {
    if results == [] then [] else
    var ids, last := RuleIds(results[..|results| - 1]), results[|results| - 1];
    if last.None? || last.value.ruleId == "" || last.value.ruleId in ids then ids else ids + [last.value.ruleId]
  }

  function Rules(texts: Texts, results: seq<Entry>): (rules: seq<Rule>)
    ensures |rules| == |RuleIds(results)|
    ensures forall i :: 0 <= i < |rules| ==> rules[i].id == RuleIds(results)[i]
  {
    seq(|RuleIds(results)|, i requires 0 <= i < |RuleIds(results)| => RuleFor(texts, RuleIds(results)[i]))
  }

  // The result before which nothing raises the rule.
  ghost predicate FirstRaisedAt(results: seq<Entry>, id: string, p: nat) {
    p < |results| && Raises(results[p], id) && forall q :: 0 <= q < p ==> !Raises(results[q], id)
  }

  ghost predicate InOrderRaised(results: seq<Entry>, ids: seq<string>) {
    forall i, j, p: nat, q: nat :: 0 <= i < j < |ids|
      && FirstRaisedAt(results, ids[i], p) && FirstRaisedAt(results, ids[j], q)
      ==> p < q
  }

  // Every rule that is raised has one row, no other rule has one, and the rows come in
  // the order the rules were first raised.
  lemma {:induction false} RuleIdsExact(results: seq<Entry>)
    ensures forall id :: id in RuleIds(results) <==> EverRaised(results, id)
    ensures forall i, j :: 0 <= i < j < |RuleIds(results)| ==> RuleIds(results)[i] != RuleIds(results)[j]
    ensures InOrderRaised(results, RuleIds(results))
  {
    if results != [] {
      var n := |results| - 1;
      var front, last := results[..n], results[n];
      var before, ids := RuleIds(front), RuleIds(results);
      RuleIdsExact(front);
      assert results == front + [last];
      forall id ensures id in ids <==> EverRaised(results, id) {
        if EverRaised(front, id) {
          var r :| r in front && Raises(r, id);
          assert r in results;
        }
        if Raises(last, id) {
          assert last in results;
        }
      }
      forall i, j, p: nat, q: nat | 0 <= i < j < |ids|
        && FirstRaisedAt(results, ids[i], p) && FirstRaisedAt(results, ids[j], q)
        ensures p < q
      {
        assert ids[i] == before[i];
        EarlierIn(results, ids[i], p);
        if j < |before| {
          EarlierIn(results, ids[j], q);
        } else {
          NotEarlierIn(results, ids[j], q);
        }
      }
    }
  }

  lemma NotEarlierIn(results: seq<Entry>, id: string, q: nat)
    requires results != [] && !EverRaised(results[..|results| - 1], id)
    requires FirstRaisedAt(results, id, q)
    ensures q == |results| - 1
  {
    var front := results[..|results| - 1];
    assert forall k :: 0 <= k < |front| ==> front[k] in front && results[k] == front[k];
  }

  lemma EarlierIn(results: seq<Entry>, id: string, p: nat)
    requires results != [] && EverRaised(results[..|results| - 1], id)
    requires FirstRaisedAt(results, id, p)
    ensures p < |results| - 1 && FirstRaisedAt(results[..|results| - 1], id, p)
  {
    var front := results[..|results| - 1];
    var r :| r in front && Raises(r, id);
    var k :| 0 <= k < |front| && front[k] == r;
    assert results[k] == r;
  }

  method BuildRules(texts: Texts, results: seq<Entry>) returns (rules: seq<Rule>)
    ensures rules == Rules(texts, results)
  {
    var seen: map<string, bool> := map[];
    rules := [];
    for i := 0 to |results|
      invariant rules == Rules(texts, results[..i])
      invariant forall id :: id in seen && seen[id] <==> id in RuleIds(results[..i])
    {
      assert results[..i + 1][..i] == results[..i];
      if results[i].None? {
        continue;
      }
      var id := results[i].value.ruleId;
      if id == "" || (id in seen && seen[id]) {
        continue;
      }
      seen := seen[id := true];
      rules := rules + [RuleFor(texts, id)];
    }
    assert results[..|results|] == results;
  }

  datatype Analysis = Analysis(rules: seq<Rule>, results: seq<Entry>)

  type Analyzer = Observation -> seq<Entry>

  function AnalyzerResults(analyzers: seq<Analyzer>, observation: Observation): seq<Entry> {
    if analyzers == [] then [] else
    var n := |analyzers| - 1;
    AnalyzerResults(analyzers[..n], observation) + analyzers[n](observation)
  }

  // One open question for each phase that was cut short.
  function OpenQuestions(incomplete: seq<Phase>): (questions: seq<Entry>)
    ensures |questions| == |incomplete|
  {
    seq(|incomplete|, i requires 0 <= i < |incomplete| =>
      Some(NotDetermined(incomplete[i].name, incomplete[i].reason)))
  }

  function AnalysisOf(texts: Texts, analyzers: seq<Analyzer>, observation: Observation): Analysis {
    var results := AnalyzerResults(analyzers, observation) + OpenQuestions(observation.incomplete);
    Analysis(Rules(texts, results), results)
  }

  method AnalyzeConnection(texts: Texts, analyzers: seq<Analyzer>, observation: Observation)
    returns (run: Analysis)
    ensures run == AnalysisOf(texts, analyzers, observation)
  {
    var results: seq<Entry> := [];
    for i := 0 to |analyzers|
      invariant results == AnalyzerResults(analyzers[..i], observation)
    {
      assert analyzers[..i + 1][..i] == analyzers[..i];
      results := results + analyzers[i](observation);
    }
    assert analyzers[..|analyzers|] == analyzers;
    var incomplete := observation.incomplete;
    for i := 0 to |incomplete|
      invariant results == AnalyzerResults(analyzers, observation) + OpenQuestions(incomplete[..i])
    {
      assert OpenQuestions(incomplete[..i + 1])
          == OpenQuestions(incomplete[..i]) + [Some(NotDetermined(incomplete[i].name, incomplete[i].reason))];
      results := results + [Some(NotDetermined(incomplete[i].name, incomplete[i].reason))];
    }
    assert incomplete[..|incomplete|] == incomplete;
    var rules := BuildRules(texts, results);
    run := Analysis(rules, results);
  }

  // From sockets to report: whatever the schedule of the version scan, when the budget
  // refused a connection and there is still something to report, the report holds at
  // least one open question at level none, one for every phase noted, and the rule they
  // are raised under has its row.
  lemma RefusalIsReported(
    ctx: Context, probed: seq<Word>, actions: seq<Action>, versions: seq<Version>, leg: Session,
    texts: Texts, analyzers: seq<Analyzer>)
    requires Run(ctx, probed, actions).Some? && AllOver(Run(ctx, probed, actions).value)
    requires |versions| == |probed|
    requires forall i :: 0 <= i < |probed| ==> Run(ctx, probed, actions).value.versions[i] == Some(versions[i])
    ensures var (observation, w) := Observe(ctx, Run(ctx, probed, actions).value.world, versions, leg);
      observation.Some? && w.granted < w.spent ==>
        var run := AnalysisOf(texts, analyzers, observation.value);
        var incomplete := observation.value.incomplete;
        && incomplete != []
        && (forall phase :: phase in incomplete ==> Some(NotDetermined(phase.name, phase.reason)) in run.results)
        && (exists rule :: rule in run.rules && rule.id == CHECK_NOT_DETERMINED)
  {
    NoRefusalUnreported(ctx, probed, actions, versions, leg);
    var (observation, w) := Observe(ctx, Run(ctx, probed, actions).value.world, versions, leg);
    if observation.Some? && w.granted < w.spent {
      QuestionsReported(texts, analyzers, observation.value);
    }
  }

  lemma QuestionsReported(texts: Texts, analyzers: seq<Analyzer>, observation: Observation)
    ensures var run := AnalysisOf(texts, analyzers, observation);
      && (forall phase :: phase in observation.incomplete ==>
        Some(NotDetermined(phase.name, phase.reason)) in run.results)
      && (observation.incomplete != [] ==> exists rule :: rule in run.rules && rule.id == CHECK_NOT_DETERMINED)
  {
    var run := AnalysisOf(texts, analyzers, observation);
    var questions := OpenQuestions(observation.incomplete);
    forall phase | phase in observation.incomplete
      ensures Some(NotDetermined(phase.name, phase.reason)) in run.results
    {
      var i :| 0 <= i < |observation.incomplete| && observation.incomplete[i] == phase;
      assert questions[i] in questions;
    }
    if observation.incomplete != [] {
      var entry := Some(NotDetermined(observation.incomplete[0].name, observation.incomplete[0].reason));
      assert entry in run.results && Raises(entry, CHECK_NOT_DETERMINED);
      RuleIdsExact(run.results);
      var i :| 0 <= i < |RuleIds(run.results)| && RuleIds(run.results)[i] == CHECK_NOT_DETERMINED;
      assert run.rules[i] in run.rules;
    }
  }

  // --- What reaches the run -------------------------------------------------------------------

  // What each check found, check by check.
  function Blocks(analyzers: seq<Analyzer>, observation: Observation): (blocks: seq<seq<Entry>>)
    ensures |blocks| == |analyzers|
    ensures forall i :: 0 <= i < |analyzers| ==> blocks[i] == analyzers[i](observation)
  {
    seq(|analyzers|, i requires 0 <= i < |analyzers| => analyzers[i](observation))
  }

  lemma {:induction false} ResultsAreBlocks(analyzers: seq<Analyzer>, observation: Observation)
    ensures AnalyzerResults(analyzers, observation) == Concat(Blocks(analyzers, observation))
  {
    if analyzers != [] {
      var n := |analyzers| - 1;
      var last := analyzers[n](observation);
      ResultsAreBlocks(analyzers[..n], observation);
      assert Blocks(analyzers, observation) == Blocks(analyzers[..n], observation) + [last];
      ConcatAppend(Blocks(analyzers[..n], observation), [last]);
      assert [last][1..] == [] && Concat([last]) == last + Concat<Entry>([]);
    }
  }

  lemma {:induction false} InBlocks(blocks: seq<seq<Entry>>, e: Entry)
    ensures e in Concat(blocks) <==> exists i :: 0 <= i < |blocks| && e in blocks[i]
  {
    if blocks != [] {
      InBlocks(blocks[1..], e);
      if e in Concat(blocks[1..]) {
        var i :| 0 <= i < |blocks[1..]| && e in blocks[1..][i];
        assert e in blocks[i + 1];
      }
      if exists i :: 0 <= i < |blocks| && e in blocks[i] {
        var i :| 0 <= i < |blocks| && e in blocks[i];
        assert i > 0 ==> e in blocks[1..][i - 1];
      }
    }
  }

  // An open question of the not-determined rule, at level none, about this phase.
  predicate Asks(entry: Entry, phase: Phase) {
    && entry.Some?
    && entry.value.ruleId == "tls_check_not_determined"
    && entry.value.kind == Open && entry.value.level == LevelNone
    && "check" in entry.value.properties && entry.value.properties["check"] == Text(phase.name)
    && "reason" in entry.value.properties && entry.value.properties["reason"] == Text(phase.reason)
  }

  // The run is what the checks found, block by block in their order, and then one open
  // question for each phase cut short, in the order they were noted, and nothing else.
  lemma RunIsBlocks(texts: Texts, analyzers: seq<Analyzer>, observation: Observation)
    ensures var results, found := AnalysisOf(texts, analyzers, observation).results,
                                  Concat(Blocks(analyzers, observation));
      && found <= results
      && |results| == |found| + |observation.incomplete|
      && forall i :: 0 <= i < |observation.incomplete| ==>
        Asks(results[|found| + i], observation.incomplete[i])
  {
    ResultsAreBlocks(analyzers, observation);
    forall i | 0 <= i < |observation.incomplete|
      ensures Asks(OpenQuestions(observation.incomplete)[i], observation.incomplete[i])
    {
      QuestionAsks(observation.incomplete[i]);
    }
  }

  lemma QuestionAsks(phase: Phase)
    ensures Asks(Some(NotDetermined(phase.name, phase.reason)), phase)
  {
    assert |"check"| == 5 && |"reason"| == 6 && |"subject"| == 7;
  }

  // So every check's findings are in the run, and what is in it is a check's finding or an
  // open question.
  lemma FoundIffReported(texts: Texts, analyzers: seq<Analyzer>, observation: Observation, e: Entry)
    ensures e in AnalysisOf(texts, analyzers, observation).results <==>
      || (exists i :: 0 <= i < |analyzers| && e in analyzers[i](observation))
      || (exists phase :: phase in observation.incomplete && e == Some(NotDetermined(phase.name, phase.reason)))
  {
    var blocks, questions := Blocks(analyzers, observation), OpenQuestions(observation.incomplete);
    ResultsAreBlocks(analyzers, observation);
    InBlocks(blocks, e);
    if exists i :: 0 <= i < |analyzers| && e in analyzers[i](observation) {
      var i :| 0 <= i < |analyzers| && e in analyzers[i](observation);
      assert e in blocks[i];
    }
    InQuestions(observation.incomplete, e);
  }

  lemma InQuestions(incomplete: seq<Phase>, e: Entry)
    ensures e in OpenQuestions(incomplete) <==>
      exists phase :: phase in incomplete && e == Some(NotDetermined(phase.name, phase.reason))
  {
    var questions := OpenQuestions(incomplete);
    if e in questions {
      var i :| 0 <= i < |questions| && questions[i] == e;
      assert incomplete[i] in incomplete;
    }
    if exists phase :: phase in incomplete && e == Some(NotDetermined(phase.name, phase.reason)) {
      var phase :| phase in incomplete && e == Some(NotDetermined(phase.name, phase.reason));
      var i :| 0 <= i < |incomplete| && incomplete[i] == phase;
      assert questions[i] == e;
    }
  }

  // A row of the rule table has the rule's title and description, and leaves off what the
  // tables do not hold or hold empty.
  lemma RowTexts(texts: Texts, results: seq<Entry>, i: nat, text: string)
    requires i < |Rules(texts, results)|
    ensures var row := Rules(texts, results)[i];
      && (row.title == Some(text) <==> text != "" && row.id in texts.titles && texts.titles[row.id] == text)
      && (row.description == Some(text) <==>
        text != "" && row.id in texts.descriptions && texts.descriptions[row.id] == text)
  {
  }

  // --- Which rule a group finding is raised under -----------------------------------------------

  lemma RulesDiffer()
    ensures GROUP_INSUFFICIENT != GROUP_PHASE_OUT && GROUP_INSUFFICIENT != GROUP_WEAK_ACCEPTED
    ensures GROUP_INSUFFICIENT != FINITE_FIELD_SMALL && GROUP_PHASE_OUT != GROUP_WEAK_ACCEPTED
    ensures GROUP_PHASE_OUT != FINITE_FIELD_SMALL && GROUP_WEAK_ACCEPTED != FINITE_FIELD_SMALL
  {
    assert |GROUP_INSUFFICIENT| == 35 && |GROUP_PHASE_OUT| == 32 && |GROUP_WEAK_ACCEPTED| == 36;
    assert |FINITE_FIELD_SMALL| == 35 && GROUP_INSUFFICIENT[17] == 'g' && FINITE_FIELD_SMALL[17] == 'f';
  }

  ghost predicate RaisedUnder(results: seq<Finding>, id: string) {
    exists f :: f in results && f.ruleId == id
  }

  // A finding of a rule has the level the policy gives it, or none, fails, and is titled.
  predicate Dressed(texts: Texts, f: Finding) {
    && f.kind == Fail
    && f.level == (if f.ruleId in texts.severities then texts.severities[f.ruleId] else LevelNone)
    && "subject" in f.properties
    && f.properties["subject"] == Text(if f.ruleId in texts.titles then texts.titles[f.ruleId] else "")
  }

  // The groups a finding lists are the ones in its message.
  predicate NamesSaid(texts: Texts, f: Finding) {
    "groups" in f.properties && f.properties["groups"].Names?
    && f.message == texts.groupSentence(f.ruleId, JoinNames(f.properties["groups"].names))
  }

  // Every key exchange finding is dressed, and says its names or its numbers in its message.
  lemma FindingsAreDressed(
    texts: Texts, policy: Policy, groups: Groups, versions: seq<Option<Version>>, f: Finding)
    requires f in KeyExchangeFindings(texts, policy, Some(groups), versions)
    ensures Dressed(texts, f)
    ensures f.ruleId != FINITE_FIELD_SMALL ==> NamesSaid(texts, f)
    ensures f.ruleId == FINITE_FIELD_SMALL ==>
      exists i :: 0 <= i < |versions| && Sized(versions[i]) && PrimeSaid(texts, f, versions[i])
  {
    RulesDiffer();
    if groups.tested {
      var chosen := groups.selected.Values;
      if f in FiniteFieldFindings(texts, versions) {
        PrimeDressed(texts, versions, f);
      } else if f in CategoryFindings(texts, policy, chosen, Insufficient, GROUP_INSUFFICIENT) {
        GroupDressed(texts, GROUP_INSUFFICIENT, SortedNames(policy, chosen, Insufficient));
      } else if f in CategoryFindings(texts, policy, chosen, PhaseOut, GROUP_PHASE_OUT) {
        GroupDressed(texts, GROUP_PHASE_OUT, SortedNames(policy, chosen, PhaseOut));
      } else {
        GroupDressed(texts, GROUP_WEAK_ACCEPTED, Sort(Before, GroupNames(policy, groups.weakAccepted)));
      }
    }
  }

  lemma GroupDressed(texts: Texts, ruleId: string, names: seq<string>)
    ensures var f := GroupFinding(texts, ruleId, names);
      Dressed(texts, f) && f.ruleId == ruleId && NamesSaid(texts, f)
  {
    assert |"subject"| == 7 && |"groups"| == 6;
  }

  lemma PrimeDressed(texts: Texts, versions: seq<Option<Version>>, f: Finding)
    requires f in FiniteFieldFindings(texts, versions)
    ensures Dressed(texts, f) && f.ruleId == FINITE_FIELD_SMALL
    ensures exists i :: 0 <= i < |versions| && Sized(versions[i]) && PrimeSaid(texts, f, versions[i])
  {
    assert |"subject"| == 7 && |"primeBits"| == 9 && |"version"| == 7;
    assert "subject"[0] == 's' && "version"[0] == 'v';
    var k := Smallest(versions).value;
    assert PrimeSaid(texts, f, versions[k]);
  }

  // The prime of a version, by its size and the version's name.
  predicate PrimeSaid(texts: Texts, f: Finding, v: Option<Version>)
    requires Sized(v)
  {
    && "primeBits" in f.properties && f.properties["primeBits"] == Number(Bits(v))
    && "version" in f.properties && f.properties["version"] == Text(texts.versionName(v.value.version))
    && f.message == texts.primeSentence(texts.versionName(v.value.version), Bits(v))
  }

  // A finding lists these groups by name, in order.
  ghost predicate ListsGroups(policy: Policy, f: Finding, groups: set<Word>) {
    && "groups" in f.properties && f.properties["groups"].Names?
    && NamesFor(policy, f.properties["groups"].names, groups)
  }

  ghost function Failing(policy: Policy, chosen: set<Word>): set<Word> {
    set g | g in chosen && g !in policy.good && g !in policy.phaseOut
  }

  ghost function Retiring(policy: Policy, chosen: set<Word>): set<Word> {
    set g | g in chosen && g !in policy.good && g in policy.phaseOut
  }

  // The groups the versions settled on are reported as insufficient exactly where one is
  // neither good nor on its way out, and as on their way out where one is that and not
  // good; what was stooped to is reported whatever it is; and a prime is reported exactly
  // where one below 2048 bits was measured.
  lemma GroupFindingsExact(texts: Texts, policy: Policy, groups: Groups, versions: seq<Option<Version>>)
    requires groups.tested
    ensures var results := KeyExchangeFindings(texts, policy, Some(groups), versions);
      var chosen := groups.selected.Values;
      && (RaisedUnder(results, "tls_key_exchange_group_insufficient") <==> Failing(policy, chosen) != {})
      && (RaisedUnder(results, "tls_key_exchange_group_phase_out") <==> Retiring(policy, chosen) != {})
      && (RaisedUnder(results, "tls_key_exchange_group_weak_accepted") <==> groups.weakAccepted != [])
      && (RaisedUnder(results, "tls_key_exchange_finite_field_small") <==>
        exists i :: 0 <= i < |versions| && Sized(versions[i]) && Bits(versions[i]) < 2048)
  {
    var chosen := groups.selected.Values;
    ByCategory(texts, policy, chosen);
    WeakRaised(texts, policy, groups.weakAccepted);
    PrimeRaised(texts, versions);
    FourApart(CategoryFindings(texts, policy, chosen, Insufficient, GROUP_INSUFFICIENT),
              CategoryFindings(texts, policy, chosen, PhaseOut, GROUP_PHASE_OUT),
              WeakFindings(texts, policy, groups.weakAccepted), FiniteFieldFindings(texts, versions));
  }

  // Where groups were not asked about nothing is reported, whatever else was seen.
  lemma UntestedSilent(texts: Texts, policy: Policy, groups: Groups, versions: seq<Option<Version>>)
    requires !groups.tested
    ensures KeyExchangeFindings(texts, policy, Some(groups), versions) == []
    ensures KeyExchangeFindings(texts, policy, None, versions) == []
  {
  }

  // Each finding lists just the groups it is about, by name and in order.
  lemma GroupFindingsList(
    texts: Texts, policy: Policy, groups: Groups, versions: seq<Option<Version>>, f: Finding)
    requires groups.tested && f in KeyExchangeFindings(texts, policy, Some(groups), versions)
    ensures f.ruleId == "tls_key_exchange_group_insufficient" ==>
      ListsGroups(policy, f, Failing(policy, groups.selected.Values))
    ensures f.ruleId == "tls_key_exchange_group_phase_out" ==>
      ListsGroups(policy, f, Retiring(policy, groups.selected.Values))
    ensures f.ruleId == "tls_key_exchange_group_weak_accepted" ==>
      ListsGroups(policy, f, set g | g in groups.weakAccepted)
  {
    var chosen := groups.selected.Values;
    ByCategory(texts, policy, chosen);
    WeakRaised(texts, policy, groups.weakAccepted);
    PrimeRaised(texts, versions);
    FourApart(CategoryFindings(texts, policy, chosen, Insufficient, GROUP_INSUFFICIENT),
              CategoryFindings(texts, policy, chosen, PhaseOut, GROUP_PHASE_OUT),
              WeakFindings(texts, policy, groups.weakAccepted), FiniteFieldFindings(texts, versions));
  }

  // What the findings of one category say.
  ghost predicate Reports(policy: Policy, findings: seq<Finding>, ruleId: string, groups: set<Word>) {
    && AllUnder(findings, ruleId)
    && (forall f :: f in findings ==> ListsGroups(policy, f, groups))
    && (findings == [] <==> groups == {})
  }

  lemma ByCategory(texts: Texts, policy: Policy, chosen: set<Word>)
    ensures Reports(policy, CategoryFindings(texts, policy, chosen, Insufficient, GROUP_INSUFFICIENT),
                    GROUP_INSUFFICIENT, Failing(policy, chosen))
    ensures Reports(policy, CategoryFindings(texts, policy, chosen, PhaseOut, GROUP_PHASE_OUT),
                    GROUP_PHASE_OUT, Retiring(policy, chosen))
  {
    CategoryRaised(texts, policy, chosen, Insufficient, GROUP_INSUFFICIENT);
    CategoryRaised(texts, policy, chosen, PhaseOut, GROUP_PHASE_OUT);
    assert OfCategory(policy, chosen, Insufficient) == Failing(policy, chosen);
    assert OfCategory(policy, chosen, PhaseOut) == Retiring(policy, chosen);
  }

  ghost predicate AllUnder(findings: seq<Finding>, id: string) {
    forall f :: f in findings ==> f.ruleId == id
  }

  lemma FourApart(a: seq<Finding>, b: seq<Finding>, c: seq<Finding>, d: seq<Finding>)
    requires AllUnder(a, GROUP_INSUFFICIENT) && AllUnder(b, GROUP_PHASE_OUT)
    requires AllUnder(c, GROUP_WEAK_ACCEPTED) && AllUnder(d, FINITE_FIELD_SMALL)
    ensures RaisedUnder(a + b + c + d, GROUP_INSUFFICIENT) <==> a != []
    ensures RaisedUnder(a + b + c + d, GROUP_PHASE_OUT) <==> b != []
    ensures RaisedUnder(a + b + c + d, GROUP_WEAK_ACCEPTED) <==> c != []
    ensures RaisedUnder(a + b + c + d, FINITE_FIELD_SMALL) <==> d != []
    ensures forall f :: f in a + b + c + d && f.ruleId == GROUP_INSUFFICIENT ==> f in a
    ensures forall f :: f in a + b + c + d && f.ruleId == GROUP_PHASE_OUT ==> f in b
    ensures forall f :: f in a + b + c + d && f.ruleId == GROUP_WEAK_ACCEPTED ==> f in c
  {
    RulesDiffer();
    var all := a + b + c + d;
    assert forall f :: f in all <==> f in a || f in b || f in c || f in d;
    assert a != [] ==> a[0] in all;
    assert b != [] ==> b[0] in all;
    assert c != [] ==> c[0] in all;
    assert d != [] ==> d[0] in all;
  }

  lemma PrimeRaised(texts: Texts, versions: seq<Option<Version>>)
    ensures AllUnder(FiniteFieldFindings(texts, versions), FINITE_FIELD_SMALL)
    ensures FiniteFieldFindings(texts, versions) != [] <==>
      exists i :: 0 <= i < |versions| && Sized(versions[i]) && Bits(versions[i]) < 2048
  {
    FiniteFieldExact(texts, versions);
  }

  ghost function OfCategory(policy: Policy, chosen: set<Word>, category: Category): set<Word> {
    set g | g in chosen && policy.Categorize(g) == category
  }

  // What names are to list these groups.
  ghost predicate NamesFor(policy: Policy, names: seq<string>, groups: set<Word>) {
    && Ordered(Before, names)
    && forall name :: name in names <==> exists g :: g in groups && policy.name(g) == name
  }

  lemma NoNames(policy: Policy, names: seq<string>, groups: set<Word>)
    requires NamesFor(policy, names, groups)
    ensures names == [] <==> groups == {}
  {
    if names != [] {
      assert names[0] in names;
    }
    if g :| g in groups {
      assert policy.name(g) in names;
    }
  }

  lemma CategoryRaised(texts: Texts, policy: Policy, chosen: set<Word>, category: Category, ruleId: string)
    ensures Reports(policy, CategoryFindings(texts, policy, chosen, category, ruleId), ruleId,
                    OfCategory(policy, chosen, category))
  {
    NamesOf(policy, chosen, category);
    NoNames(policy, SortedNames(policy, chosen, category), OfCategory(policy, chosen, category));
  }

  lemma NamesOf(policy: Policy, chosen: set<Word>, category: Category)
    ensures NamesFor(policy, SortedNames(policy, chosen, category), OfCategory(policy, chosen, category))
  {
    var listed := Listed(chosen);
    var along, names := NamesAlong(policy, listed, category), SortedNames(policy, chosen, category);
    BeforeIsTotal();
    SortSorts(Before, along);
    forall name ensures name in names <==>
      exists g :: g in OfCategory(policy, chosen, category) && policy.name(g) == name
    {
      assert name in names <==> name in multiset(names);
      assert name in along <==> name in multiset(along);
      NamesAlongOf(policy, listed, category, name);
      assert forall g :: g in listed <==> g in multiset(listed);
      assert forall g :: g in chosen <==> g in multiset(chosen);
    }
  }

  lemma {:induction false} NamesAlongOf(policy: Policy, groups: seq<Word>, category: Category, name: string)
    ensures name in NamesAlong(policy, groups, category) <==>
      exists g :: g in groups && policy.Categorize(g) == category && policy.name(g) == name
  {
    if groups != [] {
      NamesAlongOf(policy, groups[1..], category, name);
      assert groups == [groups[0]] + groups[1..];
    }
  }

  lemma WeakRaised(texts: Texts, policy: Policy, weak: seq<Word>)
    ensures var findings := WeakFindings(texts, policy, weak);
      && AllUnder(findings, GROUP_WEAK_ACCEPTED)
      && (forall f :: f in findings ==> ListsGroups(policy, f, set g | g in weak))
      && (findings == [] <==> weak == [])
  {
    WeakNames(policy, weak);
  }

  lemma WeakNames(policy: Policy, weak: seq<Word>)
    ensures NamesFor(policy, Sort(Before, GroupNames(policy, weak)), set g | g in weak)
  {
    var names, groups := GroupNames(policy, weak), set g | g in weak;
    BeforeIsTotal();
    SortSorts(Before, names);
    forall name ensures name in Sort(Before, names) <==> exists g :: g in groups && policy.name(g) == name {
      assert name in Sort(Before, names) <==> name in multiset(Sort(Before, names));
      assert name in names <==> name in multiset(names);
      NamedIn(policy, weak, name);
    }
  }

  lemma {:induction false} NamedIn(policy: Policy, weak: seq<Word>, name: string)
    ensures name in GroupNames(policy, weak) <==> exists g :: g in weak && policy.name(g) == name
  {
    if weak != [] {
      NamedIn(policy, weak[1..], name);
      assert weak == [weak[0]] + weak[1..];
      assert GroupNames(policy, weak) == [policy.name(weak[0])] + GroupNames(policy, weak[1..]);
    }
  }

  // The names in a message are told apart by a comma and a space.
  lemma {:induction false} NamesApartByComma(a: seq<string>, b: seq<string>)
    requires a != [] && b != []
    ensures JoinNames(a + b) == JoinNames(a) + ", " + JoinNames(b)
  {
    var n := |b| - 1;
    assert (a + b)[|a + b| - 1] == b[n] && (a + b)[..|a + b| - 1] == a + b[..n];
    if n == 0 {
      assert a + b[..0] == a && JoinNames(b) == b[0];
    } else {
      NamesApartByComma(a, b[..n]);
      Associate(JoinNames(a) + ", ", JoinNames(b[..n]), ", ");
      Associate(JoinNames(a) + ", ", JoinNames(b[..n]) + ", ", b[n]);
    }
  }
}
