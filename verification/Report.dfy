/**
 The report over the findings (cmd/altshift_web_security/report.go): results below a
 level withheld, the rest put worst first, and the rule table cut down to follow them.
 */
module Reports {
  import opened Bytes
  import opened Sorting
  import opened Findings

  // --- Filtering ---------------------------------------------------------------------------

  function AtOrAbove(results: seq<Entry>, min: Level): seq<Finding> {
    if results == [] then [] else
    var n := |results| - 1;
    AtOrAbove(results[..n], min)
    + (if results[n].None? || results[n].value.level.Rank() < min.Rank() then [] else [results[n].value])
  }

  method FilterResults(results: seq<Entry>, min: Level) returns (filtered: seq<Finding>)
    ensures filtered == AtOrAbove(results, min)
  {
    var minRank := min.Rank();
    filtered := [];
    for i := 0 to |results|
      invariant filtered == AtOrAbove(results[..i], min)
    {
      assert results[..i + 1][..i] == results[..i];
      if results[i].None? || results[i].value.level.Rank() < minRank {
        continue;
      }
      filtered := filtered + [results[i].value];
    }
    assert results[..|results|] == results;
  }

  lemma {:induction false} AtOrAboveExact(results: seq<Entry>, min: Level, f: Finding)
    ensures f in AtOrAbove(results, min) <==> Some(f) in results && f.level.Rank() >= min.Rank()
  {
    if results != [] {
      var n := |results| - 1;
      AtOrAboveExact(results[..n], min, f);
      assert results == results[..n] + [results[n]];
    }
  }

  // An open question survives the filter only where nothing at all is withheld: asking
  // for notes and worse takes every one of them out of the report.
  lemma OpenQuestionsWithheld(results: seq<Entry>, min: Level, check: string, reason: string)
    requires Some(NotDetermined(check, reason)) in results
    ensures NotDetermined(check, reason) in AtOrAbove(results, min) <==> min.Rank() == 0
  {
    AtOrAboveExact(results, min, NotDetermined(check, reason));
  }

  // --- Sorting -----------------------------------------------------------------------------

  predicate Worse(a: Finding, b: Finding) {
    a.level.Rank() > b.level.Rank()
  }

  ghost predicate WorstFirst(report: seq<Finding>) {
    forall i, j :: 0 <= i < j < |report| ==> report[i].level.Rank() >= report[j].level.Rank()
  }

  lemma WorstFirstIsOrdered(report: seq<Finding>)
    ensures WeakOrder(Worse)
    ensures WorstFirst(report) <==> Ordered(Worse, report)
  {
    if WorstFirst(report) {
      forall i, j | 0 <= i < j < |report| ensures !Worse(report[j], report[i]) {
        assert report[i].level.Rank() >= report[j].level.Rank();
      }
    }
    if Ordered(Worse, report) {
      forall i, j | 0 <= i < j < |report| ensures report[i].level.Rank() >= report[j].level.Rank() {
        assert !Worse(report[j], report[i]);
      }
    }
  }

  // Within every level the two have the same findings in the same order.
  ghost predicate AsFound(report: seq<Finding>, findings: seq<Finding>) {
    forall f :: Class(Worse, report, f) == Class(Worse, findings, f)
  }

  // The worst first and otherwise as the analysis had them, and there is only one list
  // like that.
  lemma ReportOrder(findings: seq<Finding>, report: seq<Finding>)
    ensures report == Sort(Worse, findings) <==>
      WorstFirst(report) && AsFound(report, findings)
  {
    WorstFirstIsOrdered(report);
    SortSorts(Worse, findings);
    var sorted := Sort(Worse, findings);
    WorstFirstIsOrdered(sorted);
    if AsFound(report, findings) && WorstFirst(report) {
      StableUnique(Worse, report, sorted);
    }
  }

  // sortResults. The library's stable sort stands as an insertion sort; by ReportOrder
  // any stable sort leaves the same array.
  method SortResults(results: array<Finding>)
    modifies results
    ensures results[..] == Sort(Worse, old(results[..]))
  {
    InsertionSort(results, Worse);
  }

  // --- Pruning -----------------------------------------------------------------------------

  predicate Raised(results: seq<Finding>, id: string) {
    exists i :: 0 <= i < |results| && results[i].ruleId == id
  }

  function Pruned(rules: seq<Option<Rule>>, results: seq<Finding>): seq<Rule> {
    if rules == [] then [] else
    var n := |rules| - 1;
    Pruned(rules[..n], results)
    + (if rules[n].Some? && Raised(results, rules[n].value.id) then [rules[n].value] else [])
  }

  method PruneRules(rules: seq<Option<Rule>>, results: seq<Finding>) returns (pruned: seq<Rule>)
    ensures pruned == Pruned(rules, results)
  {
    var raised: map<string, bool> := map[];
    for i := 0 to |results|
      invariant forall id :: id in raised && raised[id] <==> Raised(results[..i], id)
    {
      ghost var before := results[..i];
      assert forall k :: 0 <= k < i ==> results[..i + 1][k] == before[k];
      forall id ensures Raised(results[..i + 1], id) <==> Raised(before, id) || results[i].ruleId == id {
        if results[i].ruleId == id {
          assert results[..i + 1][i].ruleId == id;
        }
        if Raised(before, id) {
          var k :| 0 <= k < |before| && before[k].ruleId == id;
          assert results[..i + 1][k].ruleId == id;
        }
      }
      raised := raised[results[i].ruleId := true];
    }
    assert results[..|results|] == results;
    pruned := [];
    for i := 0 to |rules|
      invariant pruned == Pruned(rules[..i], results)
    {
      assert rules[..i + 1][..i] == rules[..i];
      if rules[i].None? || !(rules[i].value.id in raised && raised[rules[i].value.id]) {
        continue;
      }
      pruned := pruned + [rules[i].value];
    }
    assert rules[..|rules|] == rules;
  }

  // part can be had from whole by leaving things out.
  ghost predicate Sublist<T>(part: seq<T>, whole: seq<T>) {
    if part == [] then true
    else if whole == [] then false
    else
      var m, n := |part| - 1, |whole| - 1;
      (part[m] == whole[n] && Sublist(part[..m], whole[..n])) || Sublist(part, whole[..n])
  }

  function AsEntries(rules: seq<Rule>): (entries: seq<Option<Rule>>)
    ensures |entries| == |rules|
  {
    seq(|rules|, i requires 0 <= i < |rules| => Some(rules[i]))
  }

  lemma PrunedLast(rules: seq<Rule>, results: seq<Finding>)
    requires rules != []
    ensures var n := |rules| - 1;
      Pruned(AsEntries(rules), results)
      == Pruned(AsEntries(rules[..n]), results) + (if Raised(results, rules[n].id) then [rules[n]] else [])
  {
    var n := |rules| - 1;
    assert AsEntries(rules)[..n] == AsEntries(rules[..n]);
  }

  lemma {:induction false} PrunedMembers(rules: seq<Rule>, results: seq<Finding>, r: Rule)
    ensures r in Pruned(AsEntries(rules), results) <==> r in rules && Raised(results, r.id)
  {
    if rules != [] {
      var n := |rules| - 1;
      PrunedMembers(rules[..n], results, r);
      PrunedLast(rules, results);
      assert rules == rules[..n] + [rules[n]];
    }
  }

  lemma {:induction false} PrunedSublist(rules: seq<Rule>, results: seq<Finding>)
    ensures Sublist(Pruned(AsEntries(rules), results), rules)
  {
    if rules != [] {
      var n := |rules| - 1;
      var before, pruned := Pruned(AsEntries(rules[..n]), results), Pruned(AsEntries(rules), results);
      PrunedSublist(rules[..n], results);
      PrunedLast(rules, results);
      if Raised(results, rules[n].id) {
        assert pruned == before + [rules[n]];
        assert pruned[..|pruned| - 1] == before;
      } else {
        assert pruned == before;
      }
    }
  }

  ghost predicate OneRowEach(rules: seq<Rule>) {
    forall i, j :: 0 <= i < j < |rules| ==> rules[i].id != rules[j].id
  }

  lemma {:induction false} PrunedOnce(rules: seq<Rule>, results: seq<Finding>)
    requires OneRowEach(rules)
    ensures OneRowEach(Pruned(AsEntries(rules), results))
  {
    if rules != [] {
      var n := |rules| - 1;
      var before := Pruned(AsEntries(rules[..n]), results);
      PrunedOnce(rules[..n], results);
      PrunedLast(rules, results);
      forall i | 0 <= i < |before| ensures before[i].id != rules[n].id {
        PrunedMembers(rules[..n], results, before[i]);
        assert before[i] in before;
      }
    }
  }

  // --- The log -----------------------------------------------------------------------------

  datatype Log = Log(rules: seq<Rule>, results: seq<Finding>)

  function Finish(run: Analysis, min: Level): Log {
    var results := Sort(Worse, AtOrAbove(run.results, min));
    Log(Pruned(AsEntries(run.rules), results), results)
  }

  // In whatever order they are written.
  lemma ResultsSurvive(results: seq<Entry>, min: Level, written: seq<Finding>, f: Finding)
    requires multiset(written) == multiset(AtOrAbove(results, min))
    ensures f in written <==> Some(f) in results && f.level.Rank() >= min.Rank()
  {
    AtOrAboveExact(results, min, f);
    assert f in written <==> f in multiset(written);
    assert f in AtOrAbove(results, min) <==> f in multiset(AtOrAbove(results, min));
  }

  // The same results, in the order they are written.
  lemma FinishKeeps(run: Analysis, min: Level)
    ensures multiset(Finish(run, min).results) == multiset(AtOrAbove(run.results, min))
  {
    WorstFirstIsOrdered(AtOrAbove(run.results, min));
    SortSorts(Worse, AtOrAbove(run.results, min));
  }

  lemma RaisedIff(results: seq<Finding>, id: string)
    ensures Raised(results, id) <==> exists f :: f in results && f.ruleId == id
  {
    if exists f :: f in results && f.ruleId == id {
      var f :| f in results && f.ruleId == id;
      var i :| 0 <= i < |results| && results[i] == f;
    }
  }

  ghost predicate HasRow(rules: seq<Rule>, id: string) {
    exists r :: r in rules && r.id == id
  }

  lemma RowIff(texts: Texts, results: seq<Entry>, id: string)
    ensures HasRow(Rules(texts, results), id) <==> EverRaised(results, id)
  {
    RuleIdsExact(results);
    var rules, ids := Rules(texts, results), RuleIds(results);
    if id in ids {
      var k :| 0 <= k < |ids| && ids[k] == id;
      assert rules[k] in rules;
    }
  }

  // A rule has a row in the end exactly when a surviving result was raised under it.
  lemma RowSurvives(texts: Texts, results: seq<Entry>, min: Level, id: string)
    ensures var log := Finish(Analysis(Rules(texts, results), results), min);
      HasRow(log.rules, id) <==> id != "" && Raised(log.results, id)
  {
    var rules := Rules(texts, results);
    var log := Finish(Analysis(rules, results), min);
    RaisedIff(log.results, id);
    RowIff(texts, results, id);
    if HasRow(log.rules, id) {
      var r :| r in log.rules && r.id == id;
      PrunedMembers(rules, log.results, r);
    }
    if id != "" && Raised(log.results, id) {
      var f :| f in log.results && f.ruleId == id;
      FinishKeeps(Analysis(rules, results), min);
      ResultsSurvive(results, min, log.results, f);
      assert Raises(Some(f), id);
      var r :| r in rules && r.id == id;
      PrunedMembers(rules, log.results, r);
    }
  }

  // The log is consistent: its rule table holds exactly the rules the surviving results
  // were raised under, each once, in the order of the table the analysis built.
  lemma LogConsistent(texts: Texts, results: seq<Entry>, min: Level)
    ensures var log := Finish(Analysis(Rules(texts, results), results), min);
      && (forall id :: HasRow(log.rules, id) <==> id != "" && Raised(log.results, id))
      && OneRowEach(log.rules)
      && Sublist(log.rules, Rules(texts, results))
      && (forall f :: f in log.results <==> Some(f) in results && f.level.Rank() >= min.Rank())
  {
    var rules := Rules(texts, results);
    var log := Finish(Analysis(rules, results), min);
    RuleIdsExact(results);
    assert OneRowEach(rules);
    PrunedOnce(rules, log.results);
    PrunedSublist(rules, log.results);
    FinishKeeps(Analysis(rules, results), min);
    forall f ensures f in log.results <==> Some(f) in results && f.level.Rank() >= min.Rank() {
      ResultsSurvive(results, min, log.results, f);
    }
    forall id ensures HasRow(log.rules, id) <==> id != "" && Raised(log.results, id) {
      RowSurvives(texts, results, min, id);
    }
  }

  // The three steps a run goes through before it is written.
  method FinishRun(run: Analysis, min: Level) returns (log: Log)
    ensures log == Finish(run, min)
  {
    var filtered := FilterResults(run.results, min);
    var results := new Finding[|filtered|](i requires 0 <= i < |filtered| => filtered[i]);
    assert results[..] == filtered;
    SortResults(results);
    var pruned := PruneRules(AsEntries(run.rules), results[..]);
    log := Log(pruned, results[..]);
  }

  // --- In terms of the levels ------------------------------------------------------------------

  // The findings of one level, in their order; what counts for nothing counts as none.
  function OfLevel(findings: seq<Finding>, level: Level): seq<Finding> {
    if findings == [] then [] else
    (if findings[0].level == level || (level.LevelNone? && findings[0].level.Unknown?) then [findings[0]] else [])
    + OfLevel(findings[1..], level)
  }

  // The report has the errors first, then the warnings, then the notes, then the rest.
  lemma ReportByLevel(findings: seq<Finding>)
    ensures Sort(Worse, findings)
      == OfLevel(findings, LevelError) + OfLevel(findings, LevelWarning)
        + OfLevel(findings, LevelNote) + OfLevel(findings, LevelNone)
  {
    var report := ByLevel(findings);
    ByLevelWorstFirst(findings);
    forall f ensures Class(Worse, report, f) == Class(Worse, findings, f) {
      ByLevelAsFound(findings, f);
    }
    ReportOrder(findings, report);
  }

  function ByLevel(findings: seq<Finding>): seq<Finding> {
    OfLevel(findings, LevelError) + OfLevel(findings, LevelWarning)
    + OfLevel(findings, LevelNote) + OfLevel(findings, LevelNone)
  }

  lemma {:induction false} LevelOf(findings: seq<Finding>, level: Level)
    requires !level.Unknown?
    ensures forall i :: 0 <= i < |OfLevel(findings, level)| ==> OfLevel(findings, level)[i].level.Rank() == level.Rank()
  {
    if findings != [] {
      LevelOf(findings[1..], level);
    }
  }

  lemma ByLevelWorstFirst(findings: seq<Finding>)
    ensures WorstFirst(ByLevel(findings))
  {
    LevelOf(findings, LevelError);
    LevelOf(findings, LevelWarning);
    LevelOf(findings, LevelNote);
    LevelOf(findings, LevelNone);
  }

  // Each level is the class of what ranks with it.
  lemma {:induction false} LevelIsClass(findings: seq<Finding>, level: Level, f: Finding)
    requires !level.Unknown?
    ensures Class(Worse, OfLevel(findings, level), f)
      == if f.level.Rank() == level.Rank() then Class(Worse, findings, f) else []
  {
    if findings != [] {
      LevelIsClass(findings[1..], level, f);
      var head := if findings[0].level == level || (level.LevelNone? && findings[0].level.Unknown?) then [findings[0]]
        else [];
      ClassAppend(Worse, head, OfLevel(findings[1..], level), f);
      ClassAppend(Worse, [findings[0]], findings[1..], f);
      assert [findings[0]] + findings[1..] == findings;
    }
  }

  lemma OneOfFour(c: seq<Finding>, rank: nat)
    requires rank <= 3
    ensures (if rank == 3 then c else []) + (if rank == 2 then c else [])
      + (if rank == 1 then c else []) + (if rank == 0 then c else []) == c
  {
  }

  lemma ByLevelAsFound(findings: seq<Finding>, f: Finding)
    ensures Class(Worse, ByLevel(findings), f) == Class(Worse, findings, f)
  {
    var e, w, n, z := OfLevel(findings, LevelError), OfLevel(findings, LevelWarning),
                      OfLevel(findings, LevelNote), OfLevel(findings, LevelNone);
    ClassOfFour(e, w, n, z, f);
    LevelIsClass(findings, LevelError, f);
    LevelIsClass(findings, LevelWarning, f);
    LevelIsClass(findings, LevelNote, f);
    LevelIsClass(findings, LevelNone, f);
    OneOfFour(Class(Worse, findings, f), f.level.Rank());
  }

  lemma ClassOfFour(e: seq<Finding>, w: seq<Finding>, n: seq<Finding>, z: seq<Finding>, f: Finding)
    ensures Class(Worse, e + w + n + z, f)
      == Class(Worse, e, f) + Class(Worse, w, f) + Class(Worse, n, f) + Class(Worse, z, f)
  {
    ClassAppend(Worse, e + w + n, z, f);
    ClassAppend(Worse, e + w, n, f);
    ClassAppend(Worse, e, w, f);
  }

  // What each choice of level keeps: errors always, warnings unless only errors are asked
  // for, notes at notes and below, and the rest only where nothing is withheld.
  predicate Wanted(level: Level, min: Level) {
    match min
    case LevelError => level.LevelError?
    case LevelWarning => level.LevelError? || level.LevelWarning?
    case LevelNote => level.LevelError? || level.LevelWarning? || level.LevelNote?
    case LevelNone => true
    case Unknown(_) => true
  }

  lemma KeptByLevel(results: seq<Entry>, min: Level, f: Finding)
    ensures f in AtOrAbove(results, min) <==> Some(f) in results && Wanted(f.level, min)
  {
    AtOrAboveExact(results, min, f);
  }
}
