/**
 The version scan as it runs: one goroutine a version, a semaphore that bounds how many
 are at work, a shared count of connections and a shared list of phases cut short
 (probeVersions in pkg/tls/probe/version.go, takeConnection and noteIncomplete in
 pkg/tls/probe/probe.go). A run is any interleaving of the goroutines' atomic steps.
 */
module Concurrency {
  import opened Bytes
  import opened ServerHellos
  import opened Flights
  import opened ClientHellos
  import opened Suites
  import opened Probing
  import opened Scans

  // A goroutine: before the semaphore, at work, having written its slot of the result,
  // and past the release. Between taking a connection and hearing the reply it remembers
  // whether the budget granted it.
  datatype Slot =
    | Waiting
    | Running(scan: Scan, pending: Option<bool>)
    | Written
    | Finished
  {
    // Holds the semaphore.
    predicate InFlight() {
      Running? || Written?
    }
  }

  datatype State = State(
    world: World,
    slots: seq<Slot>,
    versions: seq<Option<Version>>)

  // The steps. Hearing comes with whatever the server happened to say.
  datatype Action =
    | Acquire(i: nat)
    | TakeOne(i: nat)
    | Hear(i: nat, reply: Reply)
    | Deny(i: nat)
    | GiveUp(i: nat)
    | Write(i: nat)
    | Release(i: nat)

  function Init(probed: seq<Word>): State {
    State(World(0, 0, []), seq(|probed|, _ => Waiting), seq(|probed|, _ => None))
  }

  function Limit(ctx: Context): nat {
    if ctx.settings.concurrency < 1 then 1 else ctx.settings.concurrency
  }

  function Total(values: seq<nat>): nat {
    if values == [] then 0 else values[0] + Total(values[1..])
  }

  lemma {:induction false} TotalUpdate(values: seq<nat>, i: nat, x: nat)
    requires i < |values|
    ensures Total(values[i := x]) + values[i] == Total(values) + x
  {
    if i > 0 {
      TotalUpdate(values[1..], i - 1, x);
      assert values[i := x][1..] == values[1..][i - 1 := x];
    }
  }

  function Flags(slots: seq<Slot>): (flags: seq<nat>)
    ensures |flags| == |slots|
    ensures forall i :: 0 <= i < |slots| ==> flags[i] == if slots[i].InFlight() then 1 else 0
  {
    seq(|slots|, i requires 0 <= i < |slots| => if slots[i].InFlight() then 1 else 0)
  }

  // How many scans are in flight.
  function InFlight(slots: seq<Slot>): nat {
    Total(Flags(slots))
  }

  predicate Enabled(ctx: Context, s: State, a: Action) {
    && |s.slots| == |s.versions|
    && a.i < |s.slots|
    && var slot := s.slots[a.i];
       match a
       case Acquire(_) => slot.Waiting? && InFlight(s.slots) < Limit(ctx)
       case TakeOne(_) =>
         slot.Running? && slot.pending.None? && !slot.scan.Done? && slot.scan.attempt <= ctx.settings.retryLimit
       case Hear(_, _) => slot.Running? && slot.pending == Some(true) && !slot.scan.Done?
       case Deny(_) => slot.Running? && slot.pending == Some(false) && !slot.scan.Done?
       case GiveUp(_) =>
         slot.Running? && slot.pending.None? && !slot.scan.Done? && slot.scan.attempt > ctx.settings.retryLimit
       case Write(_) => slot.Running? && slot.pending.None? && slot.scan.Done?
       case Release(_) => slot.Written?
  }

  function Apply(ctx: Context, probed: seq<Word>, s: State, a: Action): State
    requires Enabled(ctx, s, a) && |probed| == |s.slots|
  {
    var slot := s.slots[a.i];
    match a
    case Acquire(i) =>
      s.(slots := s.slots[i := Running(Start(ctx, probed[i]), None)])
    case TakeOne(i) =>
      var (ok, w) := Take(ctx, s.world);
      s.(world := w, slots := s.slots[i := Running(slot.scan, Some(ok))])
    case Hear(i, reply) =>
      var (next, notes) := Hearing(ctx, slot.scan, reply);
      s.(world := Noted(s.world, notes), slots := s.slots[i := Running(next, None)])
    case Deny(i) =>
      var (next, notes) := Settle(ctx, slot.scan, Exhausted);
      s.(world := Noted(s.world, notes), slots := s.slots[i := Running(next, None)])
    case GiveUp(i) =>
      var (next, notes) := Settle(ctx, slot.scan, Failed);
      s.(world := Noted(s.world, notes), slots := s.slots[i := Running(next, None)])
    case Write(i) =>
      s.(slots := s.slots[i := Written], versions := s.versions[i := Some(slot.scan.result)])
    case Release(i) =>
      s.(slots := s.slots[i := Finished])
  }

  // Where a sequence of steps from the beginning leads, when each can be taken.
  function Run(ctx: Context, probed: seq<Word>, actions: seq<Action>): (s: Option<State>)
    ensures s.Some? ==> |s.value.slots| == |s.value.versions| == |probed|
  {
    if actions == [] then Some(Init(probed)) else
    var n := |actions| - 1;
    var before := Run(ctx, probed, actions[..n]);
    if before.None? || !Enabled(ctx, before.value, actions[n]) then None
    else Some(Apply(ctx, probed, before.value, actions[n]))
  }

  predicate AllOver(s: State) {
    forall i :: 0 <= i < |s.slots| ==> s.slots[i].Finished?
  }

  // --- What every run keeps -----------------------------------------------------------------

  ghost predicate SlotOk(ctx: Context, s: State, probed: seq<Word>, i: nat)
    requires |s.slots| == |s.versions| == |probed| && i < |probed|
  {
    match s.slots[i]
    case Waiting => s.versions[i] == None
    case Running(scan, pending) =>
      && s.versions[i] == None
      && Sensible(scan)
      && scan.Asked() == probed[i]
      && (pending.Some? ==> !scan.Done? && scan.attempt <= ctx.settings.retryLimit)
      && (pending == Some(false) ==> s.world.spent > ctx.settings.Budget())
    case Written => s.versions[i].Some? && s.versions[i].value.version == probed[i]
    case Finished => s.versions[i].Some? && s.versions[i].value.version == probed[i]
  }

  predicate Refusing(slot: Slot) {
    slot.Running? && slot.pending == Some(false)
  }

  function Denials(slots: seq<Slot>): (flags: seq<nat>)
    ensures |flags| == |slots|
    ensures forall i :: 0 <= i < |slots| ==> flags[i] == if Refusing(slots[i]) then 1 else 0
  {
    seq(|slots|, i requires 0 <= i < |slots| => if Refusing(slots[i]) then 1 else 0)
  }

  // How many scans have been refused a connection and have not noted it yet.
  function Denied(slots: seq<Slot>): nat {
    Total(Denials(slots))
  }

  lemma DeniedUpdate(slots: seq<Slot>, i: nat, slot: Slot)
    requires i < |slots|
    ensures Denied(slots[i := slot]) + (if Refusing(slots[i]) then 1 else 0)
      == Denied(slots) + (if Refusing(slot) then 1 else 0)
  {
    TotalUpdate(Denials(slots), i, if Refusing(slot) then 1 else 0);
    assert Denials(slots[i := slot]) == Denials(slots)[i := if Refusing(slot) then 1 else 0];
  }

  // No more are in flight than the semaphore has room for; each slot of the result is
  // filled, with its own version, exactly when its goroutine has finished; the grants are
  // the attempts up to the budget; and every attempt that was refused has noted a phase of
  // its own or is about to.
  ghost predicate Inv(ctx: Context, probed: seq<Word>, s: State) {
    && |s.slots| == |s.versions| == |probed|
    && InFlight(s.slots) <= Limit(ctx)
    && (forall i :: 0 <= i < |probed| ==> SlotOk(ctx, s, probed, i))
    && s.world.granted == (if s.world.spent <= ctx.settings.Budget() then s.world.spent else ctx.settings.Budget())
    && s.world.spent - s.world.granted <= |s.world.incomplete| + Denied(s.slots)
  }

  lemma InFlightUpdate(slots: seq<Slot>, i: nat, slot: Slot)
    requires i < |slots|
    ensures InFlight(slots[i := slot]) + (if slots[i].InFlight() then 1 else 0)
      == InFlight(slots) + (if slot.InFlight() then 1 else 0)
  {
    TotalUpdate(Flags(slots), i, if slot.InFlight() then 1 else 0);
    assert Flags(slots[i := slot]) == Flags(slots)[i := if slot.InFlight() then 1 else 0];
  }

  lemma {:induction false} TotalZero(values: seq<nat>)
    requires forall i :: 0 <= i < |values| ==> values[i] == 0
    ensures Total(values) == 0
  {
    if values != [] {
      TotalZero(values[1..]);
    }
  }

  lemma InitInv(ctx: Context, probed: seq<Word>)
    ensures Inv(ctx, probed, Init(probed))
  {
    TotalZero(Denials(Init(probed).slots));
    TotalZero(Flags(Init(probed).slots));
  }

  // Every step keeps the slots in order.
  lemma StepKeepsSlots(ctx: Context, probed: seq<Word>, s: State, a: Action)
    requires Inv(ctx, probed, s) && Enabled(ctx, s, a)
    ensures var t := Apply(ctx, probed, s, a);
      && |t.slots| == |t.versions| == |probed|
      && InFlight(t.slots) <= Limit(ctx)
      && forall i :: 0 <= i < |probed| ==> SlotOk(ctx, t, probed, i)
  {
    var t := Apply(ctx, probed, s, a);
    InFlightUpdate(s.slots, a.i, t.slots[a.i]);
    assert t.slots == s.slots[a.i := t.slots[a.i]];
    assert t.world.spent >= s.world.spent;
    assert SlotOk(ctx, s, probed, a.i);
    assert SlotOk(ctx, t, probed, a.i) by {
      match a
      case Hear(i, reply) => HearingProgresses(ctx, s.slots[i].scan, reply);
      case Deny(i) => SettleProgresses(ctx, s.slots[i].scan, Exhausted);
      case GiveUp(i) => SettleProgresses(ctx, s.slots[i].scan, Failed);
      case _ =>
    }
    forall i | 0 <= i < |probed| && i != a.i ensures SlotOk(ctx, t, probed, i) {
      assert SlotOk(ctx, s, probed, i);
    }
  }

  lemma StepKeepsCounts(ctx: Context, probed: seq<Word>, s: State, a: Action)
    requires Inv(ctx, probed, s) && Enabled(ctx, s, a)
    ensures var t := Apply(ctx, probed, s, a);
      && t.world.granted == (if t.world.spent <= ctx.settings.Budget() then t.world.spent else ctx.settings.Budget())
      && t.world.spent - t.world.granted <= |t.world.incomplete| + Denied(t.slots)
  {
    var t := Apply(ctx, probed, s, a);
    assert SlotOk(ctx, s, probed, a.i);
    DeniedUpdate(s.slots, a.i, t.slots[a.i]);
    assert t.slots == s.slots[a.i := t.slots[a.i]];
    if a.Deny? {
      SettleProgresses(ctx, s.slots[a.i].scan, Exhausted);
    }
  }

  // Safety of every run, whatever the interleaving and whatever the server says.
  lemma {:induction false} RunInv(ctx: Context, probed: seq<Word>, actions: seq<Action>)
    requires Run(ctx, probed, actions).Some?
    ensures Inv(ctx, probed, Run(ctx, probed, actions).value)
  {
    if actions == [] {
      InitInv(ctx, probed);
    } else {
      var n := |actions| - 1;
      RunInv(ctx, probed, actions[..n]);
      var s := Run(ctx, probed, actions[..n]).value;
      StepKeepsSlots(ctx, probed, s, actions[n]);
      StepKeepsCounts(ctx, probed, s, actions[n]);
    }
  }

  // The scans between the semaphore and its release.
  ghost function Flying(slots: seq<Slot>): set<int> {
    set i | 0 <= i < |slots| && (slots[i].Running? || slots[i].Written?)
  }

  lemma {:induction false} TotalSnoc(values: seq<nat>, x: nat)
    ensures Total(values + [x]) == Total(values) + x
  {
    if values == [] {
      assert values + [x] == [x] && [x][1..] == [];
    } else {
      assert (values + [x])[0] == values[0] && (values + [x])[1..] == values[1..] + [x];
      TotalSnoc(values[1..], x);
    }
  }

  lemma {:induction false} FlyingCounted(slots: seq<Slot>)
    ensures InFlight(slots) == |Flying(slots)|
  {
    if slots == [] {
      assert Flying(slots) == {};
    } else {
      var n := |slots| - 1;
      FlyingCounted(slots[..n]);
      var last := if slots[n].InFlight() then 1 else 0;
      assert Flags(slots) == Flags(slots[..n]) + [last];
      TotalSnoc(Flags(slots[..n]), last);
      assert Flying(slots) == Flying(slots[..n]) + (if slots[n].InFlight() then {n} else {});
    }
  }

  // Never more scans at once than the setting allows, or one where it allows none.
  lemma SemaphoreHolds(ctx: Context, probed: seq<Word>, actions: seq<Action>)
    requires Run(ctx, probed, actions).Some?
    ensures var flying := |Flying(Run(ctx, probed, actions).value.slots)|;
      flying <= 1 || flying <= ctx.settings.concurrency
  {
    RunInv(ctx, probed, actions);
    FlyingCounted(Run(ctx, probed, actions).value.slots);
  }

  // The first k goroutines are at work and the others wait.
  ghost predicate FirstAtWork(slots: seq<Slot>, k: nat) {
    k <= |slots| && forall i :: 0 <= i < |slots| ==> if i < k then slots[i].Running? else slots[i].Waiting?
  }

  lemma {:induction false} FirstFlying(slots: seq<Slot>, k: nat)
    requires FirstAtWork(slots, k)
    ensures |Flying(slots)| == k
  {
    if slots == [] {
      assert Flying(slots) == {};
    } else {
      var n := |slots| - 1;
      FirstFlying(slots[..n], if k == |slots| then n else k);
      assert Flying(slots) == Flying(slots[..n]) + (if k == |slots| then {n} else {});
    }
  }

  // And as many as it allows can be under way at once: the first k goroutines acquire it one
  // after another.
  lemma {:induction false} SemaphoreAdmits(ctx: Context, probed: seq<Word>, k: nat) returns (actions: seq<Action>)
    requires k <= |probed| && (k <= 1 || k <= ctx.settings.concurrency)
    ensures Run(ctx, probed, actions).Some?
    ensures FirstAtWork(Run(ctx, probed, actions).value.slots, k)
    ensures |Flying(Run(ctx, probed, actions).value.slots)| == k
  {
    if k == 0 {
      actions := [];
    } else {
      var before := SemaphoreAdmits(ctx, probed, k - 1);
      FlyingCounted(Run(ctx, probed, before).value.slots);
      actions := before + [Acquire(k - 1)];
      assert actions[..|actions| - 1] == before;
    }
    FirstFlying(Run(ctx, probed, actions).value.slots, k);
  }

  // When a run is over every version has its result, in its own slot, and every refused
  // attempt has left a phase of its own behind.
  lemma RunOverComplete(ctx: Context, probed: seq<Word>, actions: seq<Action>)
    requires Run(ctx, probed, actions).Some? && AllOver(Run(ctx, probed, actions).value)
    ensures var s := Run(ctx, probed, actions).value;
      && (forall i :: 0 <= i < |probed| ==> s.versions[i].Some? && s.versions[i].value.version == probed[i])
      && s.world.granted == (if s.world.spent <= ctx.settings.Budget() then s.world.spent else ctx.settings.Budget())
      && s.world.spent - s.world.granted <= |s.world.incomplete|
  {
    RunInv(ctx, probed, actions);
    var s := Run(ctx, probed, actions).value;
    TotalZero(Denials(s.slots));
    forall i | 0 <= i < |probed| ensures s.versions[i].Some? && s.versions[i].value.version == probed[i] {
      assert SlotOk(ctx, s, probed, i);
    }
  }

  // A slot is written by one step of a run at most, and has a result exactly when it was.
  function Writes(actions: seq<Action>, i: nat): nat {
    if actions == [] then 0 else
    Writes(actions[..|actions| - 1], i) + (if actions[|actions| - 1] == Write(i) then 1 else 0)
  }

  lemma {:induction false} WrittenOnce(ctx: Context, probed: seq<Word>, actions: seq<Action>, i: nat)
    requires Run(ctx, probed, actions).Some? && i < |probed|
    ensures Writes(actions, i) == if Run(ctx, probed, actions).value.versions[i].Some? then 1 else 0
  {
    if actions != [] {
      var n := |actions| - 1;
      WrittenOnce(ctx, probed, actions[..n], i);
      RunInv(ctx, probed, actions[..n]);
      assert SlotOk(ctx, Run(ctx, probed, actions[..n]).value, probed, i);
    }
  }

  // --- No run gets stuck, and none goes on for ever -------------------------------------------

  // Until it is over a run has a step to take.
  lemma CanGoOn(ctx: Context, probed: seq<Word>, s: State)
    requires Inv(ctx, probed, s) && !AllOver(s)
    ensures exists a :: Enabled(ctx, s, a)
  {
    var i :| 0 <= i < |s.slots| && !s.slots[i].Finished?;
    if exists k :: 0 <= k < |s.slots| && s.slots[k].InFlight() {
      var k :| 0 <= k < |s.slots| && s.slots[k].InFlight();
      assert SlotOk(ctx, s, probed, k);
      InFlightGoesOn(ctx, s, k);
    } else {
      TotalZero(Flags(s.slots));
      assert Enabled(ctx, s, Acquire(i));
    }
  }

  lemma InFlightGoesOn(ctx: Context, s: State, k: nat)
    requires |s.slots| == |s.versions| && k < |s.slots| && s.slots[k].InFlight()
    requires s.slots[k].Running? && s.slots[k].pending.Some? ==> !s.slots[k].scan.Done?
    ensures exists a :: Enabled(ctx, s, a)
  {
    match s.slots[k]
    case Written => assert Enabled(ctx, s, Release(k));
    case Running(scan, Some(true)) => assert Enabled(ctx, s, Hear(k, Lost(false)));
    case Running(scan, Some(false)) => assert Enabled(ctx, s, Deny(k));
    case Running(scan, None) =>
      if scan.Done? {
        assert Enabled(ctx, s, Write(k));
      } else if scan.attempt <= ctx.settings.retryLimit {
        assert Enabled(ctx, s, TakeOne(k));
      } else {
        assert Enabled(ctx, s, GiveUp(k));
      }
  }

  // An upper bound on the steps a question can take, its attempts and its settling.
  function PerQuestion(ctx: Context): nat {
    if ctx.settings.retryLimit < 0 then 1 else 2 * ctx.settings.retryLimit + 3
  }

  function Times(n: nat, m: nat): nat {
    if n == 0 then 0 else m + Times(n - 1, m)
  }

  lemma {:induction false} TimesGrows(a: nat, b: nat, m: nat)
    requires a <= b
    ensures Times(a, m) <= Times(b, m)
    ensures a < b ==> Times(a, m) + m <= Times(b, m)
  {
    if a < b {
      TimesGrows(a, b - 1, m);
    }
  }

  // The steps a scan may still take, at most.
  function ScanWork(ctx: Context, scan: Scan, pending: Option<bool>): nat {
    if scan.Done? then 0 else
    var attempts := 2 * AttemptsLeft(ctx, scan) + 1;
    Times(Questions(ctx, scan), PerQuestion(ctx)) + (if pending.Some? then attempts - 1 else attempts)
  }

  function Work(ctx: Context, version: Word, slot: Slot): nat {
    match slot
    case Waiting => 3 + ScanWork(ctx, Start(ctx, version), None)
    case Running(scan, pending) => 2 + ScanWork(ctx, scan, pending)
    case Written => 1
    case Finished => 0
  }

  function AllWork(ctx: Context, probed: seq<Word>, slots: seq<Slot>): (work: seq<nat>)
    requires |probed| == |slots|
    ensures |work| == |slots|
    ensures forall i :: 0 <= i < |slots| ==> work[i] == Work(ctx, probed[i], slots[i])
  {
    seq(|slots|, i requires 0 <= i < |slots| => Work(ctx, probed[i], slots[i]))
  }

  lemma FewerQuestionsLessWork(ctx: Context, scan: Scan, next: Scan, pending: Option<bool>)
    requires !scan.Done? && Questions(ctx, next) < Questions(ctx, scan)
    requires pending.Some? ==> AttemptsLeft(ctx, scan) > 0
    ensures ScanWork(ctx, next, None) < ScanWork(ctx, scan, pending)
  {
    TimesGrows(Questions(ctx, next), Questions(ctx, scan), PerQuestion(ctx));
  }

  lemma StepDoesWork(ctx: Context, probed: seq<Word>, s: State, a: Action)
    requires Inv(ctx, probed, s) && Enabled(ctx, s, a)
    ensures var t := Apply(ctx, probed, s, a);
      Work(ctx, probed[a.i], t.slots[a.i]) < Work(ctx, probed[a.i], s.slots[a.i])
  {
    assert SlotOk(ctx, s, probed, a.i);
    var slot := s.slots[a.i];
    match a
    case Hear(i, reply) =>
      HearingProgresses(ctx, slot.scan, reply);
      var next := Hearing(ctx, slot.scan, reply).0;
      if Questions(ctx, next) < Questions(ctx, slot.scan) {
        FewerQuestionsLessWork(ctx, slot.scan, next, slot.pending);
      }
    case Deny(i) =>
      SettleProgresses(ctx, slot.scan, Exhausted);
      FewerQuestionsLessWork(ctx, slot.scan, Settle(ctx, slot.scan, Exhausted).0, slot.pending);
    case GiveUp(i) =>
      SettleProgresses(ctx, slot.scan, Failed);
      FewerQuestionsLessWork(ctx, slot.scan, Settle(ctx, slot.scan, Failed).0, slot.pending);
    case _ =>
  }

  // Every step uses up some of a bounded amount of work, so every run ends.
  lemma {:induction false} RunBounded(ctx: Context, probed: seq<Word>, actions: seq<Action>)
    requires Run(ctx, probed, actions).Some?
    ensures |actions| + Total(AllWork(ctx, probed, Run(ctx, probed, actions).value.slots))
      <= Total(AllWork(ctx, probed, Init(probed).slots))
  {
    if actions != [] {
      var n := |actions| - 1;
      RunBounded(ctx, probed, actions[..n]);
      RunInv(ctx, probed, actions[..n]);
      var s := Run(ctx, probed, actions[..n]).value;
      var t := Apply(ctx, probed, s, actions[n]);
      var i := actions[n].i;
      StepDoesWork(ctx, probed, s, actions[n]);
      TotalUpdate(AllWork(ctx, probed, s.slots), i, Work(ctx, probed[i], t.slots[i]));
      assert AllWork(ctx, probed, t.slots)
        == AllWork(ctx, probed, s.slots)[i := Work(ctx, probed[i], t.slots[i])];
    }
  }

  // --- The schedule makes no difference ------------------------------------------------------

  // Every reply heard in a run is the one a server without a memory gives.
  predicate Answered(ctx: Context, probed: seq<Word>, actions: seq<Action>, answer: ClientHello -> Reply)
    requires Run(ctx, probed, actions).Some?
  {
    if actions == [] then true else
    var n := |actions| - 1;
    var s := Run(ctx, probed, actions[..n]).value;
    && Answered(ctx, probed, actions[..n], answer)
    && (actions[n].Hear? ==> actions[n].reply == answer(NextHello(ctx, s.slots[actions[n].i].scan)))
  }

  function SoloOf(ctx: Context, answer: ClientHello -> Reply, version: Word): Solo {
    RunSolo(ctx, answer, Start(ctx, version))
  }

  // The connections a goroutine has still to take, when it is scanning by itself.
  function CostLeft(ctx: Context, answer: ClientHello -> Reply, version: Word, slot: Slot): nat {
    match slot
    case Waiting => SoloOf(ctx, answer, version).cost
    case Running(scan, pending) =>
      if !Sensible(scan) then 0 else
      var cost := RunSolo(ctx, answer, scan).cost;
      if pending.Some? && cost > 0 then cost - 1 else cost
    case _ => 0
  }

  function AllCost(ctx: Context, answer: ClientHello -> Reply, probed: seq<Word>, slots: seq<Slot>): (cost: seq<nat>)
    requires |probed| == |slots|
    ensures |cost| == |slots|
    ensures forall i :: 0 <= i < |slots| ==> cost[i] == CostLeft(ctx, answer, probed[i], slots[i])
  {
    seq(|slots|, i requires 0 <= i < |slots| => CostLeft(ctx, answer, probed[i], slots[i]))
  }

  // What a scan would cost by itself, summed over the versions.
  function FullCost(ctx: Context, answer: ClientHello -> Reply, probed: seq<Word>): nat {
    Total(AllCost(ctx, answer, probed, Init(probed).slots))
  }

  // A goroutine is on the way to what its scan comes to by itself.
  ghost predicate OnTheWay(
    ctx: Context, answer: ClientHello -> Reply, version: Word, slot: Slot, result: Option<Version>)
  {
    match slot
    case Waiting => true
    case Running(scan, pending) =>
      && Sensible(scan)
      && RunSolo(ctx, answer, scan).result == SoloOf(ctx, answer, version).result
      && pending != Some(false)
      && (pending.Some? ==> RunSolo(ctx, answer, scan).cost > 0)
    case _ => result == Some(SoloOf(ctx, answer, version).result)
  }

  // One step of one goroutine: it stays on its way, and the connections spent and still
  // to be taken add up as before.
  lemma StepOnTheWay(ctx: Context, probed: seq<Word>, s: State, a: Action, answer: ClientHello -> Reply)
    requires Inv(ctx, probed, s) && Enabled(ctx, s, a)
    requires a.Hear? ==> a.reply == answer(NextHello(ctx, s.slots[a.i].scan))
    requires OnTheWay(ctx, answer, probed[a.i], s.slots[a.i], s.versions[a.i])
    requires s.world.spent + CostLeft(ctx, answer, probed[a.i], s.slots[a.i]) <= ctx.settings.maxConnections
    ensures var t := Apply(ctx, probed, s, a);
      && OnTheWay(ctx, answer, probed[a.i], t.slots[a.i], t.versions[a.i])
      && t.world.spent + CostLeft(ctx, answer, probed[a.i], t.slots[a.i])
        == s.world.spent + CostLeft(ctx, answer, probed[a.i], s.slots[a.i])
  {
    assert SlotOk(ctx, s, probed, a.i);
    var slot := s.slots[a.i];
    match a
    case Hear(i, reply) => HearingProgresses(ctx, slot.scan, reply);
    case GiveUp(i) => SettleProgresses(ctx, slot.scan, Failed);
    case _ =>
  }

  lemma {:induction false} TotalCovers(values: seq<nat>, i: nat)
    requires i < |values|
    ensures values[i] <= Total(values)
  {
    if i > 0 {
      TotalCovers(values[1..], i - 1);
    }
  }

  ghost predicate AllOnTheWay(ctx: Context, probed: seq<Word>, s: State, answer: ClientHello -> Reply)
    requires |s.slots| == |s.versions| == |probed|
  {
    && (forall i :: 0 <= i < |probed| ==> OnTheWay(ctx, answer, probed[i], s.slots[i], s.versions[i]))
    && s.world.spent + Total(AllCost(ctx, answer, probed, s.slots)) == FullCost(ctx, answer, probed)
  }

  lemma {:induction false} RunOnTheWay(
    ctx: Context, probed: seq<Word>, actions: seq<Action>, answer: ClientHello -> Reply)
    requires Run(ctx, probed, actions).Some? && Answered(ctx, probed, actions, answer)
    requires FullCost(ctx, answer, probed) <= ctx.settings.maxConnections
    ensures AllOnTheWay(ctx, probed, Run(ctx, probed, actions).value, answer)
  {
    if actions != [] {
      var n := |actions| - 1;
      RunOnTheWay(ctx, probed, actions[..n], answer);
      RunInv(ctx, probed, actions[..n]);
      var s := Run(ctx, probed, actions[..n]).value;
      var a := actions[n];
      var t := Apply(ctx, probed, s, a);
      TotalCovers(AllCost(ctx, answer, probed, s.slots), a.i);
      StepOnTheWay(ctx, probed, s, a, answer);
      var left := CostLeft(ctx, answer, probed[a.i], t.slots[a.i]);
      TotalUpdate(AllCost(ctx, answer, probed, s.slots), a.i, left);
      assert AllCost(ctx, answer, probed, t.slots) == AllCost(ctx, answer, probed, s.slots)[a.i := left];
      forall i | 0 <= i < |probed| ensures OnTheWay(ctx, answer, probed[i], t.slots[i], t.versions[i]) {
        assert OnTheWay(ctx, answer, probed[i], s.slots[i], s.versions[i]);
      }
    }
  }

  // The main result on schedules. Against a server without a memory, with a budget that
  // covers the scans one by one, every schedule ends with the same results: in each slot
  // what the version probe finds when it runs alone, for the same number of connections.
  lemma ScheduleMakesNoDifference(
    ctx: Context, probed: seq<Word>, actions: seq<Action>, answer: ClientHello -> Reply)
    requires Run(ctx, probed, actions).Some? && Answered(ctx, probed, actions, answer)
    requires AllOver(Run(ctx, probed, actions).value)
    requires Memoryless(ctx, answer)
    requires FullCost(ctx, answer, probed) <= ctx.settings.maxConnections
    ensures var s := Run(ctx, probed, actions).value;
      && s.world.spent == FullCost(ctx, answer, probed)
      && forall i :: 0 <= i < |probed| ==>
        s.versions[i] == Some(VersionProbe(ctx, World(0, 0, []), probed[i]).0)
  {
    RunOnTheWay(ctx, probed, actions, answer);
    var s := Run(ctx, probed, actions).value;
    forall i | 0 <= i < |probed| ensures AllCost(ctx, answer, probed, s.slots)[i] == 0 {
    }
    TotalZero(AllCost(ctx, answer, probed, s.slots));
    forall i | 0 <= i < |probed|
      ensures s.versions[i] == Some(VersionProbe(ctx, World(0, 0, []), probed[i]).0)
    {
      assert OnTheWay(ctx, answer, probed[i], s.slots[i], s.versions[i]);
      TotalCovers(AllCost(ctx, answer, probed, Init(probed).slots), i);
      RunIsSolo(ctx, answer, World(0, 0, []), Start(ctx, probed[i]));
      ScanIsVersionProbe(ctx, World(0, 0, []), probed[i]);
    }
  }
}
