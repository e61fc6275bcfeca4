/**
 The cipher suite catalogue and the policy's verdict on it
 (pkg/tls/cipher_suite/cipher_suite.go). The entries and the policy's lists are
 parameters; what is modelled is how they are selected, ordered and ranked.
 */
module Suites {
  import opened Bytes
  import opened ServerHellos
  import opened Sorting

  datatype KeyExchange = Ecdhe | Dhe | Rsa | DhAnon | EcdhAnon | Negotiated

  datatype Category = Good | Sufficient | PhaseOut | Insufficient {
    // Best to worst.
    function Rank(): nat {
      match this
      case Good => 0
      case Sufficient => 1
      case PhaseOut => 2
      case Insufficient => 3
    }
  }

  datatype Suite = Suite(id: Word, name: string, keyExchange: KeyExchange, minVersion: Word) {
    predicate IsTls13() {
      minVersion == VERSION_TLS13
    }

    predicate FiniteField() {
      keyExchange.Dhe? || keyExchange.DhAnon?
    }

    predicate ForwardSecrecy() {
      keyExchange.Ecdhe? || keyExchange.Dhe? || keyExchange.Negotiated?
    }

    // The two registries do not mix, and a suite belongs to no version before its own.
    predicate NegotiableAt(version: Word) {
      (IsTls13() <==> version >= VERSION_TLS13) && version >= minVersion
    }
  }

  datatype Registry = Registry(
    catalogue: seq<Suite>, good: set<string>, sufficient: set<string>, phaseOut: set<string>)
  {
    // What the catalogue is required to be: ids that are distinct and not zero.
    ghost predicate Valid() {
      && (forall i :: 0 <= i < |catalogue| ==> catalogue[i].id != 0)
      && (forall i, j :: 0 <= i < j < |catalogue| ==> catalogue[i].id != catalogue[j].id)
    }

    function ById(id: Word): Option<Suite> {
      Find(catalogue, id)
    }

    // A suite the catalogue does not know is insufficient.
    function Categorize(id: Word): Category {
      var suite := ById(id);
      if suite.None? then Insufficient
      else if suite.value.name in good then Good
      else if suite.value.name in sufficient then Sufficient
      else if suite.value.name in phaseOut then PhaseOut
      else Insufficient
    }

    function RankOf(id: Word): nat {
      Categorize(id).Rank()
    }

    predicate FiniteField(id: Word) {
      var suite := ById(id);
      suite.Some? && suite.value.FiniteField()
    }

    predicate ForwardSecrecy(id: Word) {
      var suite := ById(id);
      suite.Some? && suite.value.ForwardSecrecy()
    }

    // What a probe offers at a version: every suite that may be negotiated there, by
    // registry value.
    function ForVersion(version: Word): seq<Word> {
      Sort(Below, IdsAt(catalogue, version))
    }
  }

  // The index by id keeps the last entry of an id.
  function Find(catalogue: seq<Suite>, id: Word): Option<Suite> {
    if catalogue == [] then None else
    var last := catalogue[|catalogue| - 1];
    if last.id == id then Some(last) else Find(catalogue[..|catalogue| - 1], id)
  }

  function IdsAt(catalogue: seq<Suite>, version: Word): seq<Word> {
    if catalogue == [] then [] else
    var last := catalogue[|catalogue| - 1];
    IdsAt(catalogue[..|catalogue| - 1], version) + (if last.NegotiableAt(version) then [last.id] else [])
  }

  predicate Below(a: Word, b: Word) {
    a < b
  }

  ghost predicate StrictlyAscending(ids: seq<Word>) {
    forall i, j :: 0 <= i < j < |ids| ==> ids[i] < ids[j]
  }

  ghost predicate Distinct(ids: seq<Word>) {
    forall i, j :: 0 <= i < j < |ids| ==> ids[i] != ids[j]
  }

  // Whatever algorithm sorts, the result is this one: by registry value, with nothing
  // gained or lost.
  lemma SortsByValue(ids: seq<Word>, sorted: seq<Word>)
    ensures sorted == Sort(Below, ids) <==>
      (forall i, j :: 0 <= i < j < |sorted| ==> sorted[i] <= sorted[j]) && multiset(sorted) == multiset(ids)
  {
    assert TotalOrder(Below);
    SortSorts(Below, ids);
    if Ordered(Below, sorted) && multiset(sorted) == multiset(ids) {
      forall x ensures Class(Below, sorted, x) == Class(Below, Sort(Below, ids), x) {
        ClassOfTotal(Below, sorted, x);
        ClassOfTotal(Below, Sort(Below, ids), x);
      }
      StableUnique(Below, sorted, Sort(Below, ids));
    }
    OrderedByValue(sorted);
  }

  lemma OrderedByValue(ids: seq<Word>)
    ensures Ordered(Below, ids) <==> forall i, j :: 0 <= i < j < |ids| ==> ids[i] <= ids[j]
  {
    if Ordered(Below, ids) {
      forall i, j | 0 <= i < j < |ids| ensures ids[i] <= ids[j] {
        assert !Below(ids[j], ids[i]);
      }
    }
    if forall i, j :: 0 <= i < j < |ids| ==> ids[i] <= ids[j] {
      forall i, j | 0 <= i < j < |ids| ensures !Below(ids[j], ids[i]) {
        assert ids[i] <= ids[j];
      }
    }
  }

  lemma {:induction false} IdsAtMembers(catalogue: seq<Suite>, version: Word, id: Word)
    ensures id in IdsAt(catalogue, version) <==> exists s :: s in catalogue && s.id == id && s.NegotiableAt(version)
  {
    if catalogue != [] {
      var n := |catalogue| - 1;
      IdsAtMembers(catalogue[..n], version, id);
      assert catalogue == catalogue[..n] + [catalogue[n]];
    }
  }

  lemma {:induction false} IdsAtDistinct(catalogue: seq<Suite>, version: Word)
    requires forall i, j :: 0 <= i < j < |catalogue| ==> catalogue[i].id != catalogue[j].id
    ensures Distinct(IdsAt(catalogue, version))
  {
    if catalogue != [] {
      var n := |catalogue| - 1;
      IdsAtDistinct(catalogue[..n], version);
      IdsAtMembers(catalogue[..n], version, catalogue[n].id);
    }
  }

  lemma {:induction false} DistinctMultiset(a: seq<Word>)
    ensures Distinct(a) <==> forall x :: multiset(a)[x] <= 1
  {
    if a != [] {
      var n := |a| - 1;
      DistinctMultiset(a[..n]);
      assert a == a[..n] + [a[n]];
      if Distinct(a) {
        assert a[n] !in a[..n];
      } else if Distinct(a[..n]) {
        var i, j :| 0 <= i < j < |a| && a[i] == a[j];
        assert j == n;
        assert a[..n][i] == a[n];
        assert multiset(a)[a[n]] >= 2;
      } else {
        var x :| multiset(a[..n])[x] > 1;
        assert multiset(a)[x] > 1;
      }
    }
  }

  // An offer is strictly ascending, without zero, and holds exactly the suites that may
  // be negotiated at the version.
  lemma ForVersionExact(registry: Registry, version: Word)
    requires registry.Valid()
    ensures StrictlyAscending(registry.ForVersion(version))
    ensures forall id :: id in registry.ForVersion(version) <==>
      exists s :: s in registry.catalogue && s.id == id && s.NegotiableAt(version)
    ensures 0 !in registry.ForVersion(version)
  {
    var ids := IdsAt(registry.catalogue, version);
    var offer := registry.ForVersion(version);
    SortsByValue(ids, offer);
    IdsAtDistinct(registry.catalogue, version);
    DistinctMultiset(ids);
    DistinctMultiset(offer);
    forall id ensures id in offer <==> exists s :: s in registry.catalogue && s.id == id && s.NegotiableAt(version) {
      IdsAtMembers(registry.catalogue, version, id);
      assert id in offer <==> id in multiset(offer);
    }
  }

  // A suite is offered from its own version on, those of TLS 1.3 there and no others.
  lemma OfferedAt(registry: Registry, version: Word, s: Suite)
    requires registry.Valid() && s in registry.catalogue
    ensures s.id in registry.ForVersion(version) <==>
      s.minVersion <= version && (s.minVersion == 0x0304 <==> version >= 0x0304)
  {
    ForVersionExact(registry, version);
    if s.id in registry.ForVersion(version) {
      var t :| t in registry.catalogue && t.id == s.id && t.NegotiableAt(version);
      SameEntry(registry, s, t);
    }
  }

  lemma SameEntry(registry: Registry, s: Suite, t: Suite)
    requires registry.Valid() && s in registry.catalogue && t in registry.catalogue && s.id == t.id
    ensures s == t
  {
    var i :| 0 <= i < |registry.catalogue| && registry.catalogue[i] == s;
    var j :| 0 <= j < |registry.catalogue| && registry.catalogue[j] == t;
    assert i == j;
  }

  // Offers below TLS 1.3 only grow with the version, and share nothing with a TLS 1.3
  // offer.
  lemma OffersBelowTls13(registry: Registry, older: Word, newer: Word, id: Word)
    requires registry.Valid() && older <= newer
    requires id in registry.ForVersion(older)
    ensures newer < VERSION_TLS13 ==> id in registry.ForVersion(newer)
    ensures older < VERSION_TLS13 <= newer ==> id !in registry.ForVersion(newer)
  {
    ForVersionExact(registry, older);
    var s :| s in registry.catalogue && s.id == id && s.NegotiableAt(older);
    OfferedAt(registry, newer, s);
  }

  // ForVersion: the loop over the catalogue, then the sort.
  method OfferAt(registry: Registry, version: Word) returns (ids: seq<Word>)
    ensures ids == registry.ForVersion(version)
  {
    ids := [];
    for i := 0 to |registry.catalogue|
      invariant ids == IdsAt(registry.catalogue[..i], version)
    {
      var suite := registry.catalogue[i];
      assert registry.catalogue[..i + 1][..i] == registry.catalogue[..i];
      if suite.IsTls13() != (version >= VERSION_TLS13) {
        continue;
      }
      if version < suite.minVersion {
        continue;
      }
      ids := ids + [suite.id];
    }
    assert registry.catalogue[..|registry.catalogue|] == registry.catalogue;
    ids := Sort(Below, ids);
  }

  // --- What an id says -----------------------------------------------------------------------

  lemma {:induction false} FindIs(catalogue: seq<Suite>, id: Word)
    ensures Find(catalogue, id).None? <==> forall s :: s in catalogue ==> s.id != id
    ensures Find(catalogue, id).Some? ==> Find(catalogue, id).value in catalogue && Find(catalogue, id).value.id == id
  {
    if catalogue != [] {
      var n := |catalogue| - 1;
      FindIs(catalogue[..n], id);
      assert catalogue == catalogue[..n] + [catalogue[n]];
    }
  }

  // The suite of an id is the entry that has it.
  lemma ByIdExact(registry: Registry, s: Suite)
    requires registry.Valid()
    ensures registry.ById(s.id) == Some(s) <==> s in registry.catalogue
  {
    FindIs(registry.catalogue, s.id);
    if s in registry.catalogue {
      SameEntry(registry, s, registry.ById(s.id).value);
    }
  }

  // Keys are exchanged over a finite field by an ephemeral or anonymous Diffie-Hellman
  // suite, and a recorded session stays secret under an ephemeral one and under those of
  // TLS 1.3; an id that is not in the catalogue says neither.
  lemma KindsExact(registry: Registry, id: Word)
    requires registry.Valid()
    ensures registry.FiniteField(id) <==>
      exists s :: s in registry.catalogue && s.id == id && s.keyExchange in {Dhe, DhAnon}
    ensures registry.ForwardSecrecy(id) <==>
      exists s :: s in registry.catalogue && s.id == id && s.keyExchange in {Ecdhe, Dhe, Negotiated}
  {
    FindIs(registry.catalogue, id);
    forall s | s in registry.catalogue && s.id == id ensures registry.ById(id) == Some(s) {
      ByIdExact(registry, s);
    }
  }

  // The first list that names a suite decides about it, and a suite that no list names,
  // or that is not in the catalogue, is insufficient.
  lemma CategoryExact(registry: Registry, id: Word)
    requires registry.Valid()
    ensures forall s :: s in registry.catalogue && s.id == id ==>
      && (registry.Categorize(id) == Good <==> s.name in registry.good)
      && (registry.Categorize(id) == Sufficient <==> s.name in registry.sufficient - registry.good)
      && (registry.Categorize(id) == PhaseOut <==>
        s.name in registry.phaseOut - registry.sufficient - registry.good)
    ensures (forall s :: s in registry.catalogue ==> s.id != id) ==> registry.Categorize(id) == Insufficient
  {
    FindIs(registry.catalogue, id);
    forall s | s in registry.catalogue && s.id == id ensures registry.ById(id) == Some(s) {
      ByIdExact(registry, s);
    }
  }

  // Good is better than sufficient, sufficient than what is being phased out, and that
  // than insufficient.
  predicate Better(a: Category, b: Category) {
    match a
    case Good => !b.Good?
    case Sufficient => b.PhaseOut? || b.Insufficient?
    case PhaseOut => b.Insufficient?
    case Insufficient => false
  }

  lemma RankIsOrder(a: Category, b: Category)
    ensures a.Rank() < b.Rank() <==> Better(a, b)
    ensures a.Rank() == b.Rank() <==> a == b
  {
  }
}
