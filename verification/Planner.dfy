/**
 The cost-based metadata filter planner: cardinality counts, cheap probes of the matching
 or failing side, the conjunctive strategies, and the engine step that turns a plan back
 into a document set.  The main result is that every strategy answers the same question:
 the set a plan yields is the set of documents the per-document predicate accepts.
 */
module Planner {
  import opened Prelude
  import opened Filters

  const USIZE_MAX: nat := 0xFFFF_FFFF_FFFF_FFFF
  const REFINE_COST_RATIO: nat := 16
  const BLIND_DEFER_NUM: nat := 2
  const BLIND_DEFER_DEN: nat := 3
  const KNOCKOUT_VS_DENYLIST: nat := 2

  function SaturatingMul(a: nat, b: nat): nat { Min(a * b, USIZE_MAX) }

  function SaturatingAdd(a: nat, b: nat): nat { Min(a + b, USIZE_MAX) }

  function SaturatingSub(a: nat, b: nat): nat { Max(a - b, 0) }

  /** `Some(plan)` of a filter, or one of the source's internal errors. */
  type Planned<T> = Result<T, Failure>

  datatype Side = Matching | Failing

  function Flip(side: Side): Side { if side.Matching? then Failing else Matching }

  /** The documents on one side of a filter. */
  function SideOf(c: Corpus, sat: set<DocId>, side: Side): set<DocId> {
    if side.Matching? then sat else c.All() - sat
  }

  // ----- Exact counts -----

  function CountOperator(c: Corpus, ix: Postings, op: Operator): nat {
    match op
    case Eq(v) => |ix.Of(v)|
    case Ne(v) => SaturatingSub(c.Total(), |ix.Of(v)|)
    case In(vs) => |ix.UnionOf(vs)|
    case Nin(vs) => SaturatingSub(c.Total(), |ix.UnionOf(vs)|)
    case Exists(b) => if b then |ix.docs| else SaturatingSub(c.Total(), |ix.docs|)
    case Ord(cmp, operand) => |ix.Ordered(c.parse, cmp, operand)|
  }

  function CountAnd(counts: seq<Option<nat>>, total: nat): Option<nat> {
    if counts == [] then Some(total)
    else if Some(0) in counts then Some(0)
    else if forall i | 0 <= i < |counts| :: counts[i] == Some(total) then Some(total)
    else if |counts| == 1 then counts[0]
    else None
  }

  function CountOr(counts: seq<Option<nat>>, total: nat): Option<nat> {
    if counts == [] then Some(0)
    else if Some(total) in counts then Some(total)
    else if forall i | 0 <= i < |counts| :: counts[i] == Some(0) then Some(0)
    else if |counts| == 1 then counts[0]
    else None
  }

  function OperatorCounts(c: Corpus, ix: Postings, ops: seq<Operator>): seq<Option<nat>> {
    seq(|ops|, i requires 0 <= i < |ops| => Some(CountOperator(c, ix, ops[i])))
  }

  function CountSpec(c: Corpus, field: string, spec: Spec): Option<nat> {
    match spec
    case Literal(v) => Some(|c.IndexOf(field).Of(v)|)
    case Ops(ops) =>
      CountAnd(OperatorCounts(c, c.IndexOf(field), ops), c.Total())
  }

  function CountEntry(c: Corpus, e: Entry): Option<nat>
    decreases e
  {
    match e
    case And(subs) => CountAnd(FilterCounts(c, subs), c.Total())
    case Or(subs) => CountOr(FilterCounts(c, subs), c.Total())
    case Not(sub) =>
      var count := CountNode(c, sub);
      if count.Some? then Some(SaturatingSub(c.Total(), count.value)) else None
    case Field(name, spec) => CountSpec(c, name, spec)
  }

  function CountNode(c: Corpus, f: Filter): Option<nat>
    decreases f
  {
    CountAnd(EntryCounts(c, f.entries), c.Total())
  }

  function FilterCounts(c: Corpus, fs: seq<Filter>): seq<Option<nat>>
    decreases fs
  {
    seq(|fs|, i requires 0 <= i < |fs| => CountNode(c, fs[i]))
  }

  function EntryCounts(c: Corpus, es: seq<Entry>): seq<Option<nat>>
    decreases es
  {
    seq(|es|, i requires 0 <= i < |es| => CountEntry(c, es[i]))
  }

  // ----- Probes: cheap bounds on one side, and the sets that realise them -----

  /** Index of the first smallest present probe. */
  function ArgMin(probes: seq<Option<nat>>): (r: Option<nat>)
    ensures r.None? <==> forall i | 0 <= i < |probes| :: probes[i].None?
    ensures r.Some? ==> r.value < |probes| && probes[r.value].Some?
    ensures r.Some? ==> forall i | 0 <= i < |probes| && probes[i].Some? :: probes[r.value].value <= probes[i].value
    ensures r.Some? ==> forall i | 0 <= i < r.value && probes[i].Some? :: probes[r.value].value < probes[i].value
  {
    if probes == [] then None
    else
      var last := |probes| - 1;
      var best := ArgMin(probes[..last]);
      if probes[last].Some? && (best.None? || probes[last].value < probes[best.value].value) then Some(last) else best
  }

  function SumProbes(probes: seq<Option<nat>>): Option<nat> {
    if probes == [] then Some(0)
    else
      var last := |probes| - 1;
      var rest := SumProbes(probes[..last]);
      if rest.Some? && probes[last].Some? then Some(rest.value + probes[last].value) else None
  }

  /**
   Combines children's probes.  `meet` says that the wanted set is the intersection of the
   children's sets (the matching side of an AND, the failing side of an OR): any one child
   bounds it.  Otherwise it is their union, and every child is needed.
   */
  function Combine(meet: bool, probes: seq<Option<nat>>, total: nat): Option<nat> {
    if probes == [] then Some(if meet then total else 0)
    else if meet then
      var best := ArgMin(probes);
      if best.Some? then probes[best.value] else None
    else
      var sum := SumProbes(probes);
      if sum.Some? then Some(Min(sum.value, total)) else None
  }

  /** The posting an operator is decided by, and whether matching means being in it. */
  function OperatorPosting(c: Corpus, ix: Postings, op: Operator): (set<DocId>, bool) {
    match op
    case Eq(v) => (ix.Of(v), true)
    case Ne(v) => (ix.Of(v), false)
    case In(vs) => (ix.UnionOf(vs), true)
    case Nin(vs) => (ix.UnionOf(vs), false)
    case Exists(b) => (ix.docs, b)
    case Ord(cmp, operand) => (ix.Ordered(c.parse, cmp, operand), true)
  }

  function ProbeOperator(c: Corpus, ix: Postings, op: Operator, side: Side): Option<nat> {
    var (posting, positive) := OperatorPosting(c, ix, op);
    if positive == side.Matching? then Some(|posting|)
    else if |posting| == c.Total() then Some(0)
    else None
  }

  function OperatorProbes(c: Corpus, ix: Postings, ops: seq<Operator>, side: Side): seq<Option<nat>> {
    seq(|ops|, i requires 0 <= i < |ops| => ProbeOperator(c, ix, ops[i], side))
  }

  function ProbeSpec(c: Corpus, field: string, spec: Spec, side: Side): Option<nat> {
    match spec
    case Literal(v) => ProbeOperator(c, c.IndexOf(field), Eq(v), side)
    case Ops(ops) =>
      Combine(side.Matching?,
              OperatorProbes(c, c.IndexOf(field), ops, side), c.Total())
  }

  function ProbeEntry(c: Corpus, e: Entry, side: Side): Option<nat>
    decreases e
  {
    match e
    case And(subs) => Combine(side.Matching?, FilterProbes(c, subs, side), c.Total())
    case Or(subs) => Combine(side.Failing?, FilterProbes(c, subs, side), c.Total())
    case Not(sub) => ProbeNode(c, sub, Flip(side))
    case Field(name, spec) => ProbeSpec(c, name, spec, side)
  }

  function ProbeNode(c: Corpus, f: Filter, side: Side): Option<nat>
    decreases f
  {
    Combine(side.Matching?, EntryProbes(c, f.entries, side), c.Total())
  }

  function FilterProbes(c: Corpus, fs: seq<Filter>, side: Side): seq<Option<nat>>
    decreases fs
  {
    seq(|fs|, i requires 0 <= i < |fs| => ProbeNode(c, fs[i], side))
  }

  function EntryProbes(c: Corpus, es: seq<Entry>, side: Side): seq<Option<nat>>
    decreases es
  {
    seq(|es|, i requires 0 <= i < |es| => ProbeEntry(c, es[i], side))
  }

  function UnionAll(probes: seq<Option<nat>>, sets: seq<Planned<set<DocId>>>): Planned<set<DocId>>
    requires |probes| == |sets|
  {
    if sets == [] then Ok({})
    else
      var last := |sets| - 1;
      var rest := UnionAll(probes[..last], sets[..last]);
      if rest.Err? then rest
      else if probes[last].None? then Err(Failure("validated conjunct has no failing probe"))
      else if sets[last].Err? then sets[last]
      else Ok(rest.value + sets[last].value)
  }

  /** Realises a combined probe: the cheapest child for a meet, the union for a join. */
  function Realise(meet: bool, probes: seq<Option<nat>>, sets: seq<Planned<set<DocId>>>): Planned<set<DocId>>
    requires |probes| == |sets|
  {
    if meet then
      var best := ArgMin(probes);
      if best.Some? then sets[best.value] else Err(Failure("validated conjunction has no matching probe"))
    else UnionAll(probes, sets)
  }

  function MaterializeOperator(c: Corpus, ix: Postings, op: Operator, side: Side): Planned<set<DocId>> {
    var (posting, positive) := OperatorPosting(c, ix, op);
    if positive == side.Matching? then Ok(posting)
    else if |posting| == c.Total() then Ok({})
    else Err(Failure("validated operator probe disappeared"))
  }

  function OperatorMaterials(c: Corpus, ix: Postings, ops: seq<Operator>, side: Side): seq<Planned<set<DocId>>> {
    seq(|ops|, i requires 0 <= i < |ops| => MaterializeOperator(c, ix, ops[i], side))
  }

  function MaterializeSpec(c: Corpus, field: string, spec: Spec, side: Side): Planned<set<DocId>> {
    match spec
    case Literal(v) => MaterializeOperator(c, c.IndexOf(field), Eq(v), side)
    case Ops(ops) =>
      Realise(side.Matching?,
              OperatorProbes(c, c.IndexOf(field), ops, side), OperatorMaterials(c, c.IndexOf(field), ops, side))
  }

  function MaterializeEntry(c: Corpus, e: Entry, side: Side): Planned<set<DocId>>
    decreases e
  {
    match e
    case And(subs) =>
      Realise(side.Matching?, FilterProbes(c, subs, side), FilterMaterials(c, subs, side))
    case Or(subs) =>
      Realise(side.Failing?, FilterProbes(c, subs, side), FilterMaterials(c, subs, side))
    case Not(sub) => MaterializeNode(c, sub, Flip(side))
    case Field(name, spec) => MaterializeSpec(c, name, spec, side)
  }

  function MaterializeNode(c: Corpus, f: Filter, side: Side): Planned<set<DocId>>
    decreases f
  {
    Realise(side.Matching?, EntryProbes(c, f.entries, side), EntryMaterials(c, f.entries, side))
  }

  function FilterMaterials(c: Corpus, fs: seq<Filter>, side: Side): (r: seq<Planned<set<DocId>>>)
    ensures |r| == |fs|
    decreases fs
  {
    seq(|fs|, i requires 0 <= i < |fs| => MaterializeNode(c, fs[i], side))
  }

  function EntryMaterials(c: Corpus, es: seq<Entry>, side: Side): (r: seq<Planned<set<DocId>>>)
    ensures |r| == |es|
    decreases es
  {
    seq(|es|, i requires 0 <= i < |es| => MaterializeEntry(c, es[i], side))
  }

  // ----- Counts are exact -----

  /** `r` holds the documents that are in every set. */
  ghost predicate MeetOf(all: set<DocId>, sets: seq<set<DocId>>, r: set<DocId>) {
    r <= all && forall d | d in all :: d in r <==> forall i | 0 <= i < |sets| :: d in sets[i]
  }

  /** `r` holds the documents that are in some set. */
  ghost predicate JoinOf(all: set<DocId>, sets: seq<set<DocId>>, r: set<DocId>) {
    r <= all && forall d | d in all :: d in r <==> exists i | 0 <= i < |sets| :: d in sets[i]
  }

  function OperatorSets(c: Corpus, field: string, ops: seq<Operator>): seq<set<DocId>> {
    seq(|ops|, i requires 0 <= i < |ops| => c.SatOperator(field, ops[i]))
  }

  function FilterSets(c: Corpus, fs: seq<Filter>): seq<set<DocId>> {
    seq(|fs|, i requires 0 <= i < |fs| => c.Sat(fs[i]))
  }

  function EntrySets(c: Corpus, es: seq<Entry>): seq<set<DocId>> {
    seq(|es|, i requires 0 <= i < |es| => c.SatEntry(es[i]))
  }

  function SideSets(c: Corpus, sets: seq<set<DocId>>, side: Side): seq<set<DocId>> {
    seq(|sets|, i requires 0 <= i < |sets| => SideOf(c, sets[i], side))
  }

  lemma SpecMeets(c: Corpus, field: string, ops: seq<Operator>)
    ensures MeetOf(c.All(), OperatorSets(c, field, ops), c.SatSpec(field, Ops(ops)))
  {
    var sets := OperatorSets(c, field, ops);
    forall d | d in c.docs ensures d in c.SatSpec(field, Ops(ops)) <==> forall i | 0 <= i < |sets| :: d in sets[i] {
      assert forall i | 0 <= i < |ops| :: d in sets[i] <==> MatchesOperator(c.parse, c.docs[d], field, ops[i]);
    }
  }

  lemma EntryMeetsOrJoins(c: Corpus, e: Entry)
    requires e.And? || e.Or?
    ensures e.And? ==> MeetOf(c.All(), FilterSets(c, e.subs), c.SatEntry(e))
    ensures e.Or? ==> JoinOf(c.All(), FilterSets(c, e.subs), c.SatEntry(e))
  {
    var sets := FilterSets(c, e.subs);
    forall d | d in c.docs
      ensures e.And? ==> (d in c.SatEntry(e) <==> forall i | 0 <= i < |sets| :: d in sets[i])
      ensures e.Or? ==> (d in c.SatEntry(e) <==> exists i | 0 <= i < |sets| :: d in sets[i])
    {
      assert forall i | 0 <= i < |e.subs| :: d in sets[i] <==> Matches(c.parse, c.docs[d], e.subs[i]);
    }
  }

  lemma NodeMeets(c: Corpus, f: Filter)
    ensures MeetOf(c.All(), EntrySets(c, f.entries), c.Sat(f))
  {
    var sets := EntrySets(c, f.entries);
    forall d | d in c.docs ensures d in c.Sat(f) <==> forall i | 0 <= i < |sets| :: d in sets[i] {
      assert forall i | 0 <= i < |f.entries| :: d in sets[i] <==> MatchesEntry(c.parse, c.docs[d], f.entries[i]);
    }
  }

  /** Taking the failing side exchanges meets and joins. */
  lemma SidesDual(c: Corpus, sets: seq<set<DocId>>, r: set<DocId>, side: Side, meet: bool)
    requires forall i | 0 <= i < |sets| :: sets[i] <= c.All()
    requires if meet then MeetOf(c.All(), sets, r) else JoinOf(c.All(), sets, r)
    ensures if meet == side.Matching? then MeetOf(c.All(), SideSets(c, sets, side), SideOf(c, r, side))
            else JoinOf(c.All(), SideSets(c, sets, side), SideOf(c, r, side))
  {
    var sides := SideSets(c, sets, side);
    assert forall d, i | d in c.All() && 0 <= i < |sets| :: d in sides[i] <==> (side.Matching? <==> d in sets[i]);
    assert forall d | d in c.All() :: d in SideOf(c, r, side) <==> (side.Matching? <==> d in r);
  }

  ghost predicate CountsOf(all: set<DocId>, sets: seq<set<DocId>>, counts: seq<Option<nat>>) {
    |sets| == |counts|
    && forall i | 0 <= i < |sets| :: sets[i] <= all && (counts[i].Some? ==> counts[i].value == |sets[i]|)
  }

  lemma CountAndExact(all: set<DocId>, sets: seq<set<DocId>>, counts: seq<Option<nat>>, r: set<DocId>)
    requires CountsOf(all, sets, counts)
    requires MeetOf(all, sets, r)
    ensures CountAnd(counts, |all|).Some? ==> CountAnd(counts, |all|).value == |r|
  {
    if counts == [] {
      assert r == all;
    } else if Some(0) in counts {
      var i :| 0 <= i < |counts| && counts[i] == Some(0);
      assert sets[i] == {};
      assert r == {};
    } else if forall i | 0 <= i < |counts| :: counts[i] == Some(|all|) {
      forall i | 0 <= i < |sets| ensures sets[i] == all { SubsetCardinality(sets[i], all); }
      assert r == all;
    } else if |counts| == 1 {
      assert r == sets[0];
    }
  }

  lemma CountOrExact(all: set<DocId>, sets: seq<set<DocId>>, counts: seq<Option<nat>>, r: set<DocId>)
    requires CountsOf(all, sets, counts)
    requires JoinOf(all, sets, r)
    ensures CountOr(counts, |all|).Some? ==> CountOr(counts, |all|).value == |r|
  {
    if counts == [] {
      assert r == {};
    } else if Some(|all|) in counts {
      var i :| 0 <= i < |counts| && counts[i] == Some(|all|);
      SubsetCardinality(sets[i], all);
      assert r == all;
    } else if forall i | 0 <= i < |counts| :: counts[i] == Some(0) {
      assert forall i | 0 <= i < |sets| :: sets[i] == {};
      assert r == {};
    } else if |counts| == 1 {
      assert r == sets[0];
    }
  }

  lemma CountOperatorExact(c: Corpus, field: string, op: Operator)
    requires c.Valid()
    ensures CountOperator(c, c.IndexOf(field), op) == |c.SatOperator(field, op)|
  {
    c.OperatorExact(field, op);
    PostingWithin(c, field, op);
    SubsetCardinality(OperatorPosting(c, c.IndexOf(field), op).0, c.All());
  }

  /** An operator's posting lies in the corpus and is its matching or its failing side. */
  lemma PostingWithin(c: Corpus, field: string, op: Operator)
    requires c.Valid()
    ensures var (posting, positive) := OperatorPosting(c, c.IndexOf(field), op);
            posting <= c.All() && posting == SideOf(c, c.SatOperator(field, op), if positive then Matching else Failing)
  {
    c.OperatorExact(field, op);
    match op
    case Eq(v) => c.PostingExact(field, v);
    case Ne(v) => c.PostingExact(field, v);
    case In(vs) => c.UnionExact(field, vs);
    case Nin(vs) => c.UnionExact(field, vs);
    case Exists(b) => assert Coherent(c.IndexOf(field), c.docs, field);
    case Ord(cmp, operand) => c.OrderedExact(field, cmp, operand);
  }

  lemma CountSpecExact(c: Corpus, field: string, spec: Spec)
    requires c.Valid()
    ensures CountSpec(c, field, spec).Some? ==> CountSpec(c, field, spec).value == |c.SatSpec(field, spec)|
  {
    match spec
    case Literal(v) => c.SpecExact(field, spec);
    case Ops(ops) =>
      var counts := OperatorCounts(c, c.IndexOf(field), ops);
      forall i | 0 <= i < |ops| ensures counts[i] == Some(|c.SatOperator(field, ops[i])|) {
        CountOperatorExact(c, field, ops[i]);
      }
      SpecMeets(c, field, ops);
      CountAndExact(c.All(), OperatorSets(c, field, ops), counts, c.SatSpec(field, spec));
  }

  ghost predicate CountsExactly(count: Option<nat>, docs: set<DocId>) {
    count.Some? ==> count.value == |docs|
  }

  lemma CountSubs(c: Corpus, e: Entry, subs: seq<Filter>)
    requires e == And(subs) || e == Or(subs)
    requires forall i | 0 <= i < |subs| :: CountsExactly(FilterCounts(c, subs)[i], c.Sat(subs[i]))
    ensures CountsExactly(CountEntry(c, e), c.SatEntry(e))
  {
    var counts, sets := FilterCounts(c, subs), FilterSets(c, subs);
    forall i | 0 <= i < |subs| ensures counts[i].Some? ==> counts[i].value == |sets[i]| {
      assert CountsExactly(counts[i], c.Sat(subs[i]));
    }
    EntryMeetsOrJoins(c, e);
    if e.And? {
      CountAndExact(c.All(), sets, counts, c.SatEntry(e));
    } else {
      CountOrExact(c.All(), sets, counts, c.SatEntry(e));
    }
  }

  lemma {:induction false} CountEntryExact(c: Corpus, e: Entry)
    requires c.Valid()
    ensures CountEntry(c, e).Some? ==> CountEntry(c, e).value == |c.SatEntry(e)|
    decreases e
  {
    match e
    case And(subs) =>
      forall i | 0 <= i < |subs| ensures CountsExactly(FilterCounts(c, subs)[i], c.Sat(subs[i])) {
        CountNodeExact(c, subs[i]);
      }
      CountSubs(c, e, subs);
    case Or(subs) =>
      forall i | 0 <= i < |subs| ensures CountsExactly(FilterCounts(c, subs)[i], c.Sat(subs[i])) {
        CountNodeExact(c, subs[i]);
      }
      CountSubs(c, e, subs);
    case Not(sub) =>
      CountNodeExact(c, sub);
      SubsetCardinality(c.Sat(sub), c.All());
      assert c.SatEntry(e) == c.All() - c.Sat(sub);
    case Field(name, spec) =>
      CountSpecExact(c, name, spec);
      assert c.SatEntry(e) == c.SatSpec(name, spec);
  }

  /** A count, when the planner has one, is the number of matching documents. */
  lemma {:induction false} CountNodeExact(c: Corpus, f: Filter)
    requires c.Valid()
    ensures CountNode(c, f).Some? ==> CountNode(c, f).value == |c.Sat(f)|
    decreases f
  {
    var es := f.entries;
    var counts := EntryCounts(c, es);
    forall i | 0 <= i < |es| ensures counts[i].Some? ==> counts[i].value == |c.SatEntry(es[i])| {
      CountEntryExact(c, es[i]);
    }
    NodeMeets(c, f);
    CountAndExact(c.All(), EntrySets(c, es), counts, c.Sat(f));
  }

  // ----- Probes bound their side, and materialise whenever they exist -----

  /** A probe, when present, is realised by a superset of the wanted set no larger than the probe says. */
  ghost predicate Bounds(all: set<DocId>, wanted: set<DocId>, probe: Option<nat>, set': Planned<set<DocId>>) {
    probe.Some? ==> set'.Ok? && wanted <= set'.value <= all && |set'.value| <= probe.value
  }

  lemma {:induction false} UnionAllBounds(
    all: set<DocId>, wanted: seq<set<DocId>>, probes: seq<Option<nat>>, sets: seq<Planned<set<DocId>>>)
    requires |wanted| == |probes| == |sets|
    requires forall i | 0 <= i < |sets| :: Bounds(all, wanted[i], probes[i], sets[i])
    requires SumProbes(probes).Some?
    ensures UnionAll(probes, sets).Ok?
    ensures UnionAll(probes, sets).value <= all
    ensures forall i | 0 <= i < |wanted| :: wanted[i] <= UnionAll(probes, sets).value
    ensures |UnionAll(probes, sets).value| <= SumProbes(probes).value
  {
    if sets != [] {
      var last := |sets| - 1;
      UnionAllBounds(all, wanted[..last], probes[..last], sets[..last]);
      assert Bounds(all, wanted[last], probes[last], sets[last]);
      var rest := UnionAll(probes[..last], sets[..last]).value;
      UnionCardinality(rest, sets[last].value);
      forall i | 0 <= i < |wanted| ensures wanted[i] <= UnionAll(probes, sets).value {
        if i < last { assert wanted[..last][i] == wanted[i]; }
      }
    }
  }

  lemma CombineBounds(all: set<DocId>, meet: bool, wanted: seq<set<DocId>>, probes: seq<Option<nat>>,
                      sets: seq<Planned<set<DocId>>>, r: set<DocId>)
    requires |wanted| == |probes| == |sets| > 0
    requires forall i | 0 <= i < |sets| :: Bounds(all, wanted[i], probes[i], sets[i])
    requires if meet then MeetOf(all, wanted, r) else JoinOf(all, wanted, r)
    ensures Bounds(all, r, Combine(meet, probes, |all|), Realise(meet, probes, sets))
  {
    if Combine(meet, probes, |all|).Some? {
      if meet {
        var k := ArgMin(probes).value;
        assert Bounds(all, wanted[k], probes[k], sets[k]);
        assert r <= wanted[k];
      } else {
        UnionAllBounds(all, wanted, probes, sets);
        SubsetCardinality(UnionAll(probes, sets).value, all);
      }
    }
  }

  lemma OperatorBounds(c: Corpus, field: string, op: Operator, side: Side)
    requires c.Valid()
    ensures Bounds(c.All(), SideOf(c, c.SatOperator(field, op), side),
                   ProbeOperator(c, c.IndexOf(field), op, side), MaterializeOperator(c, c.IndexOf(field), op, side))
  {
    PostingWithin(c, field, op);
    SubsetCardinality(OperatorPosting(c, c.IndexOf(field), op).0, c.All());
  }

  lemma SpecBounds(c: Corpus, field: string, spec: Spec, side: Side)
    requires c.Valid()
    requires spec.Ops? ==> |spec.ops| > 0
    ensures Bounds(c.All(), SideOf(c, c.SatSpec(field, spec), side), ProbeSpec(c, field, spec, side),
                   MaterializeSpec(c, field, spec, side))
  {
    match spec
    case Literal(v) =>
      OperatorBounds(c, field, Eq(v), side);
      assert c.SatSpec(field, spec) == c.SatOperator(field, Eq(v));
    case Ops(ops) =>
      var wanted := SideSets(c, OperatorSets(c, field, ops), side);
      var probes := OperatorProbes(c, c.IndexOf(field), ops, side);
      var sets := OperatorMaterials(c, c.IndexOf(field), ops, side);
      forall i | 0 <= i < |ops| ensures Bounds(c.All(), wanted[i], probes[i], sets[i]) {
        OperatorBounds(c, field, ops[i], side);
      }
      SpecMeets(c, field, ops);
      SidesDual(c, OperatorSets(c, field, ops), c.SatSpec(field, spec), side, true);
      CombineBounds(c.All(), side.Matching?, wanted, probes, sets, SideOf(c, c.SatSpec(field, spec), side));
  }

  lemma {:induction false} EntryBounds(c: Corpus, e: Entry, side: Side)
    requires c.Valid() && ValidatedEntry(e)
    ensures Bounds(c.All(), SideOf(c, c.SatEntry(e), side), ProbeEntry(c, e, side), MaterializeEntry(c, e, side))
    decreases e
  {
    if e.And? || e.Or? {
      var subs := e.subs;
      var wanted := SideSets(c, FilterSets(c, subs), side);
      var probes, sets := FilterProbes(c, subs, side), FilterMaterials(c, subs, side);
      forall i | 0 <= i < |subs| ensures Bounds(c.All(), wanted[i], probes[i], sets[i]) {
        NodeBounds(c, subs[i], side);
      }
      EntryMeetsOrJoins(c, e);
      SidesDual(c, FilterSets(c, subs), c.SatEntry(e), side, e.And?);
      CombineBounds(c.All(), e.And? == side.Matching?, wanted, probes, sets, SideOf(c, c.SatEntry(e), side));
    } else if e.Not? {
      NodeBounds(c, e.sub, Flip(side));
      assert SideOf(c, c.SatEntry(e), side) == SideOf(c, c.Sat(e.sub), Flip(side));
    } else {
      SpecBounds(c, e.name, e.spec, side);
      assert c.SatEntry(e) == c.SatSpec(e.name, e.spec);
    }
  }

  /** On a validated filter a probe never disappears when it is materialised. */
  lemma {:induction false} NodeBounds(c: Corpus, f: Filter, side: Side)
    requires c.Valid() && Validated(f)
    ensures Bounds(c.All(), SideOf(c, c.Sat(f), side), ProbeNode(c, f, side), MaterializeNode(c, f, side))
    decreases f
  {
    var es := f.entries;
    var wanted := SideSets(c, EntrySets(c, es), side);
    var probes, sets := EntryProbes(c, es, side), EntryMaterials(c, es, side);
    forall i | 0 <= i < |es| ensures Bounds(c.All(), wanted[i], probes[i], sets[i]) { EntryBounds(c, es[i], side); }
    NodeMeets(c, f);
    SidesDual(c, EntrySets(c, es), c.Sat(f), side, true);
    CombineBounds(c.All(), side.Matching?, wanted, probes, sets, SideOf(c, c.Sat(f), side));
  }

  // ----- Exactness of a probe -----

  predicate SpecMatchingExact(c: Corpus, field: string, spec: Spec) {
    spec.Literal? || (|spec.ops| == 1 && ProbeOperator(c, c.IndexOf(field), spec.ops[0], Matching).Some?)
  }

  predicate EntryMatchingExact(c: Corpus, e: Entry)
    decreases e
  {
    match e
    case And(subs) => |subs| == 0 || (|subs| == 1 && NodeMatchingExact(c, subs[0]))
    case Or(subs) => |subs| == 1 && NodeMatchingExact(c, subs[0])
    case Not(_) => false
    case Field(name, spec) => SpecMatchingExact(c, name, spec)
  }

  predicate NodeMatchingExact(c: Corpus, f: Filter)
    decreases f
  {
    |f.entries| == 0 || (|f.entries| == 1 && EntryMatchingExact(c, f.entries[0]))
  }

  predicate EntryFailingExact(e: Entry)
    decreases e
  {
    match e
    case And(subs) => forall i | 0 <= i < |subs| :: NodeFailingExact(subs[i])
    case Or(subs) => |subs| == 1 && NodeFailingExact(subs[0])
    case Not(_) => false
    case Field(_, _) => true
  }

  predicate NodeFailingExact(f: Filter)
    decreases f
  {
    forall i | 0 <= i < |f.entries| :: EntryFailingExact(f.entries[i])
  }

  lemma RealiseSingle(meet: bool, probes: seq<Option<nat>>, sets: seq<Planned<set<DocId>>>, total: nat)
    requires |probes| == |sets| == 1
    requires probes[0].Some? && sets[0].Ok?
    ensures Realise(meet, probes, sets) == sets[0]
    ensures Combine(meet, probes, total).Some?
  {
    assert probes[..0] == [] && sets[..0] == [];
    assert SumProbes(probes[..0]) == Some(0);
    assert UnionAll(probes[..0], sets[..0]) == Ok({});
    assert {} + sets[0].value == sets[0].value;
  }

  lemma OperatorExactly(c: Corpus, field: string, op: Operator, side: Side)
    requires c.Valid()
    requires ProbeOperator(c, c.IndexOf(field), op, side).Some?
    ensures MaterializeOperator(c, c.IndexOf(field), op, side) == Ok(SideOf(c, c.SatOperator(field, op), side))
  {
    PostingWithin(c, field, op);
    SubsetCardinality(OperatorPosting(c, c.IndexOf(field), op).0, c.All());
  }

  lemma SingleSat(c: Corpus, field: string, ops: seq<Operator>)
    requires |ops| == 1
    ensures c.SatSpec(field, Ops(ops)) == c.SatOperator(field, ops[0])
  {
  }

  lemma SingleMatchingExactly(c: Corpus, field: string, ops: seq<Operator>)
    requires c.Valid()
    requires SpecMatchingExact(c, field, Ops(ops))
    ensures ProbeSpec(c, field, Ops(ops), Matching).Some?
    ensures MaterializeSpec(c, field, Ops(ops), Matching) == Ok(c.SatSpec(field, Ops(ops)))
  {
    OperatorExactly(c, field, ops[0], Matching);
    RealiseSingle(true, OperatorProbes(c, c.IndexOf(field), ops, Matching),
                  OperatorMaterials(c, c.IndexOf(field), ops, Matching), c.Total());
    SingleSat(c, field, ops);
  }

  lemma SpecMatchingExactly(c: Corpus, field: string, spec: Spec)
    requires c.Valid()
    requires SpecMatchingExact(c, field, spec)
    ensures ProbeSpec(c, field, spec, Matching).Some?
    ensures MaterializeSpec(c, field, spec, Matching) == Ok(c.SatSpec(field, spec))
  {
    match spec
    case Literal(v) =>
      OperatorExactly(c, field, Eq(v), Matching);
      assert c.SatSpec(field, spec) == c.SatOperator(field, Eq(v));
    case Ops(ops) => SingleMatchingExactly(c, field, ops);
  }

  lemma {:induction false} EntryMatchingExactly(c: Corpus, e: Entry)
    requires c.Valid() && ValidatedEntry(e)
    requires EntryMatchingExact(c, e)
    ensures ProbeEntry(c, e, Matching).Some?
    ensures MaterializeEntry(c, e, Matching) == Ok(c.SatEntry(e))
    decreases e
  {
    if e.Field? {
      SpecMatchingExactly(c, e.name, e.spec);
      assert c.SatEntry(e) == c.SatSpec(e.name, e.spec);
    } else {
      NodeMatchingExactly(c, e.subs[0]);
      RealiseSingle(e.And?, FilterProbes(c, e.subs, Matching), FilterMaterials(c, e.subs, Matching), c.Total());
      assert c.SatEntry(e) == c.Sat(e.subs[0]);
    }
  }

  /** A matching probe flagged exact materialises the matching set itself, not a superset. */
  lemma {:induction false} NodeMatchingExactly(c: Corpus, f: Filter)
    requires c.Valid() && Validated(f)
    requires NodeMatchingExact(c, f)
    ensures ProbeNode(c, f, Matching).Some?
    ensures MaterializeNode(c, f, Matching) == Ok(c.Sat(f))
    decreases f
  {
    EntryMatchingExactly(c, f.entries[0]);
    RealiseSingle(true, EntryProbes(c, f.entries, Matching), EntryMaterials(c, f.entries, Matching), c.Total());
    SatSingle(c, f);
  }

  lemma SatSingle(c: Corpus, f: Filter)
    requires |f.entries| == 1
    ensures c.Sat(f) == c.SatEntry(f.entries[0])
  {
  }

  lemma {:induction false} UnionAllExactly(
    all: set<DocId>, wanted: seq<set<DocId>>, probes: seq<Option<nat>>, sets: seq<Planned<set<DocId>>>)
    requires |wanted| == |probes| == |sets|
    requires SumProbes(probes).Some?
    requires forall i | 0 <= i < |sets| && probes[i].Some? :: sets[i] == Ok(wanted[i])
    requires forall i | 0 <= i < |wanted| :: wanted[i] <= all
    ensures UnionAll(probes, sets).Ok? && JoinOf(all, wanted, UnionAll(probes, sets).value)
  {
    if sets != [] {
      var last := |sets| - 1;
      UnionAllExactly(all, wanted[..last], probes[..last], sets[..last]);
      assert wanted == wanted[..last] + [wanted[last]];
    }
  }

  lemma JoinUnique(all: set<DocId>, sets: seq<set<DocId>>, a: set<DocId>, b: set<DocId>)
    requires JoinOf(all, sets, a) && JoinOf(all, sets, b)
    ensures a == b
  {
  }

  lemma SpecFailingExactly(c: Corpus, field: string, spec: Spec)
    requires c.Valid()
    requires spec.Ops? ==> |spec.ops| > 0
    requires ProbeSpec(c, field, spec, Failing).Some?
    ensures MaterializeSpec(c, field, spec, Failing) == Ok(c.All() - c.SatSpec(field, spec))
  {
    match spec
    case Literal(v) =>
      OperatorExactly(c, field, Eq(v), Failing);
      assert c.SatSpec(field, spec) == c.SatOperator(field, Eq(v));
    case Ops(ops) => OpsFailingExactly(c, field, ops);
  }

  lemma OpsFailingExactly(c: Corpus, field: string, ops: seq<Operator>)
    requires c.Valid() && |ops| > 0 && ProbeSpec(c, field, Ops(ops), Failing).Some?
    ensures MaterializeSpec(c, field, Ops(ops), Failing) == Ok(c.All() - c.SatSpec(field, Ops(ops)))
  {
    var probes := OperatorProbes(c, c.IndexOf(field), ops, Failing);
    var sets := OperatorMaterials(c, c.IndexOf(field), ops, Failing);
    var wanted := SideSets(c, OperatorSets(c, field, ops), Failing);
    forall i | 0 <= i < |ops| && probes[i].Some? ensures sets[i] == Ok(wanted[i]) {
      OperatorExactly(c, field, ops[i], Failing);
    }
    UnionAllExactly(c.All(), wanted, probes, sets);
    SpecMeets(c, field, ops);
    SidesDual(c, OperatorSets(c, field, ops), c.SatSpec(field, Ops(ops)), Failing, true);
    JoinUnique(c.All(), wanted, UnionAll(probes, sets).value, c.All() - c.SatSpec(field, Ops(ops)));
  }

  lemma {:induction false} EntryFailingExactly(c: Corpus, e: Entry)
    requires c.Valid() && ValidatedEntry(e)
    requires EntryFailingExact(e)
    requires ProbeEntry(c, e, Failing).Some?
    ensures MaterializeEntry(c, e, Failing) == Ok(c.All() - c.SatEntry(e))
    decreases e
  {
    match e
    case And(subs) =>
      var probes, sets := FilterProbes(c, subs, Failing), FilterMaterials(c, subs, Failing);
      var wanted := SideSets(c, FilterSets(c, subs), Failing);
      forall i | 0 <= i < |subs| && probes[i].Some? ensures sets[i] == Ok(wanted[i]) { NodeFailingExactly(c, subs[i]); }
      UnionAllExactly(c.All(), wanted, probes, sets);
      EntryMeetsOrJoins(c, e);
      SidesDual(c, FilterSets(c, subs), c.SatEntry(e), Failing, true);
      JoinUnique(c.All(), wanted, UnionAll(probes, sets).value, c.All() - c.SatEntry(e));
    case Or(subs) =>
      assert ProbeNode(c, subs[0], Failing).Some? by {
        assert ArgMin(FilterProbes(c, subs, Failing)) == Some(0);
      }
      NodeFailingExactly(c, subs[0]);
      RealiseSingle(true, FilterProbes(c, subs, Failing), FilterMaterials(c, subs, Failing), c.Total());
      assert c.SatEntry(e) == c.Sat(subs[0]);
    case Field(name, spec) =>
      SpecFailingExactly(c, name, spec);
      assert c.SatEntry(e) == c.SatSpec(name, spec);
  }

  /** A failing side built from field conditions alone is the exact complement of the matches. */
  lemma {:induction false} NodeFailingExactly(c: Corpus, f: Filter)
    requires c.Valid() && Validated(f)
    requires NodeFailingExact(f)
    requires ProbeNode(c, f, Failing).Some?
    ensures MaterializeNode(c, f, Failing) == Ok(c.All() - c.Sat(f))
    decreases f
  {
    var es := f.entries;
    var probes, sets := EntryProbes(c, es, Failing), EntryMaterials(c, es, Failing);
    var wanted := SideSets(c, EntrySets(c, es), Failing);
    forall i | 0 <= i < |es| && probes[i].Some? ensures sets[i] == Ok(wanted[i]) { EntryFailingExactly(c, es[i]); }
    UnionAllExactly(c.All(), wanted, probes, sets);
    NodeMeets(c, f);
    SidesDual(c, EntrySets(c, es), c.Sat(f), Failing, true);
    JoinUnique(c.All(), wanted, UnionAll(probes, sets).value, c.All() - c.Sat(f));
  }

  // ----- Exact matching postings of anchors -----

  function OperatorMatches(c: Corpus, field: string, op: Operator): Option<set<DocId>> {
    var (posting, positive) := OperatorPosting(c, c.IndexOf(field), op);
    if positive then Some(posting)
    else if (op.Ne? ==> op.value in c.IndexOf(field).valueDocs) && (op.Exists? ==> field in c.fields)
            && |posting| == c.Total() then Some({})
    else None
  }

  function SpecPosting(c: Corpus, field: string, spec: Spec): Option<set<DocId>> {
    match spec
    case Literal(v) => Some(c.IndexOf(field).Of(v))
    case Ops(ops) => if |ops| != 1 then None else OperatorMatches(c, field, ops[0])
  }

  function UnionPostings(c: Corpus, fs: seq<Filter>): Option<set<DocId>>
    decreases fs
  {
    if fs == [] then Some({})
    else
      var rest := UnionPostings(c, fs[..|fs| - 1]);
      var last := NodePosting(c, fs[|fs| - 1]);
      if rest.Some? && last.Some? then Some(rest.value + last.value) else None
  }

  function EntryPosting(c: Corpus, e: Entry): Option<set<DocId>>
    decreases e
  {
    match e
    case And(subs) => if subs == [] then Some(c.All()) else if |subs| == 1 then NodePosting(c, subs[0]) else None
    case Or(subs) => UnionPostings(c, subs)
    case Not(_) => None
    case Field(name, spec) => SpecPosting(c, name, spec)
  }

  function NodePosting(c: Corpus, f: Filter): Option<set<DocId>>
    decreases f
  {
    if f.entries == [] then Some(c.All())
    else if |f.entries| == 1 then EntryPosting(c, f.entries[0])
    else None
  }

  lemma OperatorMatchesExact(c: Corpus, field: string, op: Operator)
    requires c.Valid()
    ensures OperatorMatches(c, field, op).Some? ==> OperatorMatches(c, field, op).value == c.SatOperator(field, op)
  {
    PostingWithin(c, field, op);
    SubsetCardinality(OperatorPosting(c, c.IndexOf(field), op).0, c.All());
  }

  lemma SatSpecSingle(c: Corpus, field: string, ops: seq<Operator>)
    requires |ops| == 1
    ensures c.SatSpec(field, Ops(ops)) == c.SatOperator(field, ops[0])
  {
  }

  lemma SpecPostingExact(c: Corpus, field: string, spec: Spec)
    requires c.Valid()
    ensures SpecPosting(c, field, spec).Some? ==> SpecPosting(c, field, spec).value == c.SatSpec(field, spec)
  {
    match spec
    case Literal(v) => c.SpecExact(field, spec);
    case Ops(ops) =>
      if |ops| == 1 {
        OperatorMatchesExact(c, field, ops[0]);
        SatSpecSingle(c, field, ops);
      }
  }

  lemma {:induction false} UnionPostingsExact(c: Corpus, fs: seq<Filter>)
    requires c.Valid()
    ensures UnionPostings(c, fs).Some? ==> UnionPostings(c, fs).value == c.SatEntry(Or(fs))
    decreases fs
  {
    if fs != [] {
      var init, last := fs[..|fs| - 1], fs[|fs| - 1];
      UnionPostingsExact(c, init);
      NodePostingExact(c, last);
      OrSplit(c, fs);
    }
  }

  lemma OrSplit(c: Corpus, fs: seq<Filter>)
    requires fs != []
    ensures c.SatEntry(Or(fs)) == c.SatEntry(Or(fs[..|fs| - 1])) + c.Sat(fs[|fs| - 1])
  {
    var n := |fs| - 1;
    var init := fs[..n];
    forall d | d in c.docs ensures d in c.SatEntry(Or(fs)) <==> d in c.SatEntry(Or(init)) || d in c.Sat(fs[n]) {
      var m := c.docs[d];
      if i :| 0 <= i < |fs| && Matches(c.parse, m, fs[i]) {
        if i < n { assert init[i] == fs[i]; }
      }
      if j :| 0 <= j < |init| && Matches(c.parse, m, init[j]) { assert fs[j] == init[j]; }
    }
  }

  lemma {:induction false} EntryPostingExact(c: Corpus, e: Entry)
    requires c.Valid()
    ensures EntryPosting(c, e).Some? ==> EntryPosting(c, e).value == c.SatEntry(e)
    decreases e
  {
    match e
    case And(subs) =>
      if |subs| == 1 {
        NodePostingExact(c, subs[0]);
        assert c.SatEntry(e) == c.Sat(subs[0]);
      } else if subs == [] {
        assert c.SatEntry(e) == c.All();
      }
    case Or(subs) => UnionPostingsExact(c, subs);
    case Not(_) =>
    case Field(name, spec) =>
      SpecPostingExact(c, name, spec);
      assert c.SatEntry(e) == c.SatSpec(name, spec);
  }

  /** A posting offered for an anchor is the anchor's exact matching set. */
  lemma {:induction false} NodePostingExact(c: Corpus, f: Filter)
    requires c.Valid()
    ensures NodePosting(c, f).Some? ==> NodePosting(c, f).value == c.Sat(f)
    decreases f
  {
    if f.entries == [] {
      assert c.Sat(f) == c.All();
    } else if |f.entries| == 1 {
      EntryPostingExact(c, f.entries[0]);
      assert c.Sat(f) == c.SatEntry(f.entries[0]);
    }
  }

  // ----- Deciding one document from the indexes alone -----

  predicate IndexedOperator(c: Corpus, d: DocId, field: string, op: Operator) {
    var ix := c.IndexOf(field);
    match op
    case Eq(v) => d in ix.Of(v)
    case Ne(v) => d !in ix.Of(v)
    case In(vs) => exists i | 0 <= i < |vs| :: d in ix.Of(vs[i])
    case Nin(vs) => !exists i | 0 <= i < |vs| :: d in ix.Of(vs[i])
    case Exists(b) => (d in ix.docs) == b
    case Ord(cmp, operand) =>
      exists v | v in ix.valueDocs :: d in ix.valueDocs[v] && CompareOrdered(c.parse, v, cmp, operand)
  }

  predicate IndexedSpec(c: Corpus, d: DocId, field: string, spec: Spec) {
    match spec
    case Literal(v) => d in c.IndexOf(field).Of(v)
    case Ops(ops) => forall i | 0 <= i < |ops| :: IndexedOperator(c, d, field, ops[i])
  }

  predicate IndexedEntry(c: Corpus, d: DocId, e: Entry)
    decreases e
  {
    match e
    case And(subs) => forall i | 0 <= i < |subs| :: IndexedNode(c, d, subs[i])
    case Or(subs) => exists i | 0 <= i < |subs| :: IndexedNode(c, d, subs[i])
    case Not(sub) => !IndexedNode(c, d, sub)
    case Field(name, spec) => IndexedSpec(c, d, name, spec)
  }

  predicate IndexedNode(c: Corpus, d: DocId, f: Filter)
    decreases f
  {
    forall i | 0 <= i < |f.entries| :: IndexedEntry(c, d, f.entries[i])
  }

  lemma IndexedOperatorExact(c: Corpus, d: DocId, field: string, op: Operator)
    requires c.Valid() && d in c.docs
    ensures IndexedOperator(c, d, field, op) <==> MatchesOperator(c.parse, c.docs[d], field, op)
  {
    assert Coherent(c.IndexOf(field), c.docs, field);
    if op.In? || op.Nin? {
      var m := c.docs[d];
      forall i | 0 <= i < |op.values|
        ensures d in c.IndexOf(field).Of(op.values[i]) <==> field in m && m[field] == op.values[i]
      {
        c.PostingExact(field, op.values[i]);
      }
    } else if op.Eq? || op.Ne? {
      c.PostingExact(field, op.value);
    }
  }

  lemma {:induction false} IndexedEntryExact(c: Corpus, d: DocId, e: Entry)
    requires c.Valid() && d in c.docs
    ensures IndexedEntry(c, d, e) <==> MatchesEntry(c.parse, c.docs[d], e)
    decreases e
  {
    match e
    case And(subs) =>
      forall i | 0 <= i < |subs| ensures IndexedNode(c, d, subs[i]) <==> Matches(c.parse, c.docs[d], subs[i]) {
        IndexedNodeExact(c, d, subs[i]);
      }
    case Or(subs) =>
      forall i | 0 <= i < |subs| ensures IndexedNode(c, d, subs[i]) <==> Matches(c.parse, c.docs[d], subs[i]) {
        IndexedNodeExact(c, d, subs[i]);
      }
    case Not(sub) => IndexedNodeExact(c, d, sub);
    case Field(name, spec) =>
      if spec.Literal? {
        c.PostingExact(name, spec.value);
      } else {
        forall i | 0 <= i < |spec.ops|
          ensures IndexedOperator(c, d, name, spec.ops[i]) <==> MatchesOperator(c.parse, c.docs[d], name, spec.ops[i])
        {
          IndexedOperatorExact(c, d, name, spec.ops[i]);
        }
      }
  }

  /** Evaluating a filter for one document through the indexes agrees with its stored metadata. */
  lemma {:induction false} IndexedNodeExact(c: Corpus, d: DocId, f: Filter)
    requires c.Valid() && d in c.docs
    ensures IndexedNode(c, d, f) <==> Matches(c.parse, c.docs[d], f)
    decreases f
  {
    forall i | 0 <= i < |f.entries|
      ensures IndexedEntry(c, d, f.entries[i]) <==> MatchesEntry(c.parse, c.docs[d], f.entries[i])
    {
      IndexedEntryExact(c, d, f.entries[i]);
    }
  }
}
