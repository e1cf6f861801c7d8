/**
 The plans built from counts and probes, the strategies for conjunctions, and the engine
 step that refines a plan with stored metadata.
 */
module Plans {
  import opened Prelude
  import opened Filters
  import opened Planner

  datatype Plan =
    | Materialized(docs: set<DocId>)
    | FilteredCandidates(candidates: set<DocId>)
    | AnchoredDenylist(anchor: set<DocId>, failingCandidates: set<DocId>)
    | Predicate(matchingCount: Option<nat>, failingCount: Option<nat>, failing: Option<set<DocId>>, failingExact: bool)

  /** What each plan promises about the documents the filter accepts. */
  ghost predicate Sound(c: Corpus, sat: set<DocId>, plan: Plan) {
    var all := c.All();
    match plan
    case Materialized(docs) => docs == sat
    case FilteredCandidates(candidates) => sat <= candidates <= all
    case AnchoredDenylist(anchor, failing) => sat <= anchor <= all && anchor - sat <= failing
    case Predicate(matching, failing, candidates, exact) =>
      && (matching.Some? ==> matching.value == |sat|)
      && (failing.Some? ==> failing.value == |all - sat|)
      && (candidates.Some? ==> all - sat <= candidates.value <= all)
      && (exact ==> candidates == Some(all - sat))
      && (candidates.None? ==> matching.Some? && failing.Some?)
  }

  // ----- Conjuncts and their statistics -----

  datatype Conjunct = OfEntry(entry: Entry) | OfFilter(filter: Filter)

  predicate ValidatedConjunct(k: Conjunct) {
    if k.OfEntry? then ValidatedEntry(k.entry) else Validated(k.filter)
  }

  function SatOf(c: Corpus, k: Conjunct): set<DocId> {
    if k.OfEntry? then c.SatEntry(k.entry) else c.Sat(k.filter)
  }

  function CountOf(c: Corpus, k: Conjunct): Option<nat> {
    if k.OfEntry? then CountEntry(c, k.entry) else CountNode(c, k.filter)
  }

  function ProbeOf(c: Corpus, k: Conjunct, side: Side): Option<nat> {
    if k.OfEntry? then ProbeEntry(c, k.entry, side) else ProbeNode(c, k.filter, side)
  }

  function MaterializeOf(c: Corpus, k: Conjunct, side: Side): Planned<set<DocId>> {
    if k.OfEntry? then MaterializeEntry(c, k.entry, side) else MaterializeNode(c, k.filter, side)
  }

  predicate MatchingExactOf(c: Corpus, k: Conjunct) {
    if k.OfEntry? then EntryMatchingExact(c, k.entry) else NodeMatchingExact(c, k.filter)
  }

  predicate FailingExactOf(k: Conjunct) {
    if k.OfEntry? then EntryFailingExact(k.entry) else NodeFailingExact(k.filter)
  }

  function PostingOf(c: Corpus, k: Conjunct): Option<set<DocId>> {
    if k.OfEntry? then EntryPosting(c, k.entry) else NodePosting(c, k.filter)
  }

  predicate IndexedOf(c: Corpus, d: DocId, k: Conjunct) {
    if k.OfEntry? then IndexedEntry(c, d, k.entry) else IndexedNode(c, d, k.filter)
  }

  datatype Stats = Stats(
    conjunct: Conjunct,
    matchingCount: Option<nat>,
    matchingProbe: Option<nat>,
    failingCount: Option<nat>,
    failingProbe: Option<nat>,
    matchingExact: bool)

  function StatsOf(c: Corpus, k: Conjunct): Stats {
    var count := CountOf(c, k);
    Stats(k, count, ProbeOf(c, k, Matching),
          if count.Some? then Some(SaturatingSub(c.Total(), count.value)) else None,
          ProbeOf(c, k, Failing), MatchingExactOf(c, k))
  }

  function AllStats(c: Corpus, ks: seq<Conjunct>): seq<Stats> {
    seq(|ks|, i requires 0 <= i < |ks| => StatsOf(c, ks[i]))
  }

  function MatchingCost(stat: Stats, total: nat): nat {
    if stat.matchingCount.Some? then stat.matchingCount.value else stat.matchingProbe.GetOr(total)
  }

  predicate SingleConjunctMaterializes(stat: Stats, total: nat) {
    if stat.matchingCount == Some(0) || stat.matchingProbe == Some(0) then true
    else if stat.matchingCount == Some(total) || stat.failingProbe == Some(0) then false
    else if
      && stat.failingProbe.Some?
      && SaturatingMul(stat.failingProbe.value, REFINE_COST_RATIO) < MatchingCost(stat, total)
    then false
    else if
      && stat.matchingCount.Some?
      && SaturatingMul(stat.matchingCount.value, BLIND_DEFER_DEN) > SaturatingMul(total, BLIND_DEFER_NUM)
    then false
    else true
  }

  predicate FailingRefinementIsSmall(stat: Stats, total: nat) {
    stat.failingProbe.Some?
    && var count := Max(stat.failingProbe.value, stat.failingCount.GetOr(0));
    count == 0 || SaturatingMul(count, BLIND_DEFER_DEN) < SaturatingMul(total, BLIND_DEFER_DEN - BLIND_DEFER_NUM)
  }

  /** The conjuncts of a node with several entries, or of a lone `$and`. */
  function Conjuncts(f: Filter): Option<seq<Conjunct>> {
    var es := f.entries;
    if |es| == 1 then
      if es[0].And? then Some(seq(|es[0].subs|, i requires 0 <= i < |es[0].subs| => OfFilter(es[0].subs[i])))
      else None
    else Some(seq(|es|, i requires 0 <= i < |es| => OfEntry(es[i])))
  }

  // ----- Strategies -----

  function MinOther(stats: seq<Stats>, skip: nat, total: nat): Option<nat> {
    if stats == [] then None
    else
      var last := |stats| - 1;
      var rest := MinOther(stats[..last], skip, total);
      if last == skip then rest
      else
        var cost := MatchingCost(stats[last], total);
        if rest.Some? && rest.value <= cost then rest else Some(cost)
  }

  function Eligible(stats: seq<Stats>, ok: Stats -> bool): seq<Option<nat>> {
    seq(|stats|, i requires 0 <= i < |stats| => if ok(stats[i]) then stats[i].matchingProbe else None)
  }

  function SelectiveAnchor(c: Corpus, stats: seq<Stats>): Planned<Option<Plan>> {
    var anchor := ArgMin(Eligible(stats, (s: Stats) => SingleConjunctMaterializes(s, c.Total())));
    if anchor.None? then Ok(None)
    else
      var stat := stats[anchor.value];
      var alternative := MinOther(stats, anchor.value, c.Total()).GetOr(c.Total());
      if stat.matchingProbe.Some? && SaturatingMul(stat.matchingProbe.value, REFINE_COST_RATIO) >= alternative then
        Ok(None)
      else
        var docs := MaterializeOf(c, stat.conjunct, Matching);
        if docs.Err? then Err(docs.error) else Ok(Some(FilteredCandidates(docs.value)))
  }

  /** The union of every set but the one at `skip`; the first error wins. */
  function UnionOthers(sets: seq<Planned<set<DocId>>>, skip: int): Planned<set<DocId>> {
    if sets == [] then Ok({})
    else
      var last := |sets| - 1;
      var rest := UnionOthers(sets[..last], skip);
      if rest.Err? || last == skip then rest
      else if sets[last].Err? then sets[last]
      else Ok(rest.value + sets[last].value)
  }

  /** Failing-side supersets of the conjuncts. */
  function FailingSets(c: Corpus, stats: seq<Stats>): seq<Planned<set<DocId>>> {
    seq(|stats|, i requires 0 <= i < |stats| => MaterializeOf(c, stats[i].conjunct, Failing))
  }

  function AllUnselectiveDenylist(c: Corpus, stats: seq<Stats>): Planned<Option<Plan>> {
    if !(forall i | 0 <= i < |stats| :: FailingRefinementIsSmall(stats[i], c.Total())) then Ok(None)
    else
      var docs := UnionOthers(FailingSets(c, stats), -1);
      if docs.Err? then Err(docs.error) else Ok(Some(Predicate(None, None, Some(docs.value), false)))
  }

  /** The failing bound of the AND when `anchor` is taken exactly; absent if a conjunct has no failing probe. */
  function FailingBound(stats: seq<Stats>, anchor: int, start: nat): Option<nat> {
    if stats == [] then Some(start)
    else
      var last := |stats| - 1;
      var rest := FailingBound(stats[..last], anchor, start);
      if last == anchor then rest
      else if rest.Some? && stats[last].failingProbe.Some? then
        Some(SaturatingAdd(rest.value, stats[last].failingProbe.value))
      else None
  }

  /** The sort key of an anchor choice, when the denylist is cheaper than knocking out of the anchor. */
  function DenylistKey(c: Corpus, stats: seq<Stats>, i: nat): Option<(nat, nat)>
    requires i < |stats|
  {
    var s := stats[i];
    if !s.matchingExact || s.matchingProbe.None? then None
    else
      var bound := FailingBound(stats, i, SaturatingSub(c.Total(), s.matchingProbe.value));
      if bound.Some? && SaturatingMul(bound.value, KNOCKOUT_VS_DENYLIST) < s.matchingProbe.value
      then Some((bound.value, s.matchingProbe.value)) else None
  }

  /** First choice in sorted order (smaller bound, then larger anchor, then index) whose posting exists. */
  function BestDenylistAnchor(c: Corpus, stats: seq<Stats>, n: nat): (r: Option<nat>)
    requires n <= |stats|
    ensures r.Some? ==>
              r.value < n && DenylistKey(c, stats, r.value).Some? && PostingOf(c, stats[r.value].conjunct).Some?
  {
    if n == 0 then None
    else
      var best := BestDenylistAnchor(c, stats, n - 1);
      var key := DenylistKey(c, stats, n - 1);
      if key.None? || PostingOf(c, stats[n - 1].conjunct).None? then best
      else if best.None? then Some(n - 1)
      else
        var incumbent := DenylistKey(c, stats, best.value);
        if
          || key.value.0 < incumbent.value.0
          || (key.value.0 == incumbent.value.0 && key.value.1 > incumbent.value.1)
        then Some(n - 1)
        else best
  }

  /** A conjunct's exact failures: its failing side, refined through the indexes when that is only a superset. */
  function ExactFailures(c: Corpus, k: Conjunct): Planned<set<DocId>> {
    var docs := MaterializeOf(c, k, Failing);
    if docs.Err? || FailingExactOf(k) then docs else Ok(set d | d in docs.value && !IndexedOf(c, d, k))
  }

  function ExactFailingSets(c: Corpus, stats: seq<Stats>): seq<Planned<set<DocId>>> {
    seq(|stats|, i requires 0 <= i < |stats| => ExactFailures(c, stats[i].conjunct))
  }

  function ExactFailingDenylist(c: Corpus, stats: seq<Stats>): Planned<Option<Plan>> {
    var anchor := BestDenylistAnchor(c, stats, |stats|);
    if anchor.None? then Ok(None)
    else
      var posting := PostingOf(c, stats[anchor.value].conjunct).value;
      var others := UnionOthers(ExactFailingSets(c, stats), anchor.value);
      if others.Err? then Err(others.error)
      else
        var failing := (c.All() - posting) + others.value;
        Ok(Some(Predicate(Some(SaturatingSub(c.Total(), |failing|)), Some(|failing|), Some(failing), true)))
  }

  function ComplementKnockout(c: Corpus, stats: seq<Stats>): Planned<Option<Plan>> {
    var anchor := ArgMin(Eligible(stats, (s: Stats) => s.matchingExact));
    if anchor.None? then Ok(None)
    else if exists i | 0 <= i < |stats| && i != anchor.value :: !FailingRefinementIsSmall(stats[i], c.Total()) then
      Ok(None)
    else
      var docs := MaterializeOf(c, stats[anchor.value].conjunct, Matching);
      var failing := UnionOthers(FailingSets(c, stats), anchor.value);
      if docs.Err? then Err(docs.error)
      else if failing.Err? then Err(failing.error)
      else Ok(Some(AnchoredDenylist(docs.value, failing.value)))
  }

  /** The first strategy that applies; an error stops the search. */
  function PlanConjunctive(c: Corpus, f: Filter): Planned<Option<Plan>> {
    var ks := Conjuncts(f);
    if ks.None? || |ks.value| < 2 then Ok(None)
    else
      var stats := AllStats(c, ks.value);
      var a := SelectiveAnchor(c, stats);
      if a != Ok(None) then a
      else
        var b := ExactFailingDenylist(c, stats);
        if b != Ok(None) then b
        else
          var d := AllUnselectiveDenylist(c, stats);
          if d != Ok(None) then d else ComplementKnockout(c, stats)
  }

  function PlanFilter(c: Corpus, f: Filter): Planned<Plan> {
    var total := c.Total();
    var count := CountNode(c, f);
    var matchingProbe := ProbeNode(c, f, Matching);
    var failingProbe := ProbeNode(c, f, Failing);
    if count == Some(0) || matchingProbe == Some(0) then Ok(Materialized({}))
    else if count == Some(total) || failingProbe == Some(0) then Ok(Predicate(Some(total), Some(0), Some({}), true))
    else
      var conjunctive := PlanConjunctive(c, f);
      if conjunctive.Err? then Err(conjunctive.error)
      else if conjunctive.value.Some? then Ok(conjunctive.value.value)
      else
        PlanWhole(c.Total(), count, matchingProbe, failingProbe, MaterializeNode(c, f, Failing), c.Resolve(f))
  }

  /** Without a conjunctive strategy: refine the failing side, defer blindly, or materialise. */
  function PlanWhole(total: nat, count: Option<nat>, matchingProbe: Option<nat>, failingProbe: Option<nat>,
                     failing: Planned<set<DocId>>, resolved: set<DocId>): Planned<Plan> {
    var cost := if count.Some? then count.value else matchingProbe.GetOr(USIZE_MAX);
    if failingProbe.Some? && SaturatingMul(failingProbe.value, REFINE_COST_RATIO) < cost then
      if failing.Err? then Err(failing.error) else Ok(Predicate(None, None, Some(failing.value), false))
    else if count.Some? && SaturatingMul(count.value, BLIND_DEFER_DEN) > SaturatingMul(total, BLIND_DEFER_NUM) then
      Ok(Predicate(count, Some(SaturatingSub(total, count.value)), None, false))
    else Ok(Materialized(resolved))
  }

  // ----- The strategies are sound -----

  ghost predicate ConjunctsOf(c: Corpus, ks: seq<Conjunct>, sat: set<DocId>) {
    && (forall i | 0 <= i < |ks| :: ValidatedConjunct(ks[i]))
    && sat == set d | d in c.docs && forall i | 0 <= i < |ks| :: d in SatOf(c, ks[i])
  }

  lemma ConjunctsExact(c: Corpus, f: Filter)
    requires Validated(f) && Conjuncts(f).Some?
    ensures ConjunctsOf(c, Conjuncts(f).value, c.Sat(f))
  {
    var ks := Conjuncts(f).value;
    var es := f.entries;
    forall d | d in c.docs ensures d in c.Sat(f) <==> forall i | 0 <= i < |ks| :: d in SatOf(c, ks[i]) {
      if |es| == 1 {
        assert ValidatedEntry(es[0]);
        assert d in c.Sat(f) <==> d in c.SatEntry(es[0]);
        assert forall i | 0 <= i < |ks| :: d in SatOf(c, ks[i]) <==> Matches(c.parse, c.docs[d], es[0].subs[i]);
      } else {
        assert forall i | 0 <= i < |ks| :: d in SatOf(c, ks[i]) <==> MatchesEntry(c.parse, c.docs[d], es[i]);
      }
    }
  }

  lemma ConjunctBounds(c: Corpus, k: Conjunct, side: Side)
    requires c.Valid() && ValidatedConjunct(k)
    ensures Bounds(c.All(), SideOf(c, SatOf(c, k), side), ProbeOf(c, k, side), MaterializeOf(c, k, side))
  {
    if k.OfEntry? { EntryBounds(c, k.entry, side); } else { NodeBounds(c, k.filter, side); }
  }

  lemma SelectiveAnchorSound(c: Corpus, ks: seq<Conjunct>, sat: set<DocId>)
    requires c.Valid() && ConjunctsOf(c, ks, sat)
    ensures var r := SelectiveAnchor(c, AllStats(c, ks));
            r.Ok? && (r.value.Some? ==> Sound(c, sat, r.value.value))
  {
    var stats := AllStats(c, ks);
    var anchor := ArgMin(Eligible(stats, (s: Stats) => SingleConjunctMaterializes(s, c.Total())));
    if anchor.Some? {
      ConjunctBounds(c, ks[anchor.value], Matching);
    }
  }

  lemma {:induction false} UnionOthersExact(sets: seq<Planned<set<DocId>>>, skip: int)
    requires forall i | 0 <= i < |sets| && i != skip :: sets[i].Ok?
    ensures UnionOthers(sets, skip).Ok?
    ensures forall d :: d in UnionOthers(sets, skip).value <==>
              exists i | 0 <= i < |sets| && i != skip :: d in sets[i].value
  {
    if sets != [] {
      var last := |sets| - 1;
      UnionOthersExact(sets[..last], skip);
      assert sets == sets[..last] + [sets[last]];
    }
  }

  /** The union of failing supersets covers every document some other conjunct rejects. */
  lemma FailingUnionBounds(c: Corpus, ks: seq<Conjunct>, skip: int)
    requires c.Valid()
    requires forall i | 0 <= i < |ks| :: ValidatedConjunct(ks[i])
    requires forall i | 0 <= i < |ks| && i != skip :: ProbeOf(c, ks[i], Failing).Some?
    ensures var r := UnionOthers(FailingSets(c, AllStats(c, ks)), skip);
            r.Ok? && r.value <= c.All()
            && forall i | 0 <= i < |ks| && i != skip :: c.All() - SatOf(c, ks[i]) <= r.value
  {
    var sets := FailingSets(c, AllStats(c, ks));
    forall i | 0 <= i < |ks| && i != skip ensures sets[i].Ok? && c.All() - SatOf(c, ks[i]) <= sets[i].value <= c.All() {
      ConjunctBounds(c, ks[i], Failing);
    }
    UnionOthersExact(sets, skip);
  }

  lemma AllUnselectiveDenylistSound(c: Corpus, ks: seq<Conjunct>, sat: set<DocId>)
    requires c.Valid() && ConjunctsOf(c, ks, sat)
    ensures var r := AllUnselectiveDenylist(c, AllStats(c, ks));
            r.Ok? && (r.value.Some? ==> Sound(c, sat, r.value.value))
  {
    var stats := AllStats(c, ks);
    if forall i | 0 <= i < |stats| :: FailingRefinementIsSmall(stats[i], c.Total()) {
      forall i | 0 <= i < |ks| ensures ProbeOf(c, ks[i], Failing).Some? {
        assert FailingRefinementIsSmall(stats[i], c.Total());
      }
      FailingUnionBounds(c, ks, -1);
    }
  }

  lemma ComplementKnockoutSound(c: Corpus, ks: seq<Conjunct>, sat: set<DocId>)
    requires c.Valid() && ConjunctsOf(c, ks, sat)
    ensures var r := ComplementKnockout(c, AllStats(c, ks));
            r.Ok? && (r.value.Some? ==> Sound(c, sat, r.value.value))
  {
    var stats := AllStats(c, ks);
    var anchor := ArgMin(Eligible(stats, (s: Stats) => s.matchingExact));
    if
      && anchor.Some?
      && !exists i | 0 <= i < |stats| && i != anchor.value :: !FailingRefinementIsSmall(stats[i], c.Total())
    {
      var k := ks[anchor.value];
      assert stats[anchor.value].matchingExact;
      if k.OfEntry? { EntryMatchingExactly(c, k.entry); } else { NodeMatchingExactly(c, k.filter); }
      forall i | 0 <= i < |ks| && i != anchor.value ensures ProbeOf(c, ks[i], Failing).Some? {
        assert FailingRefinementIsSmall(stats[i], c.Total());
      }
      FailingUnionBounds(c, ks, anchor.value);
      assert SatOf(c, k) <= c.All();
    }
  }

  lemma {:induction false} BoundNeedsProbes(stats: seq<Stats>, anchor: int, start: nat)
    requires FailingBound(stats, anchor, start).Some?
    ensures forall i | 0 <= i < |stats| && i != anchor :: stats[i].failingProbe.Some?
  {
    if stats != [] { BoundNeedsProbes(stats[..|stats| - 1], anchor, start); }
  }

  lemma RefinedFailures(c: Corpus, k: Conjunct, docs: set<DocId>)
    requires c.Valid()
    requires c.All() - SatOf(c, k) <= docs <= c.All()
    ensures (set d | d in docs && !IndexedOf(c, d, k)) == c.All() - SatOf(c, k)
  {
    forall d | d in docs ensures IndexedOf(c, d, k) <==> d in SatOf(c, k) {
      if k.OfEntry? { IndexedEntryExact(c, d, k.entry); } else { IndexedNodeExact(c, d, k.filter); }
    }
  }

  lemma ExactFailuresExact(c: Corpus, k: Conjunct)
    requires c.Valid() && ValidatedConjunct(k)
    requires ProbeOf(c, k, Failing).Some?
    ensures ExactFailures(c, k) == Ok(c.All() - SatOf(c, k))
  {
    ConjunctBounds(c, k, Failing);
    if FailingExactOf(k) {
      if k.OfEntry? { EntryFailingExactly(c, k.entry); } else { NodeFailingExactly(c, k.filter); }
    } else {
      RefinedFailures(c, k, MaterializeOf(c, k, Failing).value);
    }
  }

  /** The complement of the anchor plus the other conjuncts' failures is the complement of the matches. */
  lemma FailuresComplement(c: Corpus, ks: seq<Conjunct>, sat: set<DocId>, anchor: nat)
    requires c.Valid() && ConjunctsOf(c, ks, sat)
    requires anchor < |ks|
    requires forall i | 0 <= i < |ks| && i != anchor :: ProbeOf(c, ks[i], Failing).Some?
    ensures var r := UnionOthers(ExactFailingSets(c, AllStats(c, ks)), anchor);
            r.Ok? && (c.All() - SatOf(c, ks[anchor])) + r.value == c.All() - sat
  {
    var sets := ExactFailingSets(c, AllStats(c, ks));
    forall i | 0 <= i < |ks| && i != anchor ensures sets[i] == Ok(c.All() - SatOf(c, ks[i])) {
      ExactFailuresExact(c, ks[i]);
    }
    UnionOthersExact(sets, anchor);
  }

  lemma ExactFailingDenylistSound(c: Corpus, ks: seq<Conjunct>, sat: set<DocId>)
    requires c.Valid() && ConjunctsOf(c, ks, sat)
    ensures var r := ExactFailingDenylist(c, AllStats(c, ks));
            r.Ok? && (r.value.Some? ==> Sound(c, sat, r.value.value))
  {
    var stats := AllStats(c, ks);
    var anchor := BestDenylistAnchor(c, stats, |stats|);
    if anchor.Some? {
      var a := anchor.value;
      BoundNeedsProbes(stats, a, SaturatingSub(c.Total(), stats[a].matchingProbe.value));
      forall i | 0 <= i < |ks| && i != a ensures ProbeOf(c, ks[i], Failing).Some? {
        assert stats[i].failingProbe.Some?;
      }
      FailuresComplement(c, ks, sat, a);
      AnchorPosting(c, ks[a]);
      SubsetCardinality(sat, c.All());
    }
  }

  lemma AnchorPosting(c: Corpus, k: Conjunct)
    requires c.Valid() && PostingOf(c, k).Some?
    ensures PostingOf(c, k).value == SatOf(c, k)
  {
    if k.OfEntry? { EntryPostingExact(c, k.entry); } else { NodePostingExact(c, k.filter); }
  }

  lemma PlanConjunctiveSound(c: Corpus, f: Filter)
    requires c.Valid() && Validated(f)
    ensures var r := PlanConjunctive(c, f); r.Ok? && (r.value.Some? ==> Sound(c, c.Sat(f), r.value.value))
  {
    var ks := Conjuncts(f);
    if ks.Some? && |ks.value| >= 2 {
      ConjunctsExact(c, f);
      SelectiveAnchorSound(c, ks.value, c.Sat(f));
      ExactFailingDenylistSound(c, ks.value, c.Sat(f));
      AllUnselectiveDenylistSound(c, ks.value, c.Sat(f));
      ComplementKnockoutSound(c, ks.value, c.Sat(f));
    }
  }

  lemma PlanWholeSound(
    c: Corpus, sat: set<DocId>, count: Option<nat>, matchingProbe: Option<nat>, failingProbe: Option<nat>,
    failing: Planned<set<DocId>>)
    requires sat <= c.All() && Bounds(c.All(), c.All() - sat, failingProbe, failing)
    requires count.Some? ==> count.value == |sat|
    ensures var r := PlanWhole(c.Total(), count, matchingProbe, failingProbe, failing, sat);
            r.Ok? && Sound(c, sat, r.value)
  {
    SubsetCardinality(sat, c.All());
  }

  /** A count or probe that is zero on one side settles the filter. */
  lemma EmptySides(c: Corpus, f: Filter)
    requires c.Valid() && Validated(f)
    ensures CountNode(c, f) == Some(0) || ProbeNode(c, f, Matching) == Some(0) ==> c.Sat(f) == {}
    ensures CountNode(c, f) == Some(c.Total()) || ProbeNode(c, f, Failing) == Some(0) ==>
              c.All() - c.Sat(f) == {} && |c.Sat(f)| == c.Total()
  {
    CountNodeExact(c, f);
    NodeBounds(c, f, Matching);
    NodeBounds(c, f, Failing);
    SubsetCardinality(c.Sat(f), c.All());
  }

  /** Every validated filter gets a plan, and the plan keeps its promise. */
  lemma PlanFilterSound(c: Corpus, f: Filter)
    requires c.Valid() && Validated(f)
    ensures PlanFilter(c, f).Ok? && Sound(c, c.Sat(f), PlanFilter(c, f).value)
  {
    EmptySides(c, f);
    PlanConjunctiveSound(c, f);
    CountNodeExact(c, f);
    NodeBounds(c, f, Failing);
    c.ResolveExact(f);
    PlanWholeSound(c, c.Sat(f), CountNode(c, f), ProbeNode(c, f, Matching), ProbeNode(c, f, Failing),
                   MaterializeNode(c, f, Failing));
  }

  // ----- The engine completes a plan with stored metadata -----

  datatype DocPlan =
    | AllDocs
    | DocSet(docs: set<DocId>)
    | CandidateSet(candidates: set<DocId>)
    | AnchorDenylist(anchor: set<DocId>, failing: set<DocId>)
    | Deferred(matchingCount: nat, failingCount: nat, denied: Option<set<DocId>>)

  function Accepts(c: Corpus, d: DocId, f: Filter): bool {
    d in c.docs && Matches(c.parse, c.docs[d], f)
  }

  function FilterCandidates(c: Corpus, candidates: set<DocId>, f: Filter): set<DocId> {
    set d | d in candidates && Accepts(c, d, f)
  }

  function AnchorMinusDenied(c: Corpus, anchor: set<DocId>, failing: set<DocId>, f: Filter): set<DocId> {
    anchor - set d | d in failing && d in anchor && !Accepts(c, d, f)
  }

  function Denied(c: Corpus, f: Filter, candidates: set<DocId>, exact: bool): set<DocId> {
    if exact then candidates else set d | d in candidates && !Accepts(c, d, f)
  }

  function Complete(c: Corpus, f: Filter, plan: Plan): Planned<DocPlan> {
    match plan
    case Materialized(docs) => Ok(DocSet(docs))
    case FilteredCandidates(candidates) => Ok(CandidateSet(candidates))
    case AnchoredDenylist(anchor, failing) => Ok(AnchorDenylist(anchor, failing))
    case Predicate(matching, failingCount, candidates, exact) =>
      if candidates.None? && (matching.None? || failingCount.None?) then Err(Failure("predicate plan missing count"))
      else
        var failing := if candidates.None? then None else Some(Denied(c, f, candidates.value, exact));
        var m := if failing.Some? then SaturatingSub(c.Total(), |failing.value|) else matching.value;
        var n := if failing.Some? then |failing.value| else failingCount.value;
        if m == 0 then Ok(DocSet({})) else Ok(Deferred(m, n, failing))
  }

  function MaterializePlan(c: Corpus, f: Filter, plan: DocPlan): set<DocId> {
    match plan
    case AllDocs => c.All()
    case DocSet(docs) => docs
    case CandidateSet(candidates) => FilterCandidates(c, candidates, f)
    case AnchorDenylist(anchor, failing) => AnchorMinusDenied(c, anchor, failing, f)
    case Deferred(_, _, failing) => if failing.Some? then c.All() - failing.value else FilterCandidates(c, c.All(), f)
  }

  function IntersectIds(c: Corpus, f: Filter, ids: set<DocId>, plan: DocPlan): set<DocId> {
    match plan
    case AllDocs => ids
    case DocSet(docs) => ids * docs
    case CandidateSet(candidates) => FilterCandidates(c, ids * candidates, f)
    case AnchorDenylist(anchor, failing) => AnchorMinusDenied(c, ids * anchor, failing * (ids * anchor), f)
    case Deferred(matching, _, failing) =>
      if |ids| < matching || failing.None? then FilterCandidates(c, ids, f) else ids - failing.value
  }

  function EstimateMatching(c: Corpus, f: Filter): nat {
    var count := CountNode(c, f);
    if count.Some? then count.value else ProbeNode(c, f, Matching).GetOr(c.Total())
  }

  /** The engine's filter resolution, with an optional list of document ids. */
  function ResolveDocuments(c: Corpus, f: Filter, ids: Option<set<DocId>>): Planned<set<DocId>> {
    var known := if ids.Some? then Some(set d | d in ids.value && d in c.docs) else None;
    if known.Some? && |known.value| < EstimateMatching(c, f) then Ok(FilterCandidates(c, known.value, f))
    else
      var plan := PlanFilter(c, f);
      if plan.Err? then Err(plan.error)
      else
        var docPlan := Complete(c, f, plan.value);
        if docPlan.Err? then Err(docPlan.error)
        else if known.Some? then Ok(IntersectIds(c, f, known.value, docPlan.value))
        else Ok(MaterializePlan(c, f, docPlan.value))
  }

  /** What a completed plan promises: exact counts and, when it lists failing documents, the exact failing set. */
  ghost predicate DocSound(c: Corpus, sat: set<DocId>, p: DocPlan) {
    match p
    case AllDocs => sat == c.All()
    case DocSet(docs) => docs == sat
    case CandidateSet(candidates) => sat <= candidates <= c.All()
    case AnchorDenylist(anchor, failing) => sat <= anchor <= c.All() && anchor - sat <= failing
    case Deferred(matching, failingCount, denied) =>
      && matching == |sat| && failingCount == |c.All() - sat|
      && (denied.Some? ==> denied.value == c.All() - sat)
  }

  lemma CandidatesExact(c: Corpus, f: Filter, candidates: set<DocId>)
    requires candidates <= c.All()
    ensures FilterCandidates(c, candidates, f) == candidates * c.Sat(f)
    ensures (set d | d in candidates && !Accepts(c, d, f)) == candidates - c.Sat(f)
  {
  }

  lemma DeniedExact(c: Corpus, f: Filter, candidates: set<DocId>, exact: bool)
    requires c.All() - c.Sat(f) <= candidates <= c.All() && (exact ==> candidates == c.All() - c.Sat(f))
    ensures Denied(c, f, candidates, exact) == c.All() - c.Sat(f)
  {
    CandidatesExact(c, f, candidates);
  }

  lemma CompleteSound(c: Corpus, f: Filter, plan: Plan)
    requires Sound(c, c.Sat(f), plan)
    ensures Complete(c, f, plan).Ok? && DocSound(c, c.Sat(f), Complete(c, f, plan).value)
  {
    var sat := c.Sat(f);
    SubsetCardinality(sat, c.All());
    if plan.Predicate? && plan.failing.Some? { DeniedExact(c, f, plan.failing.value, plan.failingExact); }
    if |sat| == 0 { assert sat == {}; }
  }

  lemma AnchorExact(c: Corpus, f: Filter, anchor: set<DocId>, failing: set<DocId>)
    requires anchor <= c.All() && anchor - c.Sat(f) <= failing
    ensures AnchorMinusDenied(c, anchor, failing, f) == anchor * c.Sat(f)
  {
    forall d | d in anchor ensures d in AnchorMinusDenied(c, anchor, failing, f) <==> d in c.Sat(f) {}
  }

  lemma MaterializeSound(c: Corpus, f: Filter, p: DocPlan)
    requires DocSound(c, c.Sat(f), p)
    ensures MaterializePlan(c, f, p) == c.Sat(f)
  {
    assert c.Sat(f) <= c.All();
    match p
    case CandidateSet(candidates) => CandidatesExact(c, f, candidates);
    case AnchorDenylist(anchor, failing) => AnchorExact(c, f, anchor, failing);
    case Deferred(_, _, _) => CandidatesExact(c, f, c.All());
    case _ =>
  }

  lemma IntersectSound(c: Corpus, f: Filter, ids: set<DocId>, p: DocPlan)
    requires DocSound(c, c.Sat(f), p) && ids <= c.All()
    ensures IntersectIds(c, f, ids, p) == ids * c.Sat(f)
  {
    match p
    case CandidateSet(candidates) => CandidatesExact(c, f, ids * candidates);
    case AnchorDenylist(anchor, failing) => AnchorExact(c, f, ids * anchor, failing * (ids * anchor));
    case Deferred(_, _, _) => CandidatesExact(c, f, ids);
    case _ =>
  }

  /** The documents whose metadata the predicate accepts, cut to the ids given. */
  function Accepted(c: Corpus, f: Filter, ids: Option<set<DocId>>): set<DocId> {
    set d | d in c.docs && Matches(c.parse, c.docs[d], f) && (ids.Some? ==> d in ids.value)
  }

  /**
   Whatever strategy the planner picks, filtering never fails on a validated filter and
   returns exactly the documents whose metadata the predicate accepts, cut to the ids given.
   */
  lemma ResolveDocumentsExact(c: Corpus, f: Filter, ids: Option<set<DocId>>)
    requires c.Valid() && Validated(f)
    ensures ResolveDocuments(c, f, ids) == Ok(Accepted(c, f, ids))
  {
    PlanFilterSound(c, f);
    CompleteSound(c, f, PlanFilter(c, f).value);
    AcceptedIsSat(c, f, ids);
    ReadOff(c, f, ids, Complete(c, f, PlanFilter(c, f).value).value);
  }

  /** What is read off a completed plan, with and without ids to cut to. */
  lemma ReadOff(c: Corpus, f: Filter, ids: Option<set<DocId>>, p: DocPlan)
    requires DocSound(c, c.Sat(f), p)
    ensures ids.None? ==> MaterializePlan(c, f, p) == c.Sat(f)
    ensures ids.Some? ==>
              var known := set d | d in ids.value && d in c.docs;
              IntersectIds(c, f, known, p) == known * c.Sat(f) == FilterCandidates(c, known, f)
  {
    if ids.Some? {
      var known := set d | d in ids.value && d in c.docs;
      assert known <= c.All();
      CandidatesExact(c, f, known);
      IntersectSound(c, f, known, p);
    } else {
      MaterializeSound(c, f, p);
    }
  }

  lemma AcceptedIsSat(c: Corpus, f: Filter, ids: Option<set<DocId>>)
    ensures Accepted(c, f, ids) == if ids.Some? then (set d | d in ids.value && d in c.docs) * c.Sat(f) else c.Sat(f)
    ensures (set d | d in (if ids.Some? then ids.value else {}) && d in c.docs) <= c.All()
  {
  }
}
