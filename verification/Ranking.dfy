/**
 Document-level ranking quality: deduplicated rankings, binary nDCG and recall.  The discount
 is any strictly decreasing positive function of the rank.
 */
module Ranking {
  import opened Prelude

  // ----- Deduplication -----

  /** First occurrences of the non-empty ids, in order. */
  function Deduplicated(ids: seq<string>): (r: seq<string>)
    ensures NoDuplicates(r)
    ensures forall d :: d in r <==> d in ids && d != ""
  {
    if ids == [] then []
    else
      var n := |ids| - 1;
      var front := Deduplicated(ids[..n]);
      assert ids == ids[..n] + [ids[n]];
      if ids[n] == "" || ids[n] in front then front else front + [ids[n]]
  }

  method RankDocids(ids: seq<string>) returns (ranked: seq<string>)
    ensures ranked == Deduplicated(ids)
  {
    ranked := [];
    var seen: set<string> := {};
    for i := 0 to |ids|
      invariant ranked == Deduplicated(ids[..i])
      invariant seen == set d | d in ranked
    {
      assert ids[..i + 1][..i] == ids[..i];
      if ids[i] != "" && ids[i] !in seen {
        seen := seen + {ids[i]};
        ranked := ranked + [ids[i]];
      }
    }
    assert ids[..|ids|] == ids;
  }

  function FirstIndex(ids: seq<string>, d: string): (k: nat)
    requires d in ids
    ensures k < |ids| && ids[k] == d && d !in ids[..k]
  {
    if ids[0] == d then 0 else
      var k := FirstIndex(ids[1..], d);
      assert ids[..k + 1] == [ids[0]] + ids[1..][..k];
      k + 1
  }

  lemma FirstIndexUnique(ids: seq<string>, d: string, k: nat)
    requires k < |ids| && ids[k] == d && d !in ids[..k]
    ensures FirstIndex(ids, d) == k
  {
    var f := FirstIndex(ids, d);
    assert f <= k by { assert d in ids[..k + 1]; assert forall i | 0 <= i < k :: ids[i] in ids[..k]; }
    assert forall i | 0 <= i < f :: ids[i] in ids[..f];
  }

  lemma FirstIndexPrefix(front: seq<string>, last: string, d: string)
    requires d in front
    ensures FirstIndex(front + [last], d) == FirstIndex(front, d)
  {
    var k := FirstIndex(front, d);
    assert (front + [last])[..k] == front[..k];
    FirstIndexUnique(front + [last], d, k);
  }

  /** The deduplicated ranking keeps the order of first appearance. */
  lemma {:induction false} OrderKept(ids: seq<string>, i: nat, j: nat)
    requires i < j < |Deduplicated(ids)|
    ensures Deduplicated(ids)[i] in ids && Deduplicated(ids)[j] in ids
    ensures FirstIndex(ids, Deduplicated(ids)[i]) < FirstIndex(ids, Deduplicated(ids)[j])
  {
    var n := |ids| - 1;
    var front, last := ids[..n], ids[n];
    var r, r' := Deduplicated(ids), Deduplicated(front);
    assert ids == front + [last];
    assert r[i] in r && r[j] in r && r'[i] in r';
    FirstIndexPrefix(front, last, r'[i]);
    if j < |r'| {
      assert r'[j] in r';
      OrderKept(front, i, j);
      FirstIndexPrefix(front, last, r'[j]);
    } else {
      assert r[j] == last && last !in front;
      FirstIndexUnique(ids, last, n);
    }
  }

  // ----- Discounted gain -----

  /** A positive, strictly decreasing discount by rank, such as `1 / log2(rank + 1)`. */
  datatype Discount = Discount(at: nat -> real) {
    ghost predicate Valid() {
      && (forall r: nat | r > 0 :: at(r) > 0.0)
      && (forall r: nat, q: nat | 0 < r < q :: at(q) < at(r))
    }
  }

  /** The gain of the relevant positions among the first `n`. */
  function Gain(d: Discount, rel: seq<bool>, n: nat): real
    requires n <= |rel|
  {
    if n == 0 then 0.0 else Gain(d, rel, n - 1) + if rel[n - 1] then d.at(n) else 0.0
  }

  function Dcg(d: Discount, rel: seq<bool>, k: nat): real {
    Gain(d, rel, Min(k, |rel|))
  }

  method DcgAtK(d: Discount, rel: seq<bool>, k: nat) returns (total: real)
    ensures total == Dcg(d, rel, k)
  {
    total := 0.0;
    for i := 0 to Min(k, |rel|)
      invariant total == Gain(d, rel, i)
    {
      if rel[i] { total := total + d.at(i + 1); }
    }
  }

  function AllRelevant(n: nat): (r: seq<bool>)
    ensures |r| == n
  {
    seq(n, _ => true)
  }

  function Ndcg(d: Discount, rel: seq<bool>, relevant: nat, k: nat): real {
    if relevant == 0 then 0.0
    else
      var ideal := Dcg(d, AllRelevant(relevant), k);
      if ideal == 0.0 then 0.0 else Dcg(d, rel, k) / ideal
  }

  /** The gain of `c` relevant documents in the first `c` positions. */
  function Ideal(d: Discount, c: nat): real {
    if c == 0 then 0.0 else Ideal(d, c - 1) + d.at(c)
  }

  lemma {:induction false} IdealIsAllRelevant(d: Discount, total: nat, n: nat)
    requires n <= total
    ensures Gain(d, AllRelevant(total), n) == Ideal(d, n)
  {
    if n > 0 { IdealIsAllRelevant(d, total, n - 1); }
  }

  lemma {:induction false} IdealGrows(d: Discount, a: nat, b: nat)
    requires d.Valid() && a <= b
    ensures Ideal(d, a) <= Ideal(d, b)
    ensures a < b ==> Ideal(d, a) < Ideal(d, b)
  {
    if a < b { IdealGrows(d, a, b - 1); }
  }

  function Count(rel: seq<bool>, n: nat): (c: nat)
    requires n <= |rel|
    ensures c <= n
  {
    if n == 0 then 0 else Count(rel, n - 1) + if rel[n - 1] then 1 else 0
  }

  ghost predicate Leading(rel: seq<bool>, m: nat) {
    m <= |rel| && forall i | 0 <= i < m :: rel[i]
  }

  lemma {:induction false} LeadingCount(rel: seq<bool>, m: nat, n: nat)
    requires Leading(rel, m) && m <= n <= |rel|
    ensures Count(rel, n) >= m
    ensures m == n ==> Count(rel, n) == n
  {
    if n > 0 { LeadingCount(rel, if m == n then m - 1 else m, n - 1); }
  }

  lemma {:induction false} FullCount(rel: seq<bool>, n: nat)
    requires n <= |rel| && Count(rel, n) == n
    ensures Leading(rel, n)
  {
    if n > 0 { FullCount(rel, n - 1); }
  }

  /** Moving the relevant documents to the front never loses gain, and gains unless they are there already. */
  lemma {:induction false} Rearrangement(d: Discount, rel: seq<bool>, n: nat)
    requires d.Valid() && n <= |rel|
    ensures 0.0 <= Gain(d, rel, n) <= Ideal(d, Count(rel, n))
    ensures Gain(d, rel, n) == Ideal(d, Count(rel, n)) <==> Leading(rel, Count(rel, n))
  {
    if n > 0 {
      Rearrangement(d, rel, n - 1);
      var c := Count(rel, n - 1);
      if rel[n - 1] {
        assert d.at(n) <= d.at(c + 1) && d.at(n) > 0.0;
        if c + 1 == n {
          FullCount(rel, n - 1);
        } else {
          assert d.at(n) < d.at(c + 1);
          if Leading(rel, c + 1) { LeadingCount(rel, c + 1, n - 1); }
        }
      }
    }
  }

  /** What is counted cannot exceed the relevant documents when no document is ranked twice. */
  function Relevances(ranked: seq<string>, relevant: set<string>): (r: seq<bool>)
    ensures |r| == |ranked|
  {
    seq(|ranked|, i requires 0 <= i < |ranked| => ranked[i] in relevant)
  }

  function Seen(ranked: seq<string>, n: nat): (r: set<string>)
    requires n <= |ranked|
    ensures forall x :: x in r <==> x in ranked[..n]
  {
    set x | x in ranked[..n]
  }

  lemma SeenOneMore(ranked: seq<string>, n: nat)
    requires NoDuplicates(ranked) && n < |ranked|
    ensures Seen(ranked, n + 1) == Seen(ranked, n) + {ranked[n]} && ranked[n] !in Seen(ranked, n)
  {
    assert ranked[..n + 1] == ranked[..n] + [ranked[n]];
  }

  lemma HitsStep(ranked: seq<string>, relevant: set<string>, n: nat)
    requires NoDuplicates(ranked) && n < |ranked|
    ensures |Seen(ranked, n + 1) * relevant| == |Seen(ranked, n) * relevant| + if ranked[n] in relevant then 1 else 0
  {
    SeenOneMore(ranked, n);
    HitsOneMore(Seen(ranked, n), ranked[n], relevant);
  }

  lemma NoHits(ranked: seq<string>, relevant: set<string>)
    ensures |Seen(ranked, 0) * relevant| == 0
  {
    assert Seen(ranked, 0) == {};
  }

  /** Whatever starts at zero and steps by one at each relevant position counts them. */
  ghost predicate Tallies(rel: seq<bool>, tally: seq<nat>) {
    && |tally| == |rel| + 1 && tally[0] == 0
    && forall i | 0 <= i < |rel| :: tally[i + 1] == tally[i] + if rel[i] then 1 else 0
  }

  lemma {:induction false} TallyIsCount(rel: seq<bool>, tally: seq<nat>, n: nat)
    requires n <= |rel| && Tallies(rel, tally)
    ensures Count(rel, n) == tally[n]
  {
    if n > 0 { TallyIsCount(rel, tally, n - 1); }
  }

  function HitTally(ranked: seq<string>, relevant: set<string>): (r: seq<nat>)
    ensures |r| == |ranked| + 1
  {
    seq(|ranked| + 1, i requires 0 <= i <= |ranked| => |Seen(ranked, i) * relevant|)
  }

  lemma HitsTally(ranked: seq<string>, relevant: set<string>)
    requires NoDuplicates(ranked)
    ensures Tallies(Relevances(ranked, relevant), HitTally(ranked, relevant))
  {
    var rel, tally := Relevances(ranked, relevant), HitTally(ranked, relevant);
    NoHits(ranked, relevant);
    forall i | 0 <= i < |rel| ensures tally[i + 1] == tally[i] + if rel[i] then 1 else 0 {
      HitsStep(ranked, relevant, i);
    }
  }

  lemma CountIsHits(ranked: seq<string>, relevant: set<string>, n: nat)
    requires NoDuplicates(ranked) && n <= |ranked|
    ensures Count(Relevances(ranked, relevant), n) == |Seen(ranked, n) * relevant|
  {
    HitsTally(ranked, relevant);
    TallyIsCount(Relevances(ranked, relevant), HitTally(ranked, relevant), n);
  }

  lemma HitsOneMore(before: set<string>, x: string, relevant: set<string>)
    requires x !in before
    ensures |(before + {x}) * relevant| == |before * relevant| + if x in relevant then 1 else 0
  {
    if x in relevant {
      assert (before + {x}) * relevant == before * relevant + {x};
    } else {
      assert (before + {x}) * relevant == before * relevant;
    }
  }

  lemma GainWithinIdeal(d: Discount, rel: seq<bool>, n: nat, m: nat)
    requires d.Valid() && n <= |rel| && Count(rel, n) <= m
    ensures 0.0 <= Gain(d, rel, n) <= Ideal(d, m)
    ensures Gain(d, rel, n) == Ideal(d, m) <==> Count(rel, n) == m && Leading(rel, m)
  {
    Rearrangement(d, rel, n);
    IdealGrows(d, Count(rel, n), m);
  }

  /** nDCG of a binary list, as the ranking code cuts it, is between 0 and 1, and 1 exactly for a perfect front. */
  lemma NdcgBounds(d: Discount, ranked: seq<string>, relevant: set<string>, k: nat)
    requires d.Valid() && NoDuplicates(ranked)
    ensures var binary := Relevances(ranked[..Min(k, |ranked|)], relevant);
            var m := Min(k, |relevant|);
            && 0.0 <= Ndcg(d, binary, |relevant|, k) <= 1.0
            && (m > 0 ==> (Ndcg(d, binary, |relevant|, k) == 1.0 <==> Leading(binary, m)))
            && (m == 0 ==> Ndcg(d, binary, |relevant|, k) == 0.0)
  {
    var front := ranked[..Min(k, |ranked|)];
    var binary, m := Relevances(front, relevant), Min(k, |relevant|);
    CountIsHits(front, relevant, |front|);
    SubsetCardinality(Seen(front, |front|) * relevant, relevant);
    GainWithinIdeal(d, binary, |front|, m);
    IdealIsAllRelevant(d, |relevant|, m);
    IdealGrows(d, 0, m);
    if m > 0 {
      Quotient(Dcg(d, binary, k), Ideal(d, m));
      if Leading(binary, m) { LeadingCount(binary, m, |front|); }
    }
  }

  /** In between it is the gain of the relevant documents ranked, as a share of the best possible. */
  lemma NdcgValue(d: Discount, ranked: seq<string>, relevant: set<string>, k: nat)
    requires d.Valid() && k > 0 && relevant != {}
    ensures var binary, m := Relevances(ranked[..Min(k, |ranked|)], relevant), Min(k, |relevant|);
            Ideal(d, m) > 0.0 && Ndcg(d, binary, |relevant|, k) == Gain(d, binary, |binary|) / Ideal(d, m)
  {
    var m := Min(k, |relevant|);
    IdealIsAllRelevant(d, |relevant|, m);
    IdealGrows(d, 0, m);
  }

  // ----- Recall -----

  function RecallAt(ranked: seq<string>, relevant: set<string>, k: nat): real {
    if relevant == {} then 0.0
    else |Seen(ranked, Min(k, |ranked|)) * relevant| as real / |relevant| as real
  }

  /** Recall lies in [0, 1] and never falls as more of the ranking is taken. */
  lemma RecallMonotone(ranked: seq<string>, relevant: set<string>, k: nat, k': nat)
    requires k <= k'
    ensures 0.0 <= RecallAt(ranked, relevant, k) <= RecallAt(ranked, relevant, k') <= 1.0
  {
    if relevant != {} {
      var a, b := Seen(ranked, Min(k, |ranked|)) * relevant, Seen(ranked, Min(k', |ranked|)) * relevant;
      assert a <= b;
      SubsetCardinality(a, b);
      SubsetCardinality(b, relevant);
      Fractions(|a|, |b|, |relevant|);
    }
  }

  /** Recall is the share of the relevant documents that the cut ranking holds. */
  lemma RecallValue(ranked: seq<string>, relevant: set<string>, k: nat)
    requires relevant != {}
    ensures RecallAt(ranked, relevant, k)
            == |set x | x in ranked[..Min(k, |ranked|)] && x in relevant| as real / |relevant| as real
  {
    assert Seen(ranked, Min(k, |ranked|)) * relevant == set x | x in ranked[..Min(k, |ranked|)] && x in relevant;
  }

  lemma Fractions(a: nat, b: nat, n: nat)
    requires a <= b <= n && n > 0
    ensures 0.0 <= a as real / n as real <= b as real / n as real <= 1.0
  {
    var t := n as real;
    assert (a as real / t) * t == a as real && (b as real / t) * t == b as real;
  }

  /** One query's metrics, as the benchmark fills them. */
  method QualityMetrics(d: Discount, ranked: seq<string>, relevant: set<string>, recallKs: seq<nat>, ndcgK: nat)
    returns (recall: map<nat, real>, ndcg: real)
    requires d.Valid() && NoDuplicates(ranked)
    ensures recall.Keys == set k | k in recallKs
    ensures forall k | k in recallKs :: recall[k] == RecallAt(ranked, relevant, k)
    ensures ndcg == Ndcg(d, Relevances(ranked[..Min(ndcgK, |ranked|)], relevant), |relevant|, ndcgK)
    ensures 0.0 <= ndcg <= 1.0
  {
    recall := map[];
    for i := 0 to |recallKs|
      invariant recall.Keys == set k | k in recallKs[..i]
      invariant forall k | k in recallKs[..i] :: recall[k] == RecallAt(ranked, relevant, k)
    {
      assert recallKs[..i + 1] == recallKs[..i] + [recallKs[i]];
      recall := recall[recallKs[i] := RecallAt(ranked, relevant, recallKs[i])];
    }
    assert recallKs[..|recallKs|] == recallKs;
    NdcgBounds(d, ranked, relevant, ndcgK);
    ndcg := Ndcg(d, Relevances(ranked[..Min(ndcgK, |ranked|)], relevant), |relevant|, ndcgK);
  }
}
