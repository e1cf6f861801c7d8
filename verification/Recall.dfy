/** The masked brute-force truth sets of the memory benchmark and recall against them. */
module Recall {
  import opened Prelude
  import opened TopK

  // ----- Masked truth -----

  predicate Eligible(allowed: Option<seq<bool>>, i: nat) {
    allowed.None? || (i < |allowed.value| && allowed.value[i])
  }

  function EligibleRows(allowed: Option<seq<bool>>, n: nat): set<nat> {
    set i: nat | i < n && Eligible(allowed, i)
  }

  /** `allowed.sum()`, or the number of ids without a mask. */
  method CountEligible(allowed: Option<seq<bool>>, n: nat) returns (count: nat)
    requires allowed.Some? ==> |allowed.value| == n
    ensures count == |EligibleRows(allowed, n)| <= n
  {
    count := 0;
    assert EligibleRows(allowed, 0) == {};
    for i := 0 to n
      invariant count == |EligibleRows(allowed, i)| <= i
    {
      if Eligible(allowed, i) {
        assert EligibleRows(allowed, i + 1) == EligibleRows(allowed, i) + {i};
        count := count + 1;
      } else {
        assert EligibleRows(allowed, i + 1) == EligibleRows(allowed, i);
      }
    }
  }

  /** Disallowed rows score minus infinity. */
  function MaskedScores(sims: seq<real>, allowed: Option<seq<bool>>): (r: seq<Score>)
    ensures |r| == |sims|
  {
    seq(|sims|, i requires 0 <= i < |sims| => if Eligible(allowed, i) then Fin(sims[i]) else NegInf)
  }

  /** A set of row numbers no omitted row beats. */
  ghost predicate BestRows(a: seq<Score>, rows: set<nat>) {
    && (forall i | i in rows :: i < |a|)
    && forall i, j: nat | i in rows && j < |a| && j !in rows :: Le(a[j], a[i])
  }

  function RowHits(a: seq<Score>): (r: seq<Hit>)
    ensures |r| == |a|
  {
    seq(|a|, i requires 0 <= i < |a| => Hit(a[i], i))
  }

  function SetOf(s: seq<nat>): set<nat> {
    set x | x in s
  }

  /** The first `k` of the partition are `k` different rows none of the others beats. */
  lemma SelectionIsBest(np: Arrays, a: seq<Score>, k: nat)
    requires np.Correct() && 0 < k <= |a|
    ensures |np.argpartition(Negated(a), k - 1)| == |a|
    ensures BestRows(a, SetOf(FirstLargest(np, a, k))) && |SetOf(FirstLargest(np, a, k))| == k
  {
    var hits := RowHits(a);
    assert Scores(hits) == a;
    FirstLargestTop(np, hits, k);
    var sel := FirstLargest(np, a, k);
    var out := Permuted(hits, sel);
    SelectedDistinct(a, sel);
    forall i, j: nat | i in SetOf(sel) && j < |a| && j !in SetOf(sel) ensures Le(a[j], a[i]) {
      var m :| 0 <= m < |sel| && sel[m] == i;
      assert Ids(out) == sel;
      OmittedRow(hits, out, j, m);
    }
  }

  lemma SelectedDistinct(a: seq<Score>, sel: seq<nat>)
    requires Within(sel, |a|) && multiset(Permuted(RowHits(a), sel)) <= multiset(RowHits(a))
    ensures |SetOf(sel)| == |sel|
  {
    var hits, out := RowHits(a), Permuted(RowHits(a), sel);
    DistinctIffMultiset(hits);
    forall x | x in out ensures multiset(out)[x] == 1 {
      assert x in multiset(out) && x in multiset(hits);
      assert multiset(out)[x] <= multiset(hits)[x];
    }
    DistinctIffMultiset(out);
    forall i, j | 0 <= i < j < |sel| ensures sel[i] != sel[j] { assert out[i] != out[j]; }
    DistinctNats(sel);
  }

  lemma {:induction false} DistinctNats(s: seq<nat>)
    requires NoDuplicates(s)
    ensures |SetOf(s)| == |s|
  {
    if s != [] {
      var n := |s| - 1;
      DistinctNats(s[..n]);
      assert SetOf(s) == SetOf(s[..n]) + {s[n]};
    }
  }

  /** Enough eligible rows keep every masked one out of a best set. */
  lemma OnlyEligible(sims: seq<real>, allowed: Option<seq<bool>>, rows: set<nat>)
    requires BestRows(MaskedScores(sims, allowed), rows)
    requires |rows| <= |EligibleRows(allowed, |sims|)|
    ensures rows <= EligibleRows(allowed, |sims|)
  {
    var a, e := MaskedScores(sims, allowed), EligibleRows(allowed, |sims|);
    if e <= rows {
      SubsetCardinality(e, rows);
    } else {
      var j :| j in e && j !in rows;
      forall i | i in rows ensures i in e { assert Le(a[j], a[i]); }
    }
  }

  /** What the truth set of one query must be, as row numbers. */
  ghost predicate MaskedTop(sims: seq<real>, allowed: Option<seq<bool>>, k: nat, rows: set<nat>) {
    && rows <= EligibleRows(allowed, |sims|)
    && |rows| == Min(k, |EligibleRows(allowed, |sims|)|)
    && forall i, j | i in rows && j in EligibleRows(allowed, |sims|) && j !in rows :: sims[j] <= sims[i]
  }

  function FiniteRows(a: seq<Score>, rows: set<nat>): set<nat> {
    set i | i in rows && i < |a| && a[i].Fin?
  }

  /** The rows kept for one query: the partition's front, or all rows, without the masked ones. */
  method TruthRows(np: Arrays, sims: seq<real>, k: nat, allowed: Option<seq<bool>>) returns (rows: set<nat>)
    requires np.Correct()
    requires allowed.Some? ==> |allowed.value| == |sims|
    ensures MaskedTop(sims, allowed, k, rows)
  {
    var a, n := MaskedScores(sims, allowed), |sims|;
    var eligible := CountEligible(allowed, n);
    var kk := Min(k, Max(1, eligible));
    if kk >= n {
      rows := FiniteRows(a, SetOf(Range(n)));
      forall i: nat | i < n ensures i in Range(n) { assert Range(n)[i] == i; }
      assert forall i | i in rows :: a[i].Fin?;
      assert rows == EligibleRows(allowed, n);
    } else if kk == 0 {
      rows := {};
    } else {
      SelectionIsBest(np, a, kk);
      var top := SetOf(FirstLargest(np, a, kk));
      rows := FiniteRows(a, top);
      if eligible == 0 {
        assert rows == {};
      } else {
        OnlyEligible(sims, allowed, top);
        assert rows == top;
      }
    }
  }

  function Named(ids: seq<string>, rows: set<nat>): set<string>
    requires forall i | i in rows :: i < |ids|
  {
    set i | i in rows :: ids[i]
  }

  lemma {:induction false} NamedCardinality(ids: seq<string>, rows: set<nat>)
    requires NoDuplicates(ids) && forall i | i in rows :: i < |ids|
    ensures |Named(ids, rows)| == |rows|
  {
    if rows != {} {
      var i :| i in rows;
      NamedCardinality(ids, rows - {i});
      assert ids[i] !in Named(ids, rows - {i});
      assert Named(ids, rows) == Named(ids, rows - {i}) + {ids[i]};
    }
  }

  /** The truth set of every query. */
  method ExactTruth(np: Arrays, ids: seq<string>, sims: seq<seq<real>>, k: nat, allowed: Option<seq<bool>>)
    returns (truth: seq<set<string>>, ghost rows: seq<set<nat>>)
    requires np.Correct()
    requires forall q | 0 <= q < |sims| :: |sims[q]| == |ids|
    requires allowed.Some? ==> |allowed.value| == |ids|
    ensures |truth| == |rows| == |sims|
    ensures forall q | 0 <= q < |sims| :: MaskedTop(sims[q], allowed, k, rows[q]) && truth[q] == Named(ids, rows[q])
    ensures NoDuplicates(ids) ==> forall q | 0 <= q < |sims| :: |truth[q]| == Min(k, |EligibleRows(allowed, |ids|)|)
  {
    truth, rows := [], [];
    for q := 0 to |sims|
      invariant |truth| == |rows| == q
      invariant forall p | 0 <= p < q :: MaskedTop(sims[p], allowed, k, rows[p]) && truth[p] == Named(ids, rows[p])
      invariant NoDuplicates(ids) ==> forall p | 0 <= p < q :: |truth[p]| == Min(k, |EligibleRows(allowed, |ids|)|)
    {
      var top := TruthRows(np, sims[q], k, allowed);
      if NoDuplicates(ids) { NamedCardinality(ids, top); }
      truth, rows := truth + [Named(ids, top)], rows + [top];
    }
  }

  // ----- Recall -----

  function Returned(got: seq<string>, k: nat): (s: set<string>)
    ensures |s| <= k
  {
    if k == 0 || got == [] then {} else {got[0]} + Returned(got[1..], k - 1)
  }

  /** The ids among the first `k`. */
  lemma {:induction false} ReturnedExact(got: seq<string>, k: nat, id: string)
    ensures id in Returned(got, k) <==> id in got[..Min(k, |got|)]
  {
    if k > 0 && got != [] {
      ReturnedExact(got[1..], k - 1, id);
      var n := Min(k, |got|);
      assert got[..n] == [got[0]] + got[1..][..n - 1];
    }
  }

  function Hits(got: seq<string>, want: set<string>, k: nat): (h: nat)
    ensures h <= Min(k, |want|)
  {
    var found := Returned(got, k) * want;
    SubsetCardinality(found, want);
    SubsetCardinality(found, Returned(got, k));
    |found|
  }

  function QueryRecall(got: seq<string>, want: set<string>, k: nat): (r: real)
    requires k > 0 && want != {}
    ensures 0.0 <= r <= 1.0
    ensures r == 1.0 <==> Hits(got, want, k) == Min(k, |want|)
  {
    var total := Min(k, |want|);
    Quotient(Hits(got, want, k) as real, total as real);
    Hits(got, want, k) as real / total as real
  }

  /** In between it is how many of the findable ids are among the first `k`. */
  lemma RecallValue(got: seq<string>, want: set<string>, k: nat)
    requires k > 0 && want != {}
    ensures QueryRecall(got, want, k)
            == |set id | id in want && id in got[..Min(k, |got|)]| as real / Min(k, |want|) as real
  {
    var found := set id | id in want && id in got[..Min(k, |got|)];
    forall id ensures id in found <==> id in Returned(got, k) * want { ReturnedExact(got, k, id); }
    assert found == Returned(got, k) * want;
  }

  /** Every counted query among the first `n` found as many truth ids as it could. */
  ghost predicate Perfect(returned: seq<seq<string>>, truth: seq<set<string>>, k: nat, n: nat) {
    && n <= |returned| && n <= |truth|
    && forall q | 0 <= q < n && truth[q] != {} :: Hits(returned[q], truth[q], k) == Min(k, |truth[q]|)
  }

  ghost predicate AnyCounted(truth: seq<set<string>>, n: nat) {
    n <= |truth| && exists q | 0 <= q < n :: truth[q] != {}
  }

  /** The queries with something to find among the first `n`, and their recalls added up. */
  ghost function Counted(truth: seq<set<string>>, n: nat): (c: nat)
    requires n <= |truth|
    ensures c <= n
  {
    if n == 0 then 0 else Counted(truth, n - 1) + if truth[n - 1] != {} then 1 else 0
  }

  ghost function RecallSum(returned: seq<seq<string>>, truth: seq<set<string>>, k: nat, n: nat): real
    requires n <= |truth| && n <= |returned| && k > 0
  {
    if n == 0 then 0.0
    else
      RecallSum(returned, truth, k, n - 1)
      + if truth[n - 1] != {} then QueryRecall(returned[n - 1], truth[n - 1], k) else 0.0
  }

  lemma CountedStep(returned: seq<seq<string>>, truth: seq<set<string>>, k: nat, q: nat)
    requires q < |returned| && q < |truth|
    ensures AnyCounted(truth, q + 1) <==> AnyCounted(truth, q) || truth[q] != {}
    ensures Perfect(returned, truth, k, q + 1) <==>
            Perfect(returned, truth, k, q) && (truth[q] != {} ==> Hits(returned[q], truth[q], k) == Min(k, |truth[q]|))
  {
  }

  // ----- Rounding -----

  /** The integer nearest to `x`, the even one of two. */
  function Nearest(x: real): int {
    var low := x.Floor;
    var rest := x - low as real;
    if rest < 0.5 || (rest == 0.5 && low % 2 == 0) then low else low + 1
  }

  /** `round(x, 4)`, on exact numbers. */
  function Round4(x: real): real {
    Nearest(x * 10000.0) as real / 10000.0
  }

  /** Rounding moves a recall by at most half a unit of the last place, and reports 1 from 0.99995 on. */
  lemma Round4Exact(x: real)
    requires 0.0 <= x <= 1.0
    ensures 0.0 <= Round4(x) <= 1.0
    ensures -0.00005 <= Round4(x) - x <= 0.00005
    ensures Round4(x) == 1.0 <==> x >= 0.99995
  {
    var y := x * 10000.0;
    var n := Nearest(y);
    assert 0 <= n <= 10000;
  }

  /** Mean recall over the queries with something to find. */
  method MeanRecall(returned: seq<seq<string>>, truth: seq<set<string>>, k: nat) returns (r: Result<real, string>)
    ensures r.Err? <==> truth != [] && (|returned| != |truth| || (k == 0 && AnyCounted(truth, |truth|)))
    ensures r.Ok? ==> 0.0 <= r.value <= 1.0
    ensures r.Ok? && !AnyCounted(truth, |truth|) ==> r.value == 0.0
    ensures r.Ok? && AnyCounted(truth, |truth|) ==> (r.value == 1.0 <==> Perfect(returned, truth, k, |truth|))
    ensures r.Ok? && AnyCounted(truth, |truth|) ==>
              Counted(truth, |truth|) > 0
              && r.value == RecallSum(returned, truth, k, |truth|) / Counted(truth, |truth|) as real
  {
    if truth == [] { return Ok(0.0); }
    var sum, count, n := 0.0, 0, Min(|returned|, |truth|);
    for q := 0 to n
      invariant 0.0 <= sum <= count as real
      invariant k == 0 ==> count == 0
      invariant count > 0 <==> AnyCounted(truth, q)
      invariant count == Counted(truth, q) && (k > 0 ==> sum == RecallSum(returned, truth, k, q))
      invariant Perfect(returned, truth, k, q) <==> sum == count as real
    {
      CountedStep(returned, truth, k, q);
      if truth[q] != {} {
        if k == 0 {
          assert AnyCounted(truth, |truth|);
          return Err("division by zero");
        }
        sum := sum + QueryRecall(returned[q], truth[q], k);
        count := count + 1;
      }
    }
    if |returned| != |truth| { return Err("zip() arguments have different lengths"); }
    if count == 0 { return Ok(0.0); }
    Quotient(sum, count as real);
    r := Ok(sum / count as real);
  }

  /**
   The reported recall: within half a unit of the fourth decimal of the mean, and 1.0 if and only if
   the mean is at least 0.99995, so always when every counted query found all it could.
   */
  method RecallAtK(returned: seq<seq<string>>, truth: seq<set<string>>, k: nat)
    returns (r: Result<real, string>, ghost mean: real)
    ensures r.Err? <==> truth != [] && (|returned| != |truth| || (k == 0 && AnyCounted(truth, |truth|)))
    ensures r.Ok? ==> 0.0 <= r.value <= 1.0 && -0.00005 <= r.value - mean <= 0.00005
    ensures r.Ok? ==> (r.value == 1.0 <==> mean >= 0.99995)
    ensures r.Ok? && !AnyCounted(truth, |truth|) ==> r.value == 0.0
    ensures r.Ok? && AnyCounted(truth, |truth|) ==> (mean == 1.0 <==> Perfect(returned, truth, k, |truth|))
  {
    var m := MeanRecall(returned, truth, k);
    if m.Err? { return m, 0.0; }
    mean := m.value;
    Round4Exact(mean);
    r := Ok(Round4(m.value));
  }
}
