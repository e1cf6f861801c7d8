/**
 Streaming exact top-k.  Several loops select the k best rows of a score vector block by
 block, keeping a buffer padded with sentinels; all of them must equal sorting everything.
 Scores are finite reals here, with the infinities the buffers start from.
 */
module TopK {
  import opened Prelude

  datatype Score = NegInf | Fin(value: real) | PosInf

  predicate Le(a: Score, b: Score) {
    a.NegInf? || b.PosInf? || (a.Fin? && b.Fin? && a.value <= b.value)
  }

  function Neg(s: Score): Score {
    match s
    case NegInf => PosInf
    case Fin(v) => Fin(-v)
    case PosInf => NegInf
  }

  function Negated(a: seq<Score>): (r: seq<Score>)
    ensures |r| == |a|
  {
    seq(|a|, i requires 0 <= i < |a| => Neg(a[i]))
  }

  datatype Hit = Hit(score: Score, index: int)

  function Scores(hits: seq<Hit>): (r: seq<Score>)
    ensures |r| == |hits|
  {
    seq(|hits|, i requires 0 <= i < |hits| => hits[i].score)
  }

  // ----- Array primitives, known only by what they promise -----

  function Range(n: nat): (r: seq<nat>)
    ensures |r| == n
  {
    seq(n, i => i)
  }

  ghost predicate Permutes(p: seq<nat>, n: nat) {
    multiset(p) == multiset(Range(n))
  }

  /** What argpartition promises: position `kth` separates the smaller from the larger. */
  ghost predicate Partitions(a: seq<Score>, kth: nat, p: seq<nat>) {
    && kth < |a| == |p| && Permutes(p, |a|) && Within(p, |a|)
    && forall i | 0 <= i < |p| :: (i <= kth ==> Le(a[p[i]], a[p[kth]])) && (i >= kth ==> Le(a[p[kth]], a[p[i]]))
  }

  ghost predicate Sorts(a: seq<Score>, p: seq<nat>) {
    && |a| == |p| && Permutes(p, |a|) && Within(p, |a|)
    && forall i, j | 0 <= i < j < |p| :: Le(a[p[i]], a[p[j]])
  }

  ghost predicate Within(p: seq<nat>, n: nat) {
    forall i | 0 <= i < |p| :: p[i] < n
  }

  datatype Arrays = Arrays(argpartition: (seq<Score>, nat) -> seq<nat>, argsort: seq<Score> -> seq<nat>) {
    ghost predicate Correct() {
      && (forall a: seq<Score>, kth: nat | kth < |a| :: Partitions(a, kth, argpartition(a, kth)))
      && (forall a: seq<Score> :: Sorts(a, argsort(a)))
    }
  }

  function Permuted(hits: seq<Hit>, p: seq<nat>): (r: seq<Hit>)
    requires Within(p, |hits|)
    ensures |r| == |p|
  {
    seq(|p|, i requires 0 <= i < |p| => hits[p[i]])
  }

  lemma RemoveAt<T>(s: seq<T>, i: nat)
    requires i < |s|
    ensures multiset(s) == multiset(s[..i] + s[i + 1..]) + multiset{s[i]}
  {
    assert s == s[..i] + [s[i]] + s[i + 1..];
  }

  lemma DropLargest(p: seq<nat>, n: nat) returns (i: nat)
    requires Permutes(p, n + 1)
    ensures i < |p| && p[i] == n && Permutes(p[..i] + p[i + 1..], n)
  {
    assert Range(n + 1) == Range(n) + [n];
    assert n in multiset(p);
    i :| i < |p| && p[i] == n;
    RemoveAt(p, i);
    assert multiset(p[..i] + p[i + 1..]) == multiset(p) - multiset{n};
  }

  lemma {:induction false} PermutedMultiset(hits: seq<Hit>, p: seq<nat>)
    requires Permutes(p, |hits|) && Within(p, |hits|)
    ensures multiset(Permuted(hits, p)) == multiset(hits)
    decreases |hits|
  {
    if |hits| == 0 {
      assert |multiset(p)| == 0;
    } else {
      var n := |hits| - 1;
      var i := DropLargest(p, n);
      var q := p[..i] + p[i + 1..];
      RangeWithin(q, n);
      PermutedMultiset(hits[..n], q);
      var all := Permuted(hits, p);
      RemoveAt(all, i);
      assert Permuted(hits[..n], q) == all[..i] + all[i + 1..];
      assert hits == hits[..n] + [hits[n]];
    }
  }

  lemma RangeWithin(p: seq<nat>, n: nat)
    requires Permutes(p, n)
    ensures Within(p, n)
  {
    forall i | 0 <= i < |p| ensures p[i] < n {
      assert p[i] in multiset(Range(n));
      assert p[i] in Range(n);
    }
  }

  // ----- The best part of a collection -----

  /** `best` is part of `all`, and nothing left out beats anything in it. */
  ghost predicate Top(all: multiset<Hit>, best: multiset<Hit>) {
    && best <= all
    && forall x, y | x in best && y in all - best :: Le(y.score, x.score)
  }

  /** A part at least as large as the best one bounds the best one from below. */
  lemma Dominates(pool: multiset<Hit>, c: multiset<Hit>, part: multiset<Hit>, x: Hit, y: Hit)
    requires Top(pool, c) && part <= pool && |part| >= |c| && x in c
    requires forall z | z in part :: Le(y.score, z.score)
    ensures Le(y.score, x.score)
  {
    if z :| z in part && part[z] > c[z] {
      assert z in pool - c;
    } else {
      assert part <= c;
      assert |c - part| == |c| - |part|;
      assert part == c;
    }
  }

  /**
   Pruning each side first is harmless: the best `k` of what survived are the best `k` of
   everything, provided each side kept at least `k` or all it had.
   */
  lemma MergeTops(a0: multiset<Hit>, a: multiset<Hit>, b0: multiset<Hit>, b: multiset<Hit>, c: multiset<Hit>)
    requires Top(a0, a) && Top(b0, b) && Top(a + b, c)
    requires |a| >= |c| || a == a0
    requires |b| >= |c| || b == b0
    ensures Top(a0 + b0, c)
  {
    var all := a0 + b0;
    assert c <= all;
    forall x, y | x in c && y in all - c ensures Le(y.score, x.score) {
      if y in (a + b) - c {
      } else if y in a0 - a {
        Dominates(a + b, c, a, x, y);
      } else {
        assert y in b0 - b;
        Dominates(a + b, c, b, x, y);
      }
    }
  }

  // ----- Selection by argpartition -----

  /** `np.argpartition(-a, k - 1)[:k]` */
  function FirstLargest(np: Arrays, a: seq<Score>, k: nat): seq<nat>
    requires 0 < k <= |a| && |np.argpartition(Negated(a), k - 1)| == |a|
  {
    np.argpartition(Negated(a), k - 1)[..k]
  }

  /** `np.argpartition(a, len(a) - k)[-k:]` */
  function LastLargest(np: Arrays, a: seq<Score>, k: nat): seq<nat>
    requires 0 < k <= |a| && |np.argpartition(a, |a| - k)| == |a|
  {
    np.argpartition(a, |a| - k)[|a| - k..]
  }

  lemma SplitTop(all: multiset<Hit>, kept: seq<Hit>, dropped: seq<Hit>)
    requires multiset(kept) + multiset(dropped) == all
    requires forall i, j | 0 <= i < |kept| && 0 <= j < |dropped| :: Le(dropped[j].score, kept[i].score)
    ensures Top(all, multiset(kept))
  {
    forall x, y | x in multiset(kept) && y in all - multiset(kept) ensures Le(y.score, x.score) {
      assert all - multiset(kept) == multiset(dropped);
      assert x in kept && y in dropped;
    }
  }

  lemma FrontOrder(hits: seq<Hit>, p: seq<nat>, k: nat, i: nat, j: nat)
    requires 0 < k <= |hits| && Partitions(Negated(Scores(hits)), k - 1, p) && i < k <= j < |p|
    ensures Le(hits[p[j]].score, hits[p[i]].score)
  {
    var a := Negated(Scores(hits));
    assert Le(a[p[i]], a[p[k - 1]]) && Le(a[p[k - 1]], a[p[j]]);
    assert a[p[i]] == Neg(hits[p[i]].score) && a[p[j]] == Neg(hits[p[j]].score);
  }

  lemma FrontTop(hits: seq<Hit>, p: seq<nat>, k: nat)
    requires 0 < k <= |hits| && Partitions(Negated(Scores(hits)), k - 1, p)
    ensures Within(p[..k], |hits|) && Top(multiset(hits), multiset(Permuted(hits, p[..k])))
  {
    PermutedMultiset(hits, p);
    var all := Permuted(hits, p);
    var kept, dropped := all[..k], all[k..];
    assert all == kept + dropped && Permuted(hits, p[..k]) == kept;
    forall i, j | 0 <= i < |kept| && 0 <= j < |dropped| ensures Le(dropped[j].score, kept[i].score) {
      FrontOrder(hits, p, k, i, k + j);
    }
    SplitTop(multiset(hits), kept, dropped);
  }

  lemma BackOrder(hits: seq<Hit>, p: seq<nat>, m: nat, i: nat, j: nat)
    requires m < |hits| && Partitions(Scores(hits), m, p) && j < m <= i < |p|
    ensures Le(hits[p[j]].score, hits[p[i]].score)
  {
    var a := Scores(hits);
    assert Le(a[p[j]], a[p[m]]) && Le(a[p[m]], a[p[i]]);
  }

  lemma BackTop(hits: seq<Hit>, p: seq<nat>, m: nat)
    requires m < |hits| && Partitions(Scores(hits), m, p)
    ensures Within(p[m..], |hits|) && Top(multiset(hits), multiset(Permuted(hits, p[m..])))
  {
    PermutedMultiset(hits, p);
    var all := Permuted(hits, p);
    var kept, dropped := all[m..], all[..m];
    assert all == dropped + kept && Permuted(hits, p[m..]) == kept;
    forall i, j | 0 <= i < |kept| && 0 <= j < |dropped| ensures Le(dropped[j].score, kept[i].score) {
      BackOrder(hits, p, m, m + i, j);
    }
    SplitTop(multiset(hits), kept, dropped);
  }

  lemma FirstLargestTop(np: Arrays, hits: seq<Hit>, k: nat)
    requires np.Correct() && 0 < k <= |hits|
    ensures |np.argpartition(Negated(Scores(hits)), k - 1)| == |hits|
    ensures var sel := FirstLargest(np, Scores(hits), k);
            |sel| == k && Within(sel, |hits|) && Top(multiset(hits), multiset(Permuted(hits, sel)))
  {
    var p := np.argpartition(Negated(Scores(hits)), k - 1);
    assert Partitions(Negated(Scores(hits)), k - 1, p);
    FrontTop(hits, p, k);
  }

  lemma LastLargestTop(np: Arrays, hits: seq<Hit>, k: nat)
    requires np.Correct() && 0 < k <= |hits|
    ensures |np.argpartition(Scores(hits), |hits| - k)| == |hits|
    ensures var sel := LastLargest(np, Scores(hits), k);
            |sel| == k && Within(sel, |hits|) && Top(multiset(hits), multiset(Permuted(hits, sel)))
  {
    var p := np.argpartition(Scores(hits), |hits| - k);
    assert Partitions(Scores(hits), |hits| - k, p);
    BackTop(hits, p, |hits| - k);
  }

  // ----- Rows and sentinels -----

  /** Rows `lo..hi` of a score vector, numbered from `base`. */
  function Rows(scores: seq<real>, lo: nat, hi: nat, base: int): (r: seq<Hit>)
    requires lo <= hi <= |scores|
    ensures |r| == hi - lo
  {
    seq(hi - lo, i requires 0 <= i < hi - lo => Hit(Fin(scores[lo + i]), lo + i + base))
  }

  lemma RowsSplit(scores: seq<real>, mid: nat, hi: nat, base: int)
    requires mid <= hi <= |scores|
    ensures Rows(scores, 0, hi, base) == Rows(scores, 0, mid, base) + Rows(scores, mid, hi, base)
  {
  }

  function Padding(k: nat, id: int): (r: seq<Hit>)
    ensures |r| == k
  {
    seq(k, _ => Hit(NegInf, id))
  }

  ghost predicate AllFinite(m: multiset<Hit>) {
    forall x | x in m :: x.score.Fin?
  }

  lemma PaddingCount(k: nat, id: int)
    ensures multiset(Padding(k, id))[Hit(NegInf, id)] == k
    ensures forall x | x != Hit(NegInf, id) :: multiset(Padding(k, id))[x] == 0
  {
    if k > 0 {
      PaddingCount(k - 1, id);
      assert Padding(k, id) == Padding(k - 1, id) + [Hit(NegInf, id)];
    }
  }

  /**
   A buffer of `k` entries holds the best `min(k, p)` of the `p` rows seen and, besides them,
   only sentinels; none is left once `p` reaches `k`.
   */
  lemma BufferHoldsBest(k: nat, id: int, rows: multiset<Hit>, c: multiset<Hit>)
    requires Top(multiset(Padding(k, id)) + rows, c) && |c| == k && AllFinite(rows)
    ensures var genuine := c[Hit(NegInf, id) := 0];
            && Top(rows, genuine)
            && |genuine| == Min(k, |rows|)
            && (forall x | x in c - genuine :: x == Hit(NegInf, id))
            && (k <= |rows| ==> c == genuine)
  {
    var pad := Hit(NegInf, id);
    var all, genuine := multiset(Padding(k, id)) + rows, c[Hit(NegInf, id) := 0];
    PaddingCount(k, id);
    PadCard(c, pad);
    assert genuine <= rows;
    assert forall y | y in rows - genuine :: y in all - c;
    assert |rows - genuine| == |rows| - |genuine|;
    if pad in c {
      assert forall y :: y !in rows - genuine;
      assert rows - genuine == multiset{};
    } else {
      assert c == genuine;
    }
  }

  lemma PadCard(c: multiset<Hit>, pad: Hit)
    ensures |c| == |c[pad := 0]| + c[pad]
  {
    assert c == c[pad := 0][pad := c[pad]];
  }

  // ----- The answer every loop must give -----

  /**
   `k` distinct rows (numbered from `base`) in non-increasing score order, none of them beaten
   by an omitted row.
   */
  ghost predicate ExactTop(scores: seq<real>, base: int, k: nat, ids: seq<int>) {
    && |ids| == k && NoDuplicates(ids)
    && InRange(scores, base, ids)
    && NonIncreasing(scores, base, ids)
    && NoneOmitted(scores, base, ids)
  }

  ghost predicate InRange(scores: seq<real>, base: int, ids: seq<int>) {
    forall i | 0 <= i < |ids| :: 0 <= ids[i] - base < |scores|
  }

  ghost predicate NonIncreasing(scores: seq<real>, base: int, ids: seq<int>)
    requires InRange(scores, base, ids)
  {
    forall i, j | 0 <= i < j < |ids| :: scores[ids[j] - base] <= scores[ids[i] - base]
  }

  ghost predicate NoneOmitted(scores: seq<real>, base: int, ids: seq<int>) {
    forall r | 0 <= r < |scores| :: r + base in ids || BeatsNone(scores, base, ids, r)
  }

  ghost predicate BeatsNone(scores: seq<real>, base: int, ids: seq<int>, row: nat)
    requires row < |scores|
  {
    forall i | 0 <= i < |ids| && 0 <= ids[i] - base < |scores| :: scores[row] <= scores[ids[i] - base]
  }

  function Elements(s: seq<int>): set<int> {
    set x | x in s
  }

  lemma {:induction false} DistinctElements(s: seq<int>)
    requires NoDuplicates(s)
    ensures |Elements(s)| == |s|
  {
    if s != [] {
      var n := |s| - 1;
      DistinctElements(s[..n]);
      assert Elements(s) == Elements(s[..n]) + {s[n]};
    }
  }

  /** Longer distinct lists have an element the shorter ones miss. */
  lemma FindOutside(longer: seq<int>, shorter: seq<int>) returns (j: nat)
    requires NoDuplicates(longer) && NoDuplicates(shorter) && |longer| > |shorter|
    ensures j < |longer| && longer[j] !in shorter
  {
    DistinctElements(longer);
    DistinctElements(shorter);
    if forall i | 0 <= i < |longer| :: longer[i] in shorter {
      assert Elements(longer) <= Elements(shorter);
      SubsetCardinality(Elements(longer), Elements(shorter));
    }
    j :| j < |longer| && longer[j] !in shorter;
  }

  /** The score list is determined: it depends neither on the block size nor on how ties were cut. */
  lemma ScoreListUnique(scores: seq<real>, base: int, k: nat, ids: seq<int>, ids': seq<int>, i: nat)
    requires ExactTop(scores, base, k, ids) && ExactTop(scores, base, k, ids') && i < k
    ensures scores[ids[i] - base] == scores[ids'[i] - base]
  {
    NotBelow(scores, base, k, ids, ids', i);
    NotBelow(scores, base, k, ids', ids, i);
  }

  lemma NotBelow(scores: seq<real>, base: int, k: nat, ids: seq<int>, ids': seq<int>, i: nat)
    requires ExactTop(scores, base, k, ids) && ExactTop(scores, base, k, ids') && i < k
    ensures scores[ids[i] - base] <= scores[ids'[i] - base]
  {
    var j := FindOutside(ids[..i + 1], ids'[..i]);
    var row := ids[j] - base;
    assert scores[ids[i] - base] <= scores[row];
    if ids[j] in ids' {
      assert ids'[..i] + ids'[i..] == ids';
      assert ids[j] in ids'[i..];
    } else {
      assert BeatsNone(scores, base, ids', row);
    }
  }

  function Ids(hits: seq<Hit>): (r: seq<int>)
    ensures |r| == |hits|
  {
    seq(|hits|, i requires 0 <= i < |hits| => hits[i].index)
  }

  lemma PartOfRows(scores: seq<real>, base: int, out: seq<Hit>)
    requires multiset(out) <= multiset(Rows(scores, 0, |scores|, base))
    ensures NoDuplicates(Ids(out))
    ensures Genuine(scores, base, out)
  {
    var rows := Rows(scores, 0, |scores|, base);
    DistinctIffMultiset(rows);
    forall x | x in out ensures multiset(out)[x] == 1 && x in rows {
      assert x in multiset(out) && x in multiset(rows);
      assert multiset(out)[x] <= multiset(rows)[x];
    }
    DistinctIffMultiset(out);
    forall i | 0 <= i < |out|
      ensures 0 <= out[i].index - base < |scores| && out[i].score == Fin(scores[out[i].index - base])
    {
      assert out[i] in out;
    }
  }

  /** Sorting a best part of all rows gives the answer. */
  lemma SortedBest(np: Arrays, scores: seq<real>, base: int, best: seq<Hit>)
    requires np.Correct()
    requires Top(multiset(Rows(scores, 0, |scores|, base)), multiset(best))
    ensures Sorts(Negated(Scores(best)), np.argsort(Negated(Scores(best))))
    ensures var out := Permuted(best, np.argsort(Negated(Scores(best))));
            ExactTop(scores, base, |best|, Ids(out)) && Genuine(scores, base, out)
  {
    var a := Negated(Scores(best));
    var p := np.argsort(a);
    assert Sorts(a, p);
    PermutedMultiset(best, p);
    SortedScores(best, p);
    DescendingBest(scores, base, Permuted(best, p));
  }

  ghost predicate Descending(out: seq<Hit>) {
    forall i, j | 0 <= i < j < |out| :: Le(out[j].score, out[i].score)
  }

  /** Each hit is the row it names, with that row's score. */
  ghost predicate Genuine(scores: seq<real>, base: int, out: seq<Hit>) {
    forall i | 0 <= i < |out| :: 0 <= out[i].index - base < |scores| && out[i].score == Fin(scores[out[i].index - base])
  }

  lemma DescendingIds(scores: seq<real>, base: int, out: seq<Hit>)
    requires Genuine(scores, base, out) && Descending(out)
    ensures InRange(scores, base, Ids(out)) && NonIncreasing(scores, base, Ids(out))
  {
    var ids := Ids(out);
    assert forall i | 0 <= i < |ids| :: ids[i] == out[i].index;
  }

  lemma DescendingBest(scores: seq<real>, base: int, out: seq<Hit>)
    requires Top(multiset(Rows(scores, 0, |scores|, base)), multiset(out)) && Descending(out)
    ensures ExactTop(scores, base, |out|, Ids(out)) && Genuine(scores, base, out)
  {
    PartOfRows(scores, base, out);
    OmittedRows(scores, base, out);
    DescendingIds(scores, base, out);
  }

  lemma SortedScores(best: seq<Hit>, p: seq<nat>)
    requires Sorts(Negated(Scores(best)), p)
    ensures Descending(Permuted(best, p))
  {
    var a := Negated(Scores(best));
    forall i, j | 0 <= i < j < |p| ensures Le(Permuted(best, p)[j].score, Permuted(best, p)[i].score) {
      assert Le(a[p[i]], a[p[j]]);
    }
  }

  lemma OmittedRows(scores: seq<real>, base: int, out: seq<Hit>)
    requires Top(multiset(Rows(scores, 0, |scores|, base)), multiset(out))
    requires Genuine(scores, base, out)
    ensures NoneOmitted(scores, base, Ids(out))
  {
    var rows := Rows(scores, 0, |scores|, base);
    forall r | 0 <= r < |scores| && r + base !in Ids(out) ensures BeatsNone(scores, base, Ids(out), r) {
      forall i | 0 <= i < |out| ensures scores[r] <= scores[out[i].index - base] { OmittedRow(rows, out, r, i); }
    }
  }

  lemma OmittedRow(rows: seq<Hit>, out: seq<Hit>, r: nat, i: nat)
    requires Top(multiset(rows), multiset(out))
    requires r < |rows| && i < |out| && rows[r].index !in Ids(out)
    ensures Le(rows[r].score, out[i].score)
  {
    forall j | 0 <= j < |out| ensures out[j] != rows[r] { assert Ids(out)[j] == out[j].index; }
    assert rows[r] in multiset(rows) && rows[r] !in multiset(out);
    assert rows[r] in multiset(rows) - multiset(out);
    assert out[i] in multiset(out);
  }

  /** The buffer after the first `p` rows: the best of them and of the sentinels it started from. */
  ghost predicate Streamed(scores: seq<real>, base: int, id: int, p: nat, best: seq<Hit>) {
    p <= |scores| && Top(multiset(Padding(|best|, id)) + multiset(Rows(scores, 0, p, base)), multiset(best))
  }

  lemma StreamStart(scores: seq<real>, base: int, id: int, k: nat)
    ensures Streamed(scores, base, id, 0, Padding(k, id))
  {
    assert multiset(Rows(scores, 0, 0, base)) == multiset{};
  }

  // ----- Block-prune-then-merge -----

  const GT_K: nat := 100

  datatype Truth = Truth(scores: seq<Score>, ids: seq<int>)

  /** The scores of one query against all rows, streamed in blocks. */
  method ExactGroundTruth(np: Arrays, scores: seq<real>, blockRows: nat) returns (r: Result<Truth, string>)
    requires np.Correct()
    ensures r.Err? <==> blockRows < GT_K || |scores| < GT_K
    ensures r.Ok? ==> ExactTop(scores, 0, GT_K, r.value.ids)
    ensures r.Ok? ==>
              && |r.value.scores| == GT_K
              && forall i | 0 <= i < GT_K :: r.value.scores[i] == Fin(scores[r.value.ids[i]])
  {
    if blockRows < GT_K { return Err("block_rows is below the ground-truth depth"); }
    if |scores| < GT_K { return Err("too few rows"); }
    var best := StreamBlocks(np, scores, blockRows);
    var truth := SortBuffer(np, scores, 0, -1, best);
    r := Ok(truth);
  }

  method StreamBlocks(np: Arrays, scores: seq<real>, blockRows: nat) returns (best: seq<Hit>)
    requires np.Correct() && blockRows >= 1
    ensures |best| == GT_K && Streamed(scores, 0, -1, |scores|, best)
  {
    best := Padding(GT_K, -1);
    StreamStart(scores, 0, -1, GT_K);
    var start := 0;
    ghost var p := 0;
    while start < |scores|
      invariant p == Min(start, |scores|) && |best| == GT_K
      invariant Streamed(scores, 0, -1, p, best)
    {
      var stop := Min(start + blockRows, |scores|);
      best := PruneAndMerge(np, scores, start, stop, best);
      start, p := start + blockRows, stop;
    }
  }

  /** The final sort of a buffer that has seen every row. */
  method SortBuffer(np: Arrays, scores: seq<real>, base: int, id: int, best: seq<Hit>) returns (truth: Truth)
    requires np.Correct() && |best| <= |scores|
    requires Streamed(scores, base, id, |scores|, best)
    ensures ExactTop(scores, base, |best|, truth.ids)
    ensures |truth.scores| == |best|
            && forall i | 0 <= i < |best| :: truth.scores[i] == Fin(scores[truth.ids[i] - base])
  {
    SortedBuffer(np, scores, base, id, best);
    var out := Permuted(best, np.argsort(Negated(Scores(best))));
    truth := Truth(Scores(out), Ids(out));
  }

  lemma SortedBuffer(np: Arrays, scores: seq<real>, base: int, id: int, best: seq<Hit>)
    requires np.Correct() && |best| <= |scores| && Streamed(scores, base, id, |scores|, best)
    ensures Within(np.argsort(Negated(Scores(best))), |best|) && |np.argsort(Negated(Scores(best)))| == |best|
    ensures var out := Permuted(best, np.argsort(Negated(Scores(best))));
            ExactTop(scores, base, |best|, Ids(out)) && Genuine(scores, base, out)
  {
    BufferHoldsBest(|best|, id, multiset(Rows(scores, 0, |scores|, base)), multiset(best));
    SortedBest(np, scores, base, best);
  }

  /** One iteration: the best of the block, then the best of buffer and block together. */
  method PruneAndMerge(np: Arrays, scores: seq<real>, start: nat, stop: nat, best: seq<Hit>) returns (merged: seq<Hit>)
    requires np.Correct() && start < stop <= |scores| && |best| == GT_K
    requires Streamed(scores, 0, -1, start, best)
    ensures |merged| == GT_K
    ensures Streamed(scores, 0, -1, stop, merged)
  {
    var block := Rows(scores, start, stop, 0);
    var localK := Min(GT_K, stop - start);
    LastLargestTop(np, block, localK);
    var local := Permuted(block, LastLargest(np, Scores(block), localK));
    var candidates := best + local;
    FirstLargestTop(np, candidates, GT_K);
    merged := Permuted(candidates, FirstLargest(np, Scores(candidates), GT_K));
    PrunedAll(block, local);
    StreamStep(multiset(Padding(GT_K, -1)), scores, start, stop, 0, best, local, merged);
  }

  lemma PrunedAll(block: seq<Hit>, local: seq<Hit>)
    requires multiset(local) <= multiset(block)
    ensures |local| == |block| ==> multiset(local) == multiset(block)
  {
    assert |multiset(block) - multiset(local)| == |block| - |local|;
    if |local| == |block| { assert multiset(block) - multiset(local) == multiset{}; }
  }

  lemma StreamStep(pad: multiset<Hit>, scores: seq<real>, start: nat, stop: nat, base: int,
                   best: seq<Hit>, local: seq<Hit>, merged: seq<Hit>)
    requires start <= stop <= |scores|
    requires Top(pad + multiset(Rows(scores, 0, start, base)), multiset(best))
    requires Top(multiset(Rows(scores, start, stop, base)), multiset(local))
    requires Top(multiset(best + local), multiset(merged)) && |best| >= |merged|
    requires |local| >= |merged| || multiset(local) == multiset(Rows(scores, start, stop, base))
    ensures Top(pad + multiset(Rows(scores, 0, stop, base)), multiset(merged))
  {
    RowsSplit(scores, start, stop, base);
    var a0, b0 := pad + multiset(Rows(scores, 0, start, base)), multiset(Rows(scores, start, stop, base));
    MergeTops(a0, multiset(best), b0, multiset(local), multiset(merged));
    assert a0 + b0 == pad + multiset(Rows(scores, 0, stop, base));
  }

  // ----- Tiled merge without pruning -----

  /** Ids start at 1; a buffer as wide as the answer, merged with each whole tile. */
  method ExactTopkIds(np: Arrays, scores: seq<real>, k: nat, tile: nat) returns (ids: seq<int>)
    requires np.Correct() && tile >= 1
    ensures ExactTop(scores, 1, Min(k, |scores|), ids)
  {
    var best := StreamTiles(np, scores, Min(k, |scores|), tile);
    var truth := SortBuffer(np, scores, 1, 0, best);
    ids := truth.ids;
  }

  method StreamTiles(np: Arrays, scores: seq<real>, take: nat, tile: nat) returns (best: seq<Hit>)
    requires np.Correct() && tile >= 1
    ensures |best| == take && Streamed(scores, 1, 0, |scores|, best)
  {
    best := Padding(take, 0);
    StreamStart(scores, 1, 0, take);
    var start := 0;
    ghost var p := 0;
    while start < |scores|
      invariant p == Min(start, |scores|) && |best| == take
      invariant Streamed(scores, 1, 0, p, best)
    {
      var stop := Min(start + tile, |scores|);
      best := MergeTile(np, scores, start, stop, best);
      start, p := start + tile, stop;
    }
  }

  method MergeTile(np: Arrays, scores: seq<real>, start: nat, stop: nat, best: seq<Hit>) returns (merged: seq<Hit>)
    requires np.Correct() && start < stop <= |scores|
    requires Streamed(scores, 1, 0, start, best)
    ensures |merged| == |best|
    ensures Streamed(scores, 1, 0, stop, merged)
  {
    var block := Rows(scores, start, stop, 1);
    var all := best + block;
    if |best| == 0 {
      merged := [];
    } else {
      FirstLargestTop(np, all, |best|);
      merged := Permuted(all, FirstLargest(np, Scores(all), |best|));
    }
    StreamStep(multiset(Padding(|best|, 0)), scores, start, stop, 1, best, block, merged);
  }

  // ----- Tiled argmax -----

  /** `argmax`: the first position of the largest value. */
  method ArgMax(a: seq<real>) returns (m: nat)
    requires |a| > 0
    ensures m < |a| && (forall j | 0 <= j < |a| :: a[j] <= a[m]) && (forall j | 0 <= j < m :: a[j] < a[m])
  {
    m := 0;
    for i := 1 to |a|
      invariant m < i && (forall j | 0 <= j < i :: a[j] <= a[m]) && (forall j | 0 <= j < m :: a[j] < a[m])
    {
      if a[i] > a[m] { m := i; }
    }
  }

  /** The 1-based id of the least row attaining the maximum, 0 when there is no row. */
  method ExactTop1(scores: seq<real>, tile: nat) returns (id: nat)
    requires tile >= 1
    ensures scores == [] ==> id == 0
    ensures scores != [] ==> 1 <= id <= |scores|
    ensures scores != [] ==> forall j | 0 <= j < |scores| :: scores[j] <= scores[id - 1]
    ensures scores != [] ==> forall j | 0 <= j < id - 1 :: scores[j] < scores[id - 1]
  {
    var best := NegInf;
    id := 0;
    var s := 0;
    while s < |scores|
      invariant s == 0 <==> id == 0
      invariant s == 0 ==> best == NegInf
      invariant s > 0 ==> id <= Min(s, |scores|) && best == Fin(scores[id - 1])
      invariant s > 0 ==> forall j | 0 <= j < Min(s, |scores|) :: scores[j] <= scores[id - 1]
      invariant s > 0 ==> forall j | 0 <= j < id - 1 :: scores[j] < scores[id - 1]
    {
      var block := scores[s..Min(s + tile, |scores|)];
      var local := ArgMax(block);
      assert forall j | 0 <= j < |block| :: block[j] == scores[s + j];
      assert forall j | s <= j < s + |block| :: scores[j] == block[j - s];
      if !Le(Fin(block[local]), best) {
        best, id := Fin(block[local]), s + local + 1;
      }
      s := s + tile;
    }
  }
}
