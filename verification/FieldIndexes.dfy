/**
 The mutable per-field index: exact postings kept on every write, and an ordered
 partition of the distinct values that is built lazily, cached, and dropped by writes.
 */
module FieldIndexes {
  import opened Prelude
  import opened Filters

  // ----- What one write does to the postings -----

  function Inserted(ix: Postings, d: DocId, v: string): Postings {
    Postings(ix.docs + {d}, ix.valueDocs[v := ix.Of(v) + {d}])
  }

  function Removed(ix: Postings, d: DocId, v: string): Postings {
    Postings(ix.docs - {d},
             if v !in ix.valueDocs then ix.valueDocs
             else if ix.valueDocs[v] - {d} == {} then ix.valueDocs - {v}
             else ix.valueDocs[v := ix.valueDocs[v] - {d}])
  }

  /** Setting a field on a document that did not carry it keeps the postings exact. */
  lemma InsertedCoherent(ix: Postings, docs: map<DocId, Metadata>, field: string, d: DocId, m: Metadata)
    requires Coherent(ix, docs, field)
    requires d in docs ==> field !in docs[d]
    requires field in m
    ensures Coherent(Inserted(ix, d, m[field]), docs[d := m], field)
  {
    var docs' := docs[d := m];
    var ix' := Inserted(ix, d, m[field]);
    assert d !in ix.docs;
    forall v, e | v in ix'.valueDocs && e in ix'.valueDocs[v]
      ensures e in docs' && field in docs'[e] && docs'[e][field] == v
    {
      if e != d || v != m[field] { assert e in ix.valueDocs[v]; }
    }
  }

  /** Dropping a document's own value keeps the postings exact; emptied values disappear. */
  lemma RemovedCoherent(ix: Postings, docs: map<DocId, Metadata>, field: string, d: DocId, m: Metadata)
    requires Coherent(ix, docs, field)
    requires d in docs && field in docs[d] && field !in m
    ensures Coherent(Removed(ix, d, docs[d][field]), docs[d := m], field)
    ensures docs[d][field] in Removed(ix, d, docs[d][field]).valueDocs ==>
            Removed(ix, d, docs[d][field]).Of(docs[d][field]) != {}
  {
    var docs', v := docs[d := m], docs[d][field];
    var ix' := Removed(ix, d, v);
    assert v in ix.valueDocs && d in ix.valueDocs[v];
    forall w, e | w in ix'.valueDocs && e in ix'.valueDocs[w]
      ensures e in docs' && field in docs'[e] && docs'[e][field] == w
    {
      assert e in ix.valueDocs[w] && e != d;
    }
    forall e | e in docs' && field in docs'[e]
      ensures docs'[e][field] in ix'.valueDocs && e in ix'.valueDocs[docs'[e][field]]
    {
      assert e != d && e in ix.valueDocs[docs[e][field]];
      if docs[e][field] == v { assert e in ix.valueDocs[v] - {d}; }
    }
  }

  // ----- The ordered partition -----

  datatype NumericValue = NumericValue(number: Num, value: string)

  datatype Partition = Partition(numeric: seq<NumericValue>, nonnumeric: seq<string>)

  datatype Cache = Cold | Warm(partition: Partition)

  predicate NumericLe(a: NumericValue, b: NumericValue) {
    NumLt(a.number, b.number) || (!NumLt(b.number, a.number) && !StrLt(b.value, a.value))
  }

  ghost predicate AscendingNumbers(s: seq<NumericValue>) {
    forall i, j | 0 <= i < j < |s| :: !NumLt(s[j].number, s[i].number)
  }

  function Insertion(s: seq<NumericValue>, x: NumericValue): seq<NumericValue> {
    if s == [] then [x]
    else if NumericLe(x, s[0]) then [x] + s
    else [s[0]] + Insertion(s[1..], x)
  }

  function Sorted(s: seq<NumericValue>): seq<NumericValue> {
    if s == [] then [] else Insertion(Sorted(s[1..]), s[0])
  }

  lemma AscendingFront(x: NumericValue, s: seq<NumericValue>)
    requires AscendingNumbers(s) && forall j | 0 <= j < |s| :: !NumLt(s[j].number, x.number)
    ensures AscendingNumbers([x] + s)
  {
  }

  lemma {:induction false} InsertionHas(s: seq<NumericValue>, x: NumericValue)
    ensures multiset(Insertion(s, x)) == multiset(s) + multiset{x}
  {
    if s != [] && !NumericLe(x, s[0]) {
      InsertionHas(s[1..], x);
      assert s == [s[0]] + s[1..];
    }
  }

  lemma {:induction false} InsertionSorts(s: seq<NumericValue>, x: NumericValue)
    requires AscendingNumbers(s)
    ensures AscendingNumbers(Insertion(s, x))
    ensures multiset(Insertion(s, x)) == multiset(s) + multiset{x}
  {
    InsertionHas(s, x);
    if s != [] && NumericLe(x, s[0]) {
      forall j | 0 <= j < |s| ensures !NumLt(s[j].number, x.number) {
        if j > 0 { assert !NumLt(s[j].number, s[0].number); }
      }
      AscendingFront(x, s);
    } else if s != [] {
      InsertionSorts(s[1..], x);
      var rest := Insertion(s[1..], x);
      forall j | 0 <= j < |rest| ensures !NumLt(rest[j].number, s[0].number) {
        assert rest[j] in multiset(rest);
        assert rest[j] == x || rest[j] in s[1..];
      }
      AscendingFront(s[0], rest);
    }
  }

  lemma {:induction false} SortedSorts(s: seq<NumericValue>)
    ensures AscendingNumbers(Sorted(s))
    ensures multiset(Sorted(s)) == multiset(s)
  {
    if s != [] {
      SortedSorts(s[1..]);
      InsertionSorts(Sorted(s[1..]), s[0]);
      assert s == [s[0]] + s[1..];
    }
  }

  function Values(s: seq<NumericValue>): seq<string> {
    seq(|s|, i requires 0 <= i < |s| => s[i].value)
  }

  /** The partition is a sorted numeric run plus the remainder, listing each distinct value once. */
  ghost predicate PartitionOf(p: Partition, parse: Parser, valueDocs: map<string, set<DocId>>) {
    && AscendingNumbers(p.numeric)
    && NoDuplicates(p.numeric)
    && NoDuplicates(p.nonnumeric)
    && (forall n | n in p.numeric :: n.value in valueDocs && parse(n.value) == Some(n.number))
    && (forall v | v in p.nonnumeric :: v in valueDocs && parse(v).None?)
    && (forall v | v in valueDocs && parse(v).Some? :: NumericValue(parse(v).value, v) in p.numeric)
    && (forall v | v in valueDocs && parse(v).None? :: v in p.nonnumeric)
  }

  /** First index whose number is not below the operand (or, when `inclusive`, is above it). */
  method PartitionPoint(s: seq<NumericValue>, operand: Num, inclusive: bool) returns (k: nat)
    requires AscendingNumbers(s)
    ensures k <= |s|
    ensures forall i | 0 <= i < k :: if inclusive then !NumLt(operand, s[i].number) else NumLt(s[i].number, operand)
    ensures forall i | k <= i < |s| :: if inclusive then NumLt(operand, s[i].number) else !NumLt(s[i].number, operand)
  {
    var lo, hi := 0, |s|;
    while lo < hi
      invariant 0 <= lo <= hi <= |s|
      invariant forall i | 0 <= i < lo ::
                if inclusive then !NumLt(operand, s[i].number) else NumLt(s[i].number, operand)
      invariant forall i | hi <= i < |s| ::
                if inclusive then NumLt(operand, s[i].number) else !NumLt(s[i].number, operand)
    {
      var mid := (lo + hi) / 2;
      var below := if inclusive then !NumLt(operand, s[mid].number) else NumLt(s[mid].number, operand);
      if below {
        lo := mid + 1;
      } else {
        hi := mid;
      }
    }
    k := lo;
  }

  /** Selects the numeric values satisfying an operator by binary search. */
  method NumericSatisfying(p: Partition, cmp: Cmp, operand: Num) returns (r: seq<NumericValue>)
    requires AscendingNumbers(p.numeric)
    requires NoDuplicates(p.numeric)
    ensures NoDuplicates(r)
    ensures forall n :: n in r <==> n in p.numeric && CompareNum(n.number, cmp, operand)
  {
    var s := p.numeric;
    var k := PartitionPoint(s, operand, cmp in {Gt, Lte});
    r := if cmp in {Gt, Gte} then s[k..] else s[..k];
  }

  ghost predicate Disjoint(valueDocs: map<string, set<DocId>>) {
    forall v, w | v in valueDocs && w in valueDocs && v != w :: valueDocs[v] !! valueDocs[w]
  }

  /** Coherent postings are disjoint, since a document stores one value per field. */
  lemma CoherentDisjoint(ix: Postings, docs: map<DocId, Metadata>, field: string)
    requires Coherent(ix, docs, field)
    ensures Disjoint(ix.valueDocs)
  {
    forall v, w | v in ix.valueDocs && w in ix.valueDocs && v != w
      ensures ix.valueDocs[v] !! ix.valueDocs[w]
    {
      assert forall d | d in ix.valueDocs[v] :: docs[d][field] == v;
      assert forall d | d in ix.valueDocs[w] :: docs[d][field] == w;
    }
  }

  ghost function Gather(valueDocs: map<string, set<DocId>>, vs: seq<string>): set<DocId>
    requires forall v | v in vs :: v in valueDocs
  {
    if vs == [] then {} else Gather(valueDocs, vs[..|vs| - 1]) + valueDocs[vs[|vs| - 1]]
  }

  lemma {:induction false} GatherMember(valueDocs: map<string, set<DocId>>, vs: seq<string>)
    requires forall v | v in vs :: v in valueDocs
    ensures forall d :: d in Gather(valueDocs, vs) <==> exists v | v in vs :: d in valueDocs[v]
  {
    if vs != [] {
      GatherMember(valueDocs, vs[..|vs| - 1]);
      assert vs == vs[..|vs| - 1] + [vs[|vs| - 1]];
    }
  }

  /** Adding up posting sizes counts each document once when the postings are disjoint. */
  method SumPostings(valueDocs: map<string, set<DocId>>, picked: seq<string>) returns (n: nat)
    requires forall v | v in picked :: v in valueDocs
    requires NoDuplicates(picked)
    requires Disjoint(valueDocs)
    ensures n == |Gather(valueDocs, picked)|
  {
    n := 0;
    for i := 0 to |picked|
      invariant n == |Gather(valueDocs, picked[..i])|
    {
      assert picked[..i + 1][..i] == picked[..i];
      GatherMember(valueDocs, picked[..i]);
      assert Gather(valueDocs, picked[..i]) !! valueDocs[picked[i]];
      n := n + |valueDocs[picked[i]]|;
    }
    assert picked[..|picked|] == picked;
  }

  class FieldIndex {
    const parse: Parser
    var docs: set<DocId>
    var valueDocs: map<string, set<DocId>>
    var ordered: Cache

    function Value(): Postings
      reads this
    {
      Postings(docs, valueDocs)
    }

    /** A cached partition is the partition of the current values. */
    ghost predicate Valid()
      reads this
    {
      ordered.Warm? ==> PartitionOf(ordered.partition, parse, valueDocs)
    }

    constructor (parse: Parser)
      ensures Valid() && Value() == EMPTY_POSTINGS && this.parse == parse
    {
      this.parse := parse;
      docs, valueDocs, ordered := {}, map[], Cold;
    }

    method Insert(d: DocId, v: string)
      requires Valid()
      modifies this
      ensures Valid()
      ensures Value() == Inserted(old(Value()), d, v)
    {
      docs := docs + {d};
      valueDocs := valueDocs[v := (if v in valueDocs then valueDocs[v] else {}) + {d}];
      ordered := Cold;
    }

    method Remove(d: DocId, v: string)
      requires Valid()
      modifies this
      ensures Valid()
      ensures Value() == Removed(old(Value()), d, v)
    {
      docs := docs - {d};
      if v in valueDocs {
        var rest := valueDocs[v] - {d};
        valueDocs := if rest == {} then valueDocs - {v} else valueDocs[v := rest];
      }
      ordered := Cold;
    }

    method EnsureOrdered()
      requires Valid()
      modifies this`ordered
      ensures Valid() && ordered.Warm?
    {
      if ordered.Warm? { return; }
      var numeric: seq<NumericValue>, nonnumeric: seq<string> := [], [];
      var todo := valueDocs.Keys;
      while todo != {}
        invariant todo <= valueDocs.Keys
        invariant NoDuplicates(numeric) && NoDuplicates(nonnumeric)
        invariant forall n | n in numeric ::
                    n.value in valueDocs && n.value !in todo && parse(n.value) == Some(n.number)
        invariant forall v | v in nonnumeric :: v in valueDocs && v !in todo && parse(v).None?
        invariant forall v | v in valueDocs && v !in todo && parse(v).Some? ::
                    NumericValue(parse(v).value, v) in numeric
        invariant forall v | v in valueDocs && v !in todo && parse(v).None? :: v in nonnumeric
        decreases todo
      {
        var v :| v in todo;
        if parse(v).Some? {
          numeric := numeric + [NumericValue(parse(v).value, v)];
        } else {
          nonnumeric := nonnumeric + [v];
        }
        todo := todo - {v};
      }
      SortedSorts(numeric);
      SortKeepsPartition(numeric);
      ordered := Warm(Partition(Sorted(numeric), nonnumeric));
    }

    /** Documents whose value satisfies an ordered operator: cached binary search plus a lexical pass. */
    method ResolveOrdered(cmp: Cmp, operand: string) returns (r: set<DocId>)
      requires Valid()
      modifies this`ordered
      ensures Valid() && Value() == old(Value())
      ensures r == Value().Ordered(parse, cmp, operand)
    {
      if parse(operand).Some? {
        EnsureOrdered();
      }
      var picked := PickValues(cmp, operand);
      r := {};
      for i := 0 to |picked|
        invariant Valid()
        invariant r == Gather(valueDocs, picked[..i])
      {
        r := r + valueDocs[picked[i]];
        assert picked[..i + 1][..i] == picked[..i];
      }
      assert picked[..|picked|] == picked;
      GatherMember(valueDocs, picked);
    }

    /** The same selection counted without collecting ids: no document is in two postings, so the sum is exact. */
    method CountOrdered(cmp: Cmp, operand: string, ghost documents: map<DocId, Metadata>, ghost field: string)
      returns (n: nat)
      requires Valid() && Coherent(Value(), documents, field)
      modifies this`ordered
      ensures Valid() && Value() == old(Value())
      ensures n == |Value().Ordered(parse, cmp, operand)|
      ensures n == |set d | d in documents && field in documents[d]
                            && CompareOrdered(parse, documents[d][field], cmp, operand)|
    {
      CoherentDisjoint(Value(), documents, field);
      CoherentOrdered(Value(), documents, field, parse, cmp, operand);
      if parse(operand).Some? {
        EnsureOrdered();
      }
      var picked := PickValues(cmp, operand);
      n := SumPostings(valueDocs, picked);
      GatherMember(valueDocs, picked);
      assert Gather(valueDocs, picked) == Value().Ordered(parse, cmp, operand);
    }

    /** The distinct values satisfying the operator, each once. */
    method PickValues(cmp: Cmp, operand: string) returns (picked: seq<string>)
      requires Valid()
      requires parse(operand).Some? ==> ordered.Warm?
      ensures NoDuplicates(picked)
      ensures forall v :: v in picked <==> v in valueDocs && CompareOrdered(parse, v, cmp, operand)
    {
      if parse(operand).Some? {
        var numeric := NumericSatisfying(ordered.partition, cmp, parse(operand).value);
        picked := SelectedValues(numeric, ordered.partition.nonnumeric, cmp, operand);
      } else {
        picked := ScanValues(cmp, operand);
      }
    }

    method SelectedValues(numeric: seq<NumericValue>, nonnumeric: seq<string>, cmp: Cmp, operand: string)
      returns (picked: seq<string>)
      requires Valid() && ordered.Warm? && nonnumeric == ordered.partition.nonnumeric
      requires parse(operand).Some?
      requires NoDuplicates(numeric)
      requires forall n :: n in numeric <==>
                 n in ordered.partition.numeric && CompareNum(n.number, cmp, parse(operand).value)
      ensures NoDuplicates(picked)
      ensures forall v :: v in picked <==> v in valueDocs && CompareOrdered(parse, v, cmp, operand)
    {
      picked := Values(numeric);
      assert forall v :: v in picked <==>
               v in valueDocs && parse(v).Some? && CompareOrdered(parse, v, cmp, operand) by {
        forall v | v in valueDocs && parse(v).Some? && CompareOrdered(parse, v, cmp, operand) ensures v in picked {
          var n := NumericValue(parse(v).value, v);
          assert n in numeric;
          var k :| 0 <= k < |numeric| && numeric[k] == n;
          assert picked[k] == v;
        }
      }
      assert NoDuplicates(picked) by {
        forall i, j | 0 <= i < j < |picked| ensures picked[i] != picked[j] {
          assert numeric[i] != numeric[j] && numeric[i] in numeric && numeric[j] in numeric;
        }
      }
      var i := 0;
      while i < |nonnumeric|
        invariant 0 <= i <= |nonnumeric|
        invariant NoDuplicates(picked)
        invariant forall v :: v in picked <==> v in valueDocs && CompareOrdered(parse, v, cmp, operand)
                                               && (parse(v).Some? || v in nonnumeric[..i])
      {
        assert nonnumeric[i] !in nonnumeric[..i];
        if CompareOrdered(parse, nonnumeric[i], cmp, operand) {
          picked := picked + [nonnumeric[i]];
        }
        assert nonnumeric[..i + 1] == nonnumeric[..i] + [nonnumeric[i]];
        i := i + 1;
      }
      assert nonnumeric[..i] == nonnumeric;
    }

    method ScanValues(cmp: Cmp, operand: string) returns (picked: seq<string>)
      ensures NoDuplicates(picked)
      ensures forall v :: v in picked <==> v in valueDocs && CompareOrdered(parse, v, cmp, operand)
    {
      picked := [];
      var todo := valueDocs.Keys;
      while todo != {}
        invariant todo <= valueDocs.Keys
        invariant NoDuplicates(picked)
        invariant forall v :: v in picked <==> v in valueDocs && v !in todo && CompareOrdered(parse, v, cmp, operand)
        decreases todo
      {
        var v :| v in todo;
        if CompareOrdered(parse, v, cmp, operand) {
          picked := picked + [v];
        }
        todo := todo - {v};
      }
    }
  }

  lemma SortKeepsPartition(s: seq<NumericValue>)
    requires NoDuplicates(s)
    ensures NoDuplicates(Sorted(s))
    ensures forall n :: n in Sorted(s) <==> n in s
  {
    SortedSorts(s);
    DistinctIffMultiset(s);
    DistinctIffMultiset(Sorted(s));
    forall n ensures n in Sorted(s) <==> n in s {
      assert n in Sorted(s) <==> n in multiset(Sorted(s));
      assert n in s <==> n in multiset(s);
    }
  }

  // ----- Complementing a sorted posting by merging -----

  lemma {:induction false} StrLtTotal(a: string, b: string)
    ensures !StrLt(a, a)
    ensures StrLt(a, b) || a == b || StrLt(b, a)
    ensures !(StrLt(a, b) && StrLt(b, a))
  {
    if a != "" {
      StrLtTotal(a[1..], if b == "" then "" else b[1..]);
      if b != "" && a[0] == b[0] && a[1..] == b[1..] {
        assert a == [a[0]] + a[1..] && b == [b[0]] + b[1..];
      }
    }
  }

  lemma {:induction false} StrLtTransitive(a: string, b: string, c: string)
    requires StrLt(a, b) && StrLt(b, c)
    ensures StrLt(a, c)
  {
    if a != "" && a[0] == b[0] && b[0] == c[0] {
      StrLtTransitive(a[1..], b[1..], c[1..]);
    }
  }

  ghost predicate Ascending(s: seq<DocId>) {
    forall i, j | 0 <= i < j < |s| :: StrLt(s[i], s[j])
  }

  /** Walks the sorted corpus and posting together, keeping the ids the posting lacks. */
  method ComplementPosting(all: seq<DocId>, posting: seq<DocId>) returns (r: set<DocId>)
    requires Ascending(all) && Ascending(posting)
    ensures r == set d | d in all && d !in posting
  {
    r := {};
    var k := 0;
    for i := 0 to |all|
      invariant 0 <= k <= |posting|
      invariant forall j, m | 0 <= j < k && i <= m < |all| :: StrLt(posting[j], all[m])
      invariant r == set d | d in all[..i] && d !in posting
    {
      var x := all[i];
      while k < |posting| && StrLt(posting[k], x)
        invariant 0 <= k <= |posting|
        invariant forall j, m | 0 <= j < k && i <= m < |all| :: StrLt(posting[j], all[m])
      {
        forall m | i < m < |all| ensures StrLt(posting[k], all[m]) { StrLtTransitive(posting[k], x, all[m]); }
        k := k + 1;
      }
      assert all[..i + 1] == all[..i] + [x];
      if k < |posting| && posting[k] == x {
        k := k + 1;
      } else {
        NotPosted(posting, k, x);
        r := r + {x};
      }
    }
    assert all[..|all|] == all;
  }

  lemma NotPosted(posting: seq<DocId>, k: nat, x: DocId)
    requires Ascending(posting) && k <= |posting|
    requires forall j | 0 <= j < k :: StrLt(posting[j], x)
    requires k < |posting| ==> !StrLt(posting[k], x) && posting[k] != x
    ensures x !in posting
  {
    StrLtTotal(x, x);
    if k < |posting| {
      StrLtTotal(posting[k], x);
      forall j | k < j < |posting| ensures posting[j] != x {
        assert StrLt(posting[k], posting[j]);
      }
    }
  }
}
