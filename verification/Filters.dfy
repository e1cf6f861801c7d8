/**
 Metadata filters: the per-document predicate, the per-field value indexes and the
 set-based resolver that must agree with the predicate.

 The AST is that of a validated filter: operands already have the type their operator
 needs, so the "validated ... must be" errors of the source cannot occur.  A JSON object
 is the sequence of its entries in iteration order.
 */
module Filters {
  import opened Prelude

  type DocId = string
  type Metadata = map<string, string>

  /** The non-NaN doubles with the order `<` gives them. */
  datatype Num = NegInf | Fin(v: real) | PosInf

  predicate NumLt(a: Num, b: Num) {
    match (a, b)
    case (NegInf, NegInf) => false
    case (NegInf, _) => true
    case (Fin(x), Fin(y)) => x < y
    case (Fin(_), PosInf) => true
    case _ => false
  }

  datatype Cmp = Gt | Gte | Lt | Lte

  datatype Operator =
    | Eq(value: string)
    | Ne(value: string)
    | In(values: seq<string>)
    | Nin(values: seq<string>)
    | Exists(expected: bool)
    | Ord(cmp: Cmp, operand: string)

  datatype Spec = Literal(value: string) | Ops(ops: seq<Operator>)

  datatype Filter = Node(entries: seq<Entry>)

  datatype Entry =
    | And(subs: seq<Filter>)
    | Or(subs: seq<Filter>)
    | Not(sub: Filter)
    | Field(name: string, spec: Spec)

  /** What validation guarantees beyond the typing: no empty object and no empty list of filters. */
  predicate Validated(f: Filter) {
    |f.entries| > 0 && forall i | 0 <= i < |f.entries| :: ValidatedEntry(f.entries[i])
  }

  predicate ValidatedEntry(e: Entry) {
    match e
    case And(subs) => |subs| > 0 && forall i | 0 <= i < |subs| :: Validated(subs[i])
    case Or(subs) => |subs| > 0 && forall i | 0 <= i < |subs| :: Validated(subs[i])
    case Not(sub) => Validated(sub)
    case Field(_, spec) => spec.Ops? ==> |spec.ops| > 0
  }

  // ----- The predicate over one document's metadata -----

  predicate CompareNum(l: Num, cmp: Cmp, r: Num) {
    match cmp
    case Gt => NumLt(r, l)
    case Gte => !NumLt(l, r)
    case Lt => NumLt(l, r)
    case Lte => !NumLt(r, l)
  }

  predicate StrLt(l: string, r: string) {
    if r == "" then false
    else if l == "" then true
    else l[0] < r[0] || (l[0] == r[0] && StrLt(l[1..], r[1..]))
  }

  predicate CompareStr(l: string, cmp: Cmp, r: string) {
    match cmp
    case Gt => StrLt(r, l)
    case Gte => !StrLt(l, r)
    case Lt => StrLt(l, r)
    case Lte => !StrLt(r, l)
  }

  /** Reads a string as a non-NaN number, as Rust's `parse::<f64>` would; left abstract. */
  type Parser = string -> Option<Num>

  predicate CompareOrdered(parse: Parser, stored: string, cmp: Cmp, operand: string) {
    if parse(operand).Some? && parse(stored).Some?
    then CompareNum(parse(stored).value, cmp, parse(operand).value)
    else CompareStr(stored, cmp, operand)
  }

  // ----- What the ordered operators mean -----

  /** `a` comes before `b` at position `k`: the first where they differ, or where `a` ends. */
  predicate PrecedesAt(a: string, b: string, k: nat) {
    && k <= |a| && k < |b| && a[..k] == b[..k]
    && (k == |a| || a[k] < b[k])
  }

  /** Dictionary order. */
  ghost predicate Precedes(a: string, b: string) {
    exists k: nat :: PrecedesAt(a, b, k)
  }

  lemma PrecedesStep(a: string, b: string, k: nat)
    requires a != "" && b != "" && a[0] == b[0]
    ensures PrecedesAt(a, b, k + 1) <==> PrecedesAt(a[1..], b[1..], k)
  {
    if k < |a| && k < |b| {
      assert a[..k + 1] == [a[0]] + a[1..][..k] && b[..k + 1] == [b[0]] + b[1..][..k];
      if a[..k + 1] == b[..k + 1] { assert a[1..][..k] == a[..k + 1][1..] == b[..k + 1][1..] == b[1..][..k]; }
    }
  }

  /** The recursive comparison is dictionary order. */
  lemma {:induction false} StrLtExact(a: string, b: string)
    ensures StrLt(a, b) <==> Precedes(a, b)
  {
    if a != "" && b != "" && a[0] == b[0] {
      StrLtExact(a[1..], b[1..]);
      if Precedes(a, b) {
        var k: nat :| PrecedesAt(a, b, k);
        PrecedesStep(a, b, k - 1);
      }
      if Precedes(a[1..], b[1..]) {
        var k: nat :| PrecedesAt(a[1..], b[1..], k);
        PrecedesStep(a, b, k);
      }
    } else {
      if b != "" && (a == "" || a[0] < b[0]) { assert PrecedesAt(a, b, 0); }
      forall k: nat | PrecedesAt(a, b, k) ensures StrLt(a, b) {
        if k > 0 { assert a[..k][0] == b[..k][0]; }
      }
    }
  }

  /** Dictionary order is total, and strict. */
  lemma {:induction false} StrLtTotal(a: string, b: string)
    ensures !StrLt(a, a) && !(StrLt(a, b) && StrLt(b, a))
    ensures StrLt(a, b) || a == b || StrLt(b, a)
  {
    if a != "" {
      StrLtTotal(a[1..], if b == "" then "" else b[1..]);
      if b != "" { assert a == [a[0]] + a[1..] && b == [b[0]] + b[1..]; }
    }
  }

  lemma {:induction false} StrLtTransitive(a: string, b: string, c: string)
    requires StrLt(a, b) && StrLt(b, c)
    ensures StrLt(a, c)
  {
    if a != "" && a[0] == b[0] == c[0] { StrLtTransitive(a[1..], b[1..], c[1..]); }
  }

  /** Whether both sides of a comparison read as numbers, so that they are compared as numbers. */
  predicate Numeric(parse: Parser, stored: string, operand: string) {
    parse(stored).Some? && parse(operand).Some?
  }

  /**
   What an ordered operator accepts.  Two numbers compare as numbers, infinities outermost; anything
   else in dictionary order.  `$lte` is the opposite of `$gt` and `$gte` of `$lt`, and a value is
   neither above nor below itself.
   */
  lemma OrderedMeaning(parse: Parser, stored: string, operand: string)
    ensures !Numeric(parse, stored, operand) ==>
              && (CompareOrdered(parse, stored, Gt, operand) <==> Precedes(operand, stored))
              && (CompareOrdered(parse, stored, Lt, operand) <==> Precedes(stored, operand))
    ensures Numeric(parse, stored, operand) ==>
              var x, y := parse(stored).value, parse(operand).value;
              && (CompareOrdered(parse, stored, Gt, operand) <==> Above(x, y))
              && (CompareOrdered(parse, stored, Lt, operand) <==> Above(y, x))
    ensures CompareOrdered(parse, stored, Lte, operand) <==> !CompareOrdered(parse, stored, Gt, operand)
    ensures CompareOrdered(parse, stored, Gte, operand) <==> !CompareOrdered(parse, stored, Lt, operand)
    ensures !(CompareOrdered(parse, stored, Gt, operand) && CompareOrdered(parse, stored, Lt, operand))
    ensures stored == operand ==>
              !CompareOrdered(parse, stored, Gt, operand) && !CompareOrdered(parse, stored, Lt, operand)
  {
    StrLtExact(operand, stored);
    StrLtExact(stored, operand);
    StrLtTotal(stored, operand);
  }

  /** `x` is the larger number: a larger finite one, or an infinity on the right side of it. */
  predicate Above(x: Num, y: Num) {
    || (x.Fin? && y.Fin? && x.v > y.v)
    || (x.PosInf? && !y.PosInf?)
    || (y.NegInf? && !x.NegInf?)
  }

  /** A larger operand never adds to `$gt` and never removes from `$lt`, both ways of comparing. */
  lemma OrderedMonotone(parse: Parser, stored: string, small: string, large: string)
    requires Numeric(parse, stored, small) <==> Numeric(parse, stored, large)
    requires if Numeric(parse, stored, small) then Above(parse(large).value, parse(small).value)
             else Precedes(small, large)
    ensures CompareOrdered(parse, stored, Gt, large) ==> CompareOrdered(parse, stored, Gt, small)
    ensures CompareOrdered(parse, stored, Lt, small) ==> CompareOrdered(parse, stored, Lt, large)
  {
    StrLtExact(small, large);
    if !Numeric(parse, stored, small) {
      if StrLt(large, stored) { StrLtTransitive(small, large, stored); }
      if StrLt(stored, small) { StrLtTransitive(stored, small, large); }
    }
  }

  predicate MatchesOperator(parse: Parser, m: Metadata, field: string, op: Operator) {
    match op
    case Eq(v) => field in m && m[field] == v
    case Ne(v) => !(field in m && m[field] == v)
    case In(vs) => field in m && m[field] in vs
    case Nin(vs) => !(field in m && m[field] in vs)
    case Exists(b) => (field in m) == b
    case Ord(cmp, operand) => field in m && CompareOrdered(parse, m[field], cmp, operand)
  }

  predicate MatchesSpec(parse: Parser, m: Metadata, field: string, spec: Spec) {
    match spec
    case Literal(v) => field in m && m[field] == v
    case Ops(ops) => forall i | 0 <= i < |ops| :: MatchesOperator(parse, m, field, ops[i])
  }

  predicate MatchesEntry(parse: Parser, m: Metadata, e: Entry)
    decreases e
  {
    match e
    case And(subs) => forall i | 0 <= i < |subs| :: Matches(parse, m, subs[i])
    case Or(subs) => exists i | 0 <= i < |subs| :: Matches(parse, m, subs[i])
    case Not(sub) => !Matches(parse, m, sub)
    case Field(name, spec) => MatchesSpec(parse, m, name, spec)
  }

  predicate Matches(parse: Parser, m: Metadata, f: Filter)
    decreases f
  {
    forall i | 0 <= i < |f.entries| :: MatchesEntry(parse, m, f.entries[i])
  }

  // ----- Field indexes -----

  /** Documents carrying a field, and per stored value the documents carrying that value. */
  datatype Postings = Postings(docs: set<DocId>, valueDocs: map<string, set<DocId>>) {
    function Of(v: string): set<DocId> {
      if v in valueDocs then valueDocs[v] else {}
    }

    function UnionOf(vs: seq<string>): set<DocId> {
      if vs == [] then {} else Of(vs[0]) + UnionOf(vs[1..])
    }

    /** Documents whose stored value satisfies an ordered operator. */
    function Ordered(parse: Parser, cmp: Cmp, operand: string): set<DocId> {
      set v, d | v in valueDocs && d in valueDocs[v] && CompareOrdered(parse, v, cmp, operand) :: d
    }
  }

  const EMPTY_POSTINGS := Postings({}, map[])

  /** The postings are exactly those of `field` over `docs`. */
  ghost predicate Coherent(ix: Postings, docs: map<DocId, Metadata>, field: string) {
    && ix.docs == (set d | d in docs && field in docs[d])
    && (forall v, d | v in ix.valueDocs && d in ix.valueDocs[v] :: d in docs && field in docs[d] && docs[d][field] == v)
    && (forall d | d in docs && field in docs[d] :: docs[d][field] in ix.valueDocs && d in ix.valueDocs[docs[d][field]])
  }

  /** Coherent postings answer an ordered operator as the predicate does. */
  lemma CoherentOrdered(
    ix: Postings, docs: map<DocId, Metadata>, field: string, parse: Parser, cmp: Cmp, operand: string)
    requires Coherent(ix, docs, field)
    ensures ix.Ordered(parse, cmp, operand)
            == set d | d in docs && field in docs[d] && CompareOrdered(parse, docs[d][field], cmp, operand)
  {
  }

  datatype Failure = Failure(message: string)

  /** One generation's documents and the field indexes built from them. */
  datatype Corpus = Corpus(parse: Parser, docs: map<DocId, Metadata>, fields: map<string, Postings>) {

    ghost predicate Valid() {
      forall field :: Coherent(IndexOf(field), docs, field)
    }

    function All(): set<DocId> { docs.Keys }

    function Total(): nat { |docs.Keys| }

    function IndexOf(field: string): Postings {
      if field in fields then fields[field] else EMPTY_POSTINGS
    }

    // The documents the predicate accepts: what every resolution path must produce.

    function Sat(f: Filter): set<DocId> {
      set d | d in docs && Matches(parse, docs[d], f)
    }

    function SatEntry(e: Entry): set<DocId> {
      set d | d in docs && MatchesEntry(parse, docs[d], e)
    }

    function SatSpec(field: string, spec: Spec): set<DocId> {
      set d | d in docs && MatchesSpec(parse, docs[d], field, spec)
    }

    function SatOperator(field: string, op: Operator): set<DocId> {
      set d | d in docs && MatchesOperator(parse, docs[d], field, op)
    }

    // ----- Set-based resolution -----

    function ResolveOperator(ix: Postings, op: Operator): set<DocId> {
      match op
      case Eq(v) => ix.Of(v)
      case Ne(v) => All() - ix.Of(v)
      case In(vs) => ix.UnionOf(vs)
      case Nin(vs) => All() - ix.UnionOf(vs)
      case Exists(b) => if b then ix.docs else All() - ix.docs
      case Ord(cmp, operand) => ix.Ordered(parse, cmp, operand)
    }

    /** Intersects with the accumulator, `None` standing for "no conjunct seen yet". */
    function Meet(acc: Option<set<DocId>>, docs: set<DocId>): set<DocId> {
      if acc.Some? then acc.value * docs else docs
    }

    function ResolveOperators(ix: Postings, ops: seq<Operator>, acc: Option<set<DocId>>): set<DocId> {
      if ops == [] then acc.GetOr(All())
      else
        var met := Meet(acc, ResolveOperator(ix, ops[0]));
        if met == {} then {} else ResolveOperators(ix, ops[1..], Some(met))
    }

    function ResolveSpec(field: string, spec: Spec): set<DocId> {
      match spec
      case Literal(v) => IndexOf(field).Of(v)
      case Ops(ops) => ResolveOperators(IndexOf(field), ops, None)
    }

    function ResolveEntry(e: Entry): set<DocId>
      decreases e, 0
    {
      match e
      case And(subs) => ResolveAll(subs, None)
      case Or(subs) => ResolveAny(subs)
      case Not(sub) => All() - Resolve(sub)
      case Field(name, spec) => ResolveSpec(name, spec)
    }

    function ResolveAll(subs: seq<Filter>, acc: Option<set<DocId>>): set<DocId>
      decreases subs, 1
    {
      if subs == [] then acc.GetOr(All())
      else
        var met := Meet(acc, Resolve(subs[0]));
        if met == {} then {} else ResolveAll(subs[1..], Some(met))
    }

    function ResolveAny(subs: seq<Filter>): set<DocId>
      decreases subs, 1
    {
      if subs == [] then {} else Resolve(subs[0]) + ResolveAny(subs[1..])
    }

    function ResolveEntries(es: seq<Entry>, acc: Option<set<DocId>>): set<DocId>
      decreases es, 1
    {
      if es == [] then acc.GetOr(All())
      else
        var met := Meet(acc, ResolveEntry(es[0]));
        if met == {} then {} else ResolveEntries(es[1..], Some(met))
    }

    function Resolve(f: Filter): set<DocId>
      decreases f, 0
    {
      ResolveEntries(f.entries, None)
    }

    // ----- Resolution agrees with the predicate -----

    lemma PostingExact(field: string, v: string)
      requires Valid()
      ensures IndexOf(field).Of(v) == set d | d in docs && field in docs[d] && docs[d][field] == v
    {
      assert Coherent(IndexOf(field), docs, field);
    }

    lemma {:induction false} UnionExact(field: string, vs: seq<string>)
      requires Valid()
      ensures IndexOf(field).UnionOf(vs) == set d | d in docs && field in docs[d] && docs[d][field] in vs
    {
      if vs != [] {
        PostingExact(field, vs[0]);
        UnionExact(field, vs[1..]);
      }
    }

    lemma OrderedExact(field: string, cmp: Cmp, operand: string)
      requires Valid()
      ensures IndexOf(field).Ordered(parse, cmp, operand)
              == set d | d in docs && field in docs[d] && CompareOrdered(parse, docs[d][field], cmp, operand)
    {
      CoherentOrdered(IndexOf(field), docs, field, parse, cmp, operand);
    }

    /**
     The ordered operators on documents: with a value that is not a number on either side, `$gt` selects
     the carriers whose value comes after the operand in dictionary order and `$lt` those whose value
     comes before it, with two numbers those above and below; `$lte` and `$gte` select the others.
     */
    lemma OrderedSelects(field: string, operand: string, d: DocId)
      requires d in docs
      ensures field !in docs[d] ==> forall cmp :: d !in SatOperator(field, Ord(cmp, operand))
      ensures field in docs[d] ==>
                var v := docs[d][field];
                && (d in SatOperator(field, Ord(Gt, operand)) <==>
                      if Numeric(parse, v, operand) then Above(parse(v).value, parse(operand).value)
                      else Precedes(operand, v))
                && (d in SatOperator(field, Ord(Lt, operand)) <==>
                      if Numeric(parse, v, operand) then Above(parse(operand).value, parse(v).value)
                      else Precedes(v, operand))
                && (d in SatOperator(field, Ord(Lte, operand)) <==> d !in SatOperator(field, Ord(Gt, operand)))
                && (d in SatOperator(field, Ord(Gte, operand)) <==> d !in SatOperator(field, Ord(Lt, operand)))
    {
      if field in docs[d] { OrderedMeaning(parse, docs[d][field], operand); }
    }

    lemma OperatorExact(field: string, op: Operator)
      requires Valid()
      ensures ResolveOperator(IndexOf(field), op) == SatOperator(field, op)
    {
      match op
      case Eq(v) => PostingExact(field, v);
      case Ne(v) => PostingExact(field, v);
      case In(vs) => UnionExact(field, vs);
      case Nin(vs) => UnionExact(field, vs);
      case Exists(b) => assert Coherent(IndexOf(field), docs, field);
      case Ord(cmp, operand) => OrderedExact(field, cmp, operand);
    }

    lemma {:induction false} OperatorsExact(field: string, ops: seq<Operator>, acc: Option<set<DocId>>)
      requires Valid()
      requires acc.Some? ==> acc.value <= All()
      ensures ResolveOperators(IndexOf(field), ops, acc) == Meet(acc, SatSpec(field, Ops(ops)))
    {
      if ops != [] {
        OperatorExact(field, ops[0]);
        var met := Meet(acc, ResolveOperator(IndexOf(field), ops[0]));
        OperatorsExact(field, ops[1..], Some(met));
        assert ops == [ops[0]] + ops[1..];
        assert SatSpec(field, Ops(ops)) == SatOperator(field, ops[0]) * SatSpec(field, Ops(ops[1..]));
      }
    }

    lemma SpecExact(field: string, spec: Spec)
      requires Valid()
      ensures ResolveSpec(field, spec) == SatSpec(field, spec)
    {
      match spec
      case Literal(v) => PostingExact(field, v);
      case Ops(ops) => OperatorsExact(field, ops, None);
    }

    lemma {:induction false} EntryExact(e: Entry)
      requires Valid()
      ensures ResolveEntry(e) == SatEntry(e)
      decreases e, 0
    {
      match e
      case And(subs) => AllExact(subs, None);
      case Or(subs) => AnyExact(subs);
      case Not(sub) => ResolveExact(sub);
      case Field(name, spec) => SpecExact(name, spec);
    }

    lemma {:induction false} AllExact(subs: seq<Filter>, acc: Option<set<DocId>>)
      requires Valid()
      requires acc.Some? ==> acc.value <= All()
      ensures ResolveAll(subs, acc) == Meet(acc, SatEntry(And(subs)))
      decreases subs, 1
    {
      if subs != [] {
        ResolveExact(subs[0]);
        AllExact(subs[1..], Some(Meet(acc, Resolve(subs[0]))));
        assert subs == [subs[0]] + subs[1..];
        assert SatEntry(And(subs)) == Sat(subs[0]) * SatEntry(And(subs[1..]));
      }
    }

    lemma {:induction false} AnyExact(subs: seq<Filter>)
      requires Valid()
      ensures ResolveAny(subs) == SatEntry(Or(subs))
      decreases subs, 1
    {
      if subs != [] {
        ResolveExact(subs[0]);
        AnyExact(subs[1..]);
        assert subs == [subs[0]] + subs[1..];
        assert SatEntry(Or(subs)) == Sat(subs[0]) + SatEntry(Or(subs[1..]));
      }
    }

    lemma {:induction false} EntriesExact(es: seq<Entry>, acc: Option<set<DocId>>)
      requires Valid()
      requires acc.Some? ==> acc.value <= All()
      ensures ResolveEntries(es, acc) == Meet(acc, Sat(Node(es)))
      decreases es, 1
    {
      if es != [] {
        EntryExact(es[0]);
        EntriesExact(es[1..], Some(Meet(acc, ResolveEntry(es[0]))));
        assert es == [es[0]] + es[1..];
        assert Sat(Node(es)) == SatEntry(es[0]) * Sat(Node(es[1..]));
      }
    }

    /** Set-based resolution over the indexes returns exactly the documents the predicate accepts. */
    lemma {:induction false} ResolveExact(f: Filter)
      requires Valid()
      ensures Resolve(f) == Sat(f)
      decreases f, 0
    {
      EntriesExact(f.entries, None);
      assert f == Node(f.entries);
    }
  }
}
