/**
 The benchmark sweep: stores are built by a verified ingest and get their configuration file
 last, serving is guarded by that file, and a sweep resumes from whatever is on disk.
 Identities are symbolic, as for datasets: an id is the tuple that was hashed.
 */
module Sweeps {
  import opened Prelude
  import Publication

  type Row = Publication.Row
  type Manifest = Publication.Manifest
  type Digest = Publication.Digest

  // ----- Store configurations -----

  const STORE_CONFIG_VERSION: int := 2

  datatype Create = Create(
    bitWidth: int, annClusters: Option<int>, annNprobe: Option<int>, rescore: string, oversample: real,
    rows: int, dim: int)

  datatype Builder = Builder(gitSha: string, version: string, layoutId: string)

  datatype StoreId = StoreId(schemaVersion: int, corpusId: Digest, create: Create, builder: Builder)

  datatype StoreConfig = StoreConfig(
    schemaVersion: int, corpusId: Digest, create: Create, builder: Builder, storeId: StoreId)

  datatype StoreSpec = StoreSpec(
    bitWidth: int, annClusters: Option<int>, annNprobe: Option<int>, rescore: string, oversample: real,
    layoutId: string, buildable: bool, expectedBuilder: Option<string>)

  function RequestedCreate(spec: StoreSpec, m: Manifest): Create {
    Create(spec.bitWidth, spec.annClusters, spec.annNprobe, spec.rescore, spec.oversample, m.rows, m.dim)
  }

  function NewConfig(spec: StoreSpec, m: Manifest, gitSha: string, version: string): StoreConfig {
    var create, builder := RequestedCreate(spec, m), Builder(gitSha, version, spec.layoutId);
    StoreConfig(STORE_CONFIG_VERSION, m.corpusId, create, builder,
                StoreId(STORE_CONFIG_VERSION, m.corpusId, create, builder))
  }

  predicate ConfigLoads(c: StoreConfig) {
    && c.schemaVersion == STORE_CONFIG_VERSION
    && c.storeId == StoreId(c.schemaVersion, c.corpusId, c.create, c.builder)
    && c.builder.gitSha != "" && c.builder.version != "" && c.builder.layoutId != ""
  }

  // ----- Ingest -----

  /** Row `i` under id `i`, in order. */
  function Numbered(data: seq<Row>): (r: seq<(nat, Row)>)
    ensures |r| == |data|
  {
    seq(|data|, i requires 0 <= i < |data| => (i, data[i]))
  }

  /** The payload of one batch: the rows from `start` on, each under its own index. */
  function Payload(rows: seq<Row>, start: nat): (r: seq<(nat, Row)>)
    ensures |r| == |rows|
  {
    seq(|rows|, i requires 0 <= i < |rows| => (start + i, rows[i]))
  }

  /** The payloads handed to the engine, in order. */
  function Batches(base: seq<Row>, batch: nat, start: nat): seq<seq<(nat, Row)>>
    requires batch >= 1 && start <= |base|
    decreases |base| - start
  {
    if start == |base| then []
    else
      var stop := Min(start + batch, |base|);
      [Payload(base[start..stop], start)] + Batches(base, batch, stop)
  }

  ghost function Concat(batches: seq<seq<(nat, Row)>>): seq<(nat, Row)> {
    if batches == [] then [] else Concat(batches[..|batches| - 1]) + batches[|batches| - 1]
  }

  lemma {:induction false} ConcatAppend(a: seq<seq<(nat, Row)>>, b: seq<seq<(nat, Row)>>)
    ensures Concat(a + b) == Concat(a) + Concat(b)
  {
    if b == [] {
      assert a + b == a;
    } else {
      var n := |b| - 1;
      ConcatAppend(a, b[..n]);
      assert (a + b)[..|a| + n] == a + b[..n];
    }
  }

  /** The batches cover every row exactly once, in order, under its own index, whatever the batch size. */
  lemma {:induction false} BatchesCover(base: seq<Row>, batch: nat, start: nat)
    requires batch >= 1 && start <= |base|
    ensures Concat(Batches(base, batch, start)) == Numbered(base)[start..]
    decreases |base| - start
  {
    if start < |base| {
      var stop := Min(start + batch, |base|);
      var first := Payload(base[start..stop], start);
      BatchesCover(base, batch, stop);
      ConcatAppend([first], Batches(base, batch, stop));
      assert Concat([first]) == first;
      assert first == Numbered(base)[start..stop];
    }
  }

  // ----- Store directories -----

  /** The temporary file the configuration is written to before it is renamed. */
  datatype Aside = Partial | Whole(config: StoreConfig)

  /**
   A store directory: whether it holds any file, the rows on disk, the rows handed to the engine and
   not yet persisted, the temporary file, and the configuration file.
   */
  datatype Store = Store(
    touched: bool, added: seq<(nat, Row)>, pending: seq<(nat, Row)>, aside: Option<Aside>, config: Option<StoreConfig>)

  const EMPTY_DIR: Store := Store(false, [], [], None, None)

  /** A configuration file means a finished build of exactly the corpus it names. */
  predicate WellBuilt(s: Store) {
    s.config.Some? ==>
      && s.config.value.corpusId.OfCorpus? && s.config.value.corpusId.base.OfRows?
      && s.added == Numbered(s.config.value.corpusId.base.data)
      && s.config.value.create.rows == |s.added|
  }

  datatype BuildStep =
    | OpenDb
    | Add(rows: seq<(nat, Row)>)
    | Persist
    | BeginAside
    | FinishAside(config: StoreConfig)
    | RenameAside

  function ApplyStep(s: Store, step: BuildStep): Store {
    match step
    case OpenDb => s.(touched := true)
    case Add(rows) => s.(pending := s.pending + rows)
    case Persist => s.(added := s.added + s.pending, pending := [])
    case BeginAside => s.(aside := Some(Partial))
    case FinishAside(config) => s.(aside := Some(Whole(config)))
    case RenameAside =>
      if s.aside.Some? && s.aside.value.Whole? then s.(aside := None, config := Some(s.aside.value.config)) else s
  }

  function Run(s: Store, steps: seq<BuildStep>): Store {
    if steps == [] then s else ApplyStep(Run(s, steps[..|steps| - 1]), steps[|steps| - 1])
  }

  /** The process is gone: of the rows it had not persisted the engine wrote some first part. */
  function Settle(s: Store, kept: nat): Store {
    s.(added := s.added + s.pending[..Min(kept, |s.pending|)], pending := [])
  }

  function Adds(batches: seq<seq<(nat, Row)>>): (r: seq<BuildStep>)
    ensures |r| == |batches|
  {
    seq(|batches|, i requires 0 <= i < |batches| => Add(batches[i]))
  }

  /** How a build ends when the engine does not stop it. */
  datatype Ending = Finished | BadBatch | Mismatch | Broken

  datatype Plan = Plan(steps: seq<BuildStep>, ending: Ending)

  /** What a build does: the configuration is written last, aside and then renamed. */
  function PlanOf(base: seq<Row>, batch: int, wanted: Digest, config: StoreConfig): Plan {
    if batch < 1 then Plan([OpenDb], BadBatch)
    else
      var ingest := [OpenDb] + Adds(Batches(base, batch, 0));
      if Publication.OfRows(base) != wanted then Plan(ingest, Mismatch)
      else Plan(ingest + [Persist, BeginAside, FinishAside(config), RenameAside], Finished)
  }

  /** How many of `n` steps complete when the engine gives up after `budget` of them. */
  function Reached(budget: Option<nat>, n: nat): (r: nat)
    ensures r <= n
  {
    if budget.None? then n else Min(budget.value, n)
  }

  function Spent(budget: Option<nat>, n: nat): Option<nat> {
    if budget.None? then None else Some(budget.value - Min(budget.value, n))
  }

  /** A process at work on a directory; the engine raises once `budget` steps are done. */
  class Process {
    var dir: Store
    var budget: Option<nat>

    constructor (budget: Option<nat>)
      ensures dir == EMPTY_DIR && this.budget == budget
    {
      dir, this.budget := EMPTY_DIR, budget;
    }

    method Do(step: BuildStep) returns (ok: bool)
      modifies this
      ensures ok == (Reached(old(budget), 1) == 1)
      ensures dir == if ok then ApplyStep(old(dir), step) else old(dir)
      ensures budget == Spent(old(budget), 1)
    {
      ok := budget != Some(0);
      if ok {
        dir := ApplyStep(dir, step);
        budget := if budget.None? then None else Some(budget.value - 1);
      }
    }
  }

  lemma SpentTwice(budget: Option<nat>, m: nat, n: nat)
    ensures Reached(budget, m) < m ==> Reached(budget, m + n) == Reached(budget, m)
    ensures Reached(budget, m) == m ==> Reached(budget, m + n) == m + Reached(Spent(budget, m), n)
    ensures Spent(Spent(budget, m), n) == Spent(budget, m + n)
  {
  }

  lemma RunOneMore(s: Store, steps: seq<BuildStep>, step: BuildStep)
    ensures Run(s, steps + [step]) == ApplyStep(Run(s, steps), step)
  {
    assert (steps + [step])[..|steps|] == steps;
  }

  /** The batches `sent`, which are those of the rows before `at`, are handed over, and the steps they took spent. */
  ghost predicate Sending(
    before: Store, budget: Option<nat>, now: Store, left: Option<nat>,
    vectors: seq<Row>, batch: nat, at: nat, sent: seq<seq<(nat, Row)>>)
    requires batch >= 1 && at <= |vectors|
  {
    && now == Run(before, Adds(sent))
    && Reached(budget, |sent|) == |sent| && left == Spent(budget, |sent|)
    && sent + Batches(vectors, batch, at) == Batches(vectors, batch, 0)
  }

  /** The batch at `at`, and where the next one starts. */
  function BatchAt(vectors: seq<Row>, batch: nat, at: nat): (r: seq<(nat, Row)>)
    requires at <= |vectors|
  {
    Payload(vectors[at..Min(at + batch, |vectors|)], at)
  }

  lemma SendMore(
    before: Store, budget: Option<nat>, now: Store, left: Option<nat>,
    vectors: seq<Row>, batch: nat, at: nat, sent: seq<seq<(nat, Row)>>)
    requires batch >= 1 && at < |vectors| && Sending(before, budget, now, left, vectors, batch, at, sent)
    requires Reached(left, 1) == 1
    ensures var payload, stop := BatchAt(vectors, batch, at), Min(at + batch, |vectors|);
            Sending(before, budget, ApplyStep(now, Add(payload)), Spent(left, 1),
                    vectors, batch, stop, sent + [payload])
  {
    var payload, stop := BatchAt(vectors, batch, at), Min(at + batch, |vectors|);
    assert Adds(sent + [payload]) == Adds(sent) + [Add(payload)];
    RunOneMore(before, Adds(sent), Add(payload));
    SpentTwice(budget, |sent|, 1);
    var rest := Batches(vectors, batch, stop);
    assert sent + ([payload] + rest) == (sent + [payload]) + rest;
  }

  /** How an ingest of `adds` ends. */
  ghost predicate Sent(before: Store, budget: Option<nat>, now: Store, left: Option<nat>, adds: seq<BuildStep>) {
    && now == Run(before, adds[..Reached(budget, |adds|)])
    && left == Spent(budget, |adds|)
  }

  lemma SendStops(
    before: Store, budget: Option<nat>, now: Store, left: Option<nat>,
    vectors: seq<Row>, batch: nat, at: nat, sent: seq<seq<(nat, Row)>>)
    requires batch >= 1 && at <= |vectors| && Sending(before, budget, now, left, vectors, batch, at, sent)
    requires at == |vectors| || left == Some(0)
    ensures var adds := Adds(Batches(vectors, batch, 0));
            && Sent(before, budget, now, left, adds)
            && (Reached(budget, |adds|) < |adds| <==> at < |vectors|)
  {
    var all := Batches(vectors, batch, 0);
    assert all == sent + Batches(vectors, batch, at);
    assert Adds(all)[..|sent|] == Adds(sent);
  }

  /** Hands the rows over batch by batch, hashing what it hands over. */
  method IngestVectors(db: Process, vectors: seq<Row>, batch: int) returns (r: Result<Digest, Ending>)
    modifies db
    ensures batch < 1 ==> r == Err(BadBatch) && db.dir == old(db.dir) && db.budget == old(db.budget)
    ensures batch >= 1 ==>
              var adds := Adds(Batches(vectors, batch, 0));
              && Sent(old(db.dir), old(db.budget), db.dir, db.budget, adds)
              && r == if Reached(old(db.budget), |adds|) < |adds| then Err(Broken) else Ok(Publication.OfRows(vectors))
  {
    if batch < 1 { return Err(BadBatch); }
    var hashed: seq<Row>, start := [], 0;
    ghost var sent: seq<seq<(nat, Row)>> := [];
    while start < |vectors|
      invariant start >= 0
      invariant hashed == vectors[..Min(start, |vectors|)]
      invariant Sending(old(db.dir), old(db.budget), db.dir, db.budget, vectors, batch, Min(start, |vectors|), sent)
    {
      hashed := hashed + vectors[start..Min(start + batch, |vectors|)];
      ghost var now, left := db.dir, db.budget;
      var payload := BatchAt(vectors, batch, start);
      var ok := db.Do(Add(payload));
      if !ok {
        SendStops(old(db.dir), old(db.budget), now, left, vectors, batch, start, sent);
        return Err(Broken);
      }
      SendMore(old(db.dir), old(db.budget), now, left, vectors, batch, start, sent);
      sent := sent + [payload];
      start := start + batch;
    }
    SendStops(old(db.dir), old(db.budget), db.dir, db.budget, vectors, batch, |vectors|, sent);
    assert hashed == vectors;
    r := Ok(Publication.OfRows(hashed));
  }

  lemma {:induction false} RunAppend(s: Store, a: seq<BuildStep>, b: seq<BuildStep>)
    ensures Run(s, a + b) == Run(Run(s, a), b)
  {
    if b == [] {
      assert a + b == a;
    } else {
      var n := |b| - 1;
      RunAppend(s, a, b[..n]);
      assert (a + b)[..|a| + n] == a + b[..n];
    }
  }

  /** What was done so far is the first `n` steps. */
  ghost predicate Did(dir: Store, steps: seq<BuildStep>, n: nat) {
    n <= |steps| && dir == Run(EMPTY_DIR, steps[..n])
  }

  lemma DidMore(dir: Store, steps: seq<BuildStep>, n: nat, more: seq<BuildStep>)
    requires Did(dir, steps, n) && n + |more| <= |steps| && steps[n..n + |more|] == more
    ensures Did(Run(dir, more), steps, n + |more|)
  {
    RunAppend(EMPTY_DIR, steps[..n], more);
    assert steps[..n] + more == steps[..n + |more|];
  }

  lemma DidOneMore(dir: Store, steps: seq<BuildStep>, n: nat)
    requires Did(dir, steps, n) && n < |steps|
    ensures Did(ApplyStep(dir, steps[n]), steps, n + 1)
  {
    RunOneMore(EMPTY_DIR, steps[..n], steps[n]);
    assert steps[..n] + [steps[n]] == steps[..n + 1];
  }

  /** Ingesting is the part of the plan after the first step. */
  lemma DidIngest(dir: Store, steps: seq<BuildStep>, adds: seq<BuildStep>, n: nat)
    requires Did(dir, steps, 1) && n <= |adds| && 1 + |adds| <= |steps| && steps[1..1 + |adds|] == adds
    ensures Did(Run(dir, adds[..n]), steps, 1 + n)
  {
    assert steps[1..1 + n] == steps[1..1 + |adds|][..n];
    DidMore(dir, steps, 1, adds[..n]);
  }

  /** The build as it runs: it does its plan, up to the step at which the engine gives up. */
  method RunBuild(p: Process, base: seq<Row>, batch: int, wanted: Digest, config: StoreConfig) returns (r: Ending)
    requires p.dir == EMPTY_DIR
    modifies p
    ensures var plan := PlanOf(base, batch, wanted, config);
            var n := Reached(old(p.budget), |plan.steps|);
            && p.dir == Run(EMPTY_DIR, plan.steps[..n])
            && r == if n < |plan.steps| then Broken else plan.ending
  {
    ghost var plan := PlanOf(base, batch, wanted, config);
    DidOneMore(EMPTY_DIR, plan.steps, 0);
    r := OpenAndRun(p, base, batch, wanted, config, plan);
  }

  /** The shape of a plan. */
  ghost predicate Planned(plan: Plan, base: seq<Row>, batch: int, matches: bool, config: StoreConfig) {
    && |plan.steps| >= 1 && plan.steps[0] == OpenDb
    && (batch < 1 ==> |plan.steps| == 1 && plan.ending == BadBatch)
    && (batch >= 1 ==>
          && Follows(plan.steps, Adds(Batches(base, batch, 0)), matches, config)
          && plan.ending == if matches then Finished else Mismatch)
  }

  method OpenAndRun(
    p: Process, base: seq<Row>, batch: int, wanted: Digest, config: StoreConfig, ghost plan: Plan)
    returns (r: Ending)
    requires Planned(plan, base, batch, Publication.OfRows(base) == wanted, config)
    requires Did(p.dir, plan.steps, 0) && Did(ApplyStep(p.dir, OpenDb), plan.steps, 1)
    modifies p
    ensures var n := Reached(old(p.budget), |plan.steps|);
            Did(p.dir, plan.steps, n) && r == if n < |plan.steps| then Broken else plan.ending
  {
    SpentTwice(p.budget, 1, |plan.steps| - 1);
    var ok := p.Do(OpenDb);
    if !ok { return Broken; }
    if batch >= 1 {
      r := IngestAndPublish(p, base, batch, wanted, config, plan.steps);
    } else {
      var digest := IngestVectors(p, base, batch);
      r := digest.error;
    }
  }

  /** What follows the opening: the adds, and if the digest is the wanted one the publication. */
  ghost predicate Follows(steps: seq<BuildStep>, adds: seq<BuildStep>, matches: bool, config: StoreConfig) {
    && |steps| == 1 + |adds| + (if matches then 4 else 0) && steps[1..1 + |adds|] == adds
    && (matches ==> Publishes(steps, 1 + |adds|, config))
  }

  ghost predicate Publishes(steps: seq<BuildStep>, m: nat, config: StoreConfig) {
    && |steps| == m + 4 && steps[m] == Persist && steps[m + 1] == BeginAside
    && steps[m + 2] == FinishAside(config) && steps[m + 3] == RenameAside
  }

  method IngestAndPublish(
    p: Process, base: seq<Row>, batch: int, wanted: Digest, config: StoreConfig, ghost steps: seq<BuildStep>)
    returns (r: Ending)
    requires batch >= 1 && Did(p.dir, steps, 1)
    requires Follows(steps, Adds(Batches(base, batch, 0)), Publication.OfRows(base) == wanted, config)
    modifies p
    ensures var n := 1 + Reached(old(p.budget), |steps| - 1);
            && Did(p.dir, steps, n)
            && r == if n < |steps| then Broken else if Publication.OfRows(base) == wanted then Finished else Mismatch
  {
    ghost var ready, left, adds := p.dir, p.budget, Adds(Batches(base, batch, 0));
    var digest := IngestVectors(p, base, batch);
    DidIngest(ready, steps, adds, Reached(left, |adds|));
    SpentTwice(left, |adds|, |steps| - 1 - |adds|);
    if digest.Err? { return digest.error; }
    if digest.value != wanted { return Mismatch; }
    r := WriteConfig(p, config, steps, 1 + |adds|);
  }

  /** Persists, then writes the configuration aside and renames it. */
  method WriteConfig(p: Process, config: StoreConfig, ghost steps: seq<BuildStep>, ghost m: nat) returns (r: Ending)
    requires Publishes(steps, m, config) && Did(p.dir, steps, m)
    modifies p
    ensures var n := m + Reached(old(p.budget), 4);
            Did(p.dir, steps, n) && r == if n < |steps| then Broken else Finished
  {
    DidOneMore(p.dir, steps, m);
    var ok := p.Do(Persist);
    if !ok { return Broken; }
    DidOneMore(p.dir, steps, m + 1);
    ok := p.Do(BeginAside);
    if !ok { return Broken; }
    DidOneMore(p.dir, steps, m + 2);
    ok := p.Do(FinishAside(config));
    if !ok { return Broken; }
    DidOneMore(p.dir, steps, m + 3);
    ok := p.Do(RenameAside);
    r := if ok then Finished else Broken;
  }

  // ----- What a build leaves -----

  /** What the engine does when asked to build or serve; a build may break after some of its steps. */
  datatype Reply = Works | Lacks(feature: string) | Breaks(error: string, at: nat)

  datatype Engine = Engine(
    gitSha: string, version: string, overridable: bool,
    build: string -> Reply, kept: string -> nat, serve: string -> Reply, measure: string -> nat)

  datatype Failure = NeedsEngine(feature: string) | Raised(error: string)

  datatype Built = Built(store: Store, failure: Option<Failure>)

  predicate CommitSha(s: string) {
    |s| == 40 && Publication.HexChars(s)
  }

  function FailureOf(ending: Ending, error: string): Option<Failure> {
    match ending
    case Finished => None
    case BadBatch => Some(Raised("ingest batch must be positive"))
    case Mismatch => Some(Raised("ingested corpus does not match the manifest"))
    case Broken => Some(Raised(error))
  }

  /** The build half of one benchmark run; the directory after it, and how it ended. */
  function BuildStore(
    e: Engine, m: Manifest, base: seq<Row>, name: string, spec: StoreSpec, batch: int, dir: Store): Built
  {
    if dir.touched then Built(dir, Some(Raised("build target is not empty")))
    else if !CommitSha(e.gitSha) then Built(dir, Some(Raised("store builds require a builder commit")))
    else
      match e.build(name)
      case Lacks(feature) => Built(dir, Some(NeedsEngine(feature)))
      case Breaks(error, at) => BuildUpTo(PlanFor(e, m, base, spec, batch), Some(at), e.kept(name), error)
      case Works => BuildUpTo(PlanFor(e, m, base, spec, batch), None, e.kept(name), "")
  }

  function PlanFor(e: Engine, m: Manifest, base: seq<Row>, spec: StoreSpec, batch: int): Plan {
    PlanOf(base, batch, m.hashes.base, NewConfig(spec, m, e.gitSha, e.version))
  }

  /** The directory and the ending `RunBuild` leaves, once the process is gone. */
  function BuildUpTo(plan: Plan, budget: Option<nat>, kept: nat, error: string): Built {
    var n := Reached(budget, |plan.steps|);
    Built(Settle(Run(EMPTY_DIR, plan.steps[..n]), kept),
          FailureOf(if n < |plan.steps| then Broken else plan.ending, error))
  }

  lemma {:induction false} NoRenameNoConfig(s: Store, steps: seq<BuildStep>)
    requires forall i | 0 <= i < |steps| :: !steps[i].RenameAside?
    ensures Run(s, steps).config == s.config
  {
    if steps != [] { NoRenameNoConfig(s, steps[..|steps| - 1]); }
  }

  lemma {:induction false} RunAdds(s: Store, batches: seq<seq<(nat, Row)>>)
    ensures Run(s, Adds(batches)) == s.(pending := s.pending + Concat(batches))
  {
    if batches != [] {
      var n := |batches| - 1;
      RunAdds(s, batches[..n]);
      assert Adds(batches)[..n] == Adds(batches[..n]);
    }
  }

  /** After the ingest every row of the corpus is with the engine, once, under its own index. */
  lemma RunIngest(base: seq<Row>, batch: nat)
    requires batch >= 1
    ensures Run(EMPTY_DIR, [OpenDb] + Adds(Batches(base, batch, 0))) == Store(true, [], Numbered(base), None, None)
  {
    RunAppend(EMPTY_DIR, [OpenDb], Adds(Batches(base, batch, 0)));
    RunOneMore(EMPTY_DIR, [], OpenDb);
    assert [] + [OpenDb] == [OpenDb];
    RunAdds(EMPTY_DIR.(touched := true), Batches(base, batch, 0));
    BatchesCover(base, batch, 0);
  }

  lemma RunTail(s: Store, steps: seq<BuildStep>, config: StoreConfig)
    ensures Run(s, steps + [Persist, BeginAside, FinishAside(config), RenameAside])
            == var t := Run(s, steps); Store(t.touched, t.added + t.pending, [], None, Some(config))
  {
    var one := steps + [Persist];
    var two := one + [BeginAside];
    var three := two + [FinishAside(config)];
    RunOneMore(s, steps, Persist);
    RunOneMore(s, one, BeginAside);
    RunOneMore(s, two, FinishAside(config));
    RunOneMore(s, three, RenameAside);
    assert steps + [Persist, BeginAside, FinishAside(config), RenameAside] == three + [RenameAside];
  }

  /** A build that does its whole plan leaves exactly the corpus and its configuration. */
  lemma WholePlan(base: seq<Row>, batch: int, wanted: Digest, config: StoreConfig)
    requires PlanOf(base, batch, wanted, config).ending.Finished?
    ensures Run(EMPTY_DIR, PlanOf(base, batch, wanted, config).steps)
            == Store(true, Numbered(base), [], None, Some(config))
  {
    RunIngest(base, batch);
    RunTail(EMPTY_DIR, [OpenDb] + Adds(Batches(base, batch, 0)), config);
  }

  /** The configuration appears with the very last step of a finished build and no earlier. */
  lemma ConfigComesLast(base: seq<Row>, batch: int, wanted: Digest, config: StoreConfig, n: nat)
    requires n <= |PlanOf(base, batch, wanted, config).steps|
    ensures var plan := PlanOf(base, batch, wanted, config);
            Run(EMPTY_DIR, plan.steps[..n]).config.Some? <==> plan.ending.Finished? && n == |plan.steps|
  {
    var plan := PlanOf(base, batch, wanted, config);
    if plan.ending.Finished? && n == |plan.steps| {
      WholePlan(base, batch, wanted, config);
      assert plan.steps[..n] == plan.steps;
    } else {
      NoRenameNoConfig(EMPTY_DIR, plan.steps[..n]);
    }
  }

  /** A validated dataset: its identity is its own, and its base file has the declared number of rows. */
  predicate Dataset(m: Manifest, base: seq<Row>) {
    Publication.Loads(m) && |base| == m.rows
  }

  /** Cut after any step, with any part of the unpersisted rows on disk, a build leaves a well-built directory. */
  lemma CutIsWellBuilt(e: Engine, m: Manifest, base: seq<Row>, spec: StoreSpec, batch: int, n: nat, kept: nat)
    requires Dataset(m, base) && n <= |PlanFor(e, m, base, spec, batch).steps|
    ensures WellBuilt(Settle(Run(EMPTY_DIR, PlanFor(e, m, base, spec, batch).steps[..n]), kept))
  {
    var config := NewConfig(spec, m, e.gitSha, e.version);
    var plan := PlanOf(base, batch, m.hashes.base, config);
    ConfigComesLast(base, batch, m.hashes.base, config, n);
    if plan.ending.Finished? && n == |plan.steps| {
      assert plan.steps[..n] == plan.steps;
      WholePlan(base, batch, m.hashes.base, config);
    }
  }

  /** A build that reports success has added the whole corpus, and its configuration says so. */
  lemma BuildSucceeds(e: Engine, m: Manifest, base: seq<Row>, name: string, spec: StoreSpec, batch: int, dir: Store)
    requires BuildStore(e, m, base, name, spec, batch, dir).failure.None?
    ensures CommitSha(e.gitSha) && Publication.OfRows(base) == m.hashes.base
    ensures BuildStore(e, m, base, name, spec, batch, dir).store
            == Store(true, Numbered(base), [], None, Some(NewConfig(spec, m, e.gitSha, e.version)))
  {
    var config := NewConfig(spec, m, e.gitSha, e.version);
    var plan := PlanOf(base, batch, m.hashes.base, config);
    assert plan.steps[..|plan.steps|] == plan.steps;
    if plan.ending.Finished? { WholePlan(base, batch, m.hashes.base, config); }
  }

  /** However a build ends, the directory is well built; if the build failed, no configuration was added. */
  lemma BuildIsWellBuilt(e: Engine, m: Manifest, base: seq<Row>, name: string, spec: StoreSpec, batch: int, dir: Store)
    requires Dataset(m, base) && WellBuilt(dir)
    ensures var b := BuildStore(e, m, base, name, spec, batch, dir);
            WellBuilt(b.store) && (b.failure.Some? ==> b.store == dir || b.store.config.None?)
  {
    if !dir.touched && CommitSha(e.gitSha) && !e.build(name).Lacks? {
      var budget := if e.build(name).Breaks? then Some(e.build(name).at) else None;
      var plan := PlanFor(e, m, base, spec, batch);
      var n := Reached(budget, |plan.steps|);
      CutIsWellBuilt(e, m, base, spec, batch, n, e.kept(name));
      ConfigComesLast(base, batch, m.hashes.base, NewConfig(spec, m, e.gitSha, e.version), n);
    }
  }

  // ----- The guard -----

  datatype Overrides = Overrides(nprobe: Option<int>, oversample: Option<real>)

  const NO_OVERRIDES: Overrides := Overrides(None, None)

  function Guard(e: Engine, m: Manifest, spec: StoreSpec, o: Overrides, dir: Store): Result<StoreConfig, Failure> {
    if dir.config.None? then Err(Raised("existing store is missing its configuration"))
    else
      var c := dir.config.value;
      if !ConfigLoads(c) then Err(Raised("benchmark store configuration is invalid"))
      else if c.corpusId != m.corpusId then Err(Raised("existing store belongs to another corpus"))
      else if c.create != RequestedCreate(spec, m) then Err(Raised("existing store was created differently"))
      else if c.builder.layoutId != spec.layoutId then Err(Raised("existing store has another layout"))
      else if spec.expectedBuilder.Some? && c.builder.gitSha != spec.expectedBuilder.value then
        Err(Raised("existing store has another builder"))
      else if o.nprobe.Some? && o.nprobe != c.create.annNprobe && !e.overridable then
        Err(NeedsEngine("open-time ann_nprobe override"))
      else if o.oversample.Some? && o.oversample.value != c.create.oversample && !e.overridable then
        Err(NeedsEngine("open-time rescore oversample override"))
      else Ok(c)
  }

  // ----- Results and resuming -----

  datatype Measurement = Measurement(k: int, loopSeconds: real, loopConcurrency: int, queryCount: int)

  datatype RunSpec = RunSpec(
    name: string, evaluationId: Option<Digest>, storeId: StoreId, measurement: Measurement, overrides: Overrides)

  datatype BenchResult = BenchResult(
    schemaVersion: int, name: string, corpusId: Digest, evaluationId: Option<Digest>, exactTruth: bool,
    storeId: Option<StoreId>, measurement: Measurement, overrides: Overrides, serve: Option<nat>, runId: RunSpec)

  /** The result contract: agreement of ground truth and evaluation, and a run id of the result's own fields. */
  predicate ValidResult(r: BenchResult) {
    && r.schemaVersion == 2
    && r.evaluationId.Some? == r.exactTruth
    && (r.serve.Some? ==> r.exactTruth)
    && r.storeId.Some?
    && r.runId == RunSpec(r.name, r.evaluationId, r.storeId.value, r.measurement, r.overrides)
  }

  datatype ResultFile = Garbled | Complete(result: BenchResult)

  function LoadForResume(file: ResultFile, want: RunSpec): Result<BenchResult, Failure> {
    if file.Garbled? then Err(Raised("result cannot be resumed"))
    else if !ValidResult(file.result) then Err(Raised("result does not meet its contract"))
    else if file.result.runId != want then Err(Raised("result provenance does not match the requested run"))
    else Ok(file.result)
  }

  /** A result is resumed exactly when it is valid and each of its five identifying parts is the requested one. */
  lemma ResumeExact(file: ResultFile, want: RunSpec)
    ensures LoadForResume(file, want).Ok? <==>
            && file.Complete? && ValidResult(file.result)
            && file.result.name == want.name && file.result.evaluationId == want.evaluationId
            && file.result.storeId == Some(want.storeId) && file.result.measurement == want.measurement
            && file.result.overrides == want.overrides
  {
  }

  // ----- One configuration -----

  datatype ServeConfig = ServeConfig(name: string, store: string, overrides: Overrides)

  datatype Context = Context(
    engine: Engine, manifest: Manifest, base: seq<Row>, specs: map<string, StoreSpec>,
    batch: int, includeUnsupported: bool, loopSeconds: real, loopConcurrency: int)
  {
    predicate Valid() {
      && Dataset(manifest, base)
      && manifest.evaluationId.Some?
      && engine.version != ""
      && forall name | name in specs :: SaneSpec(specs[name])
    }

    function Measured(): Measurement {
      Measurement(100, loopSeconds, loopConcurrency, manifest.nQueries)
    }

    function Wanted(c: ServeConfig, config: StoreConfig): RunSpec {
      RunSpec(c.name, manifest.evaluationId, config.storeId, Measured(), c.overrides)
    }
  }

  /** A store the sweep may build does not pin somebody else's builder. */
  predicate SaneSpec(spec: StoreSpec) {
    spec.layoutId != "" && (spec.buildable ==> spec.expectedBuilder.None?)
  }

  const HISTORICAL: string := "historical pre-layout store is absent"

  datatype StoreReply =
    | Ready(store: Store)
    | Unavailable(store: Store, reason: string)
    | StoreAbort(store: Store, error: Failure)

  /** The store phase for one referenced store. */
  function PrepareStore(x: Context, name: string, dir: Store): StoreReply
    requires name in x.specs
  {
    var spec := x.specs[name];
    if dir.config.Some? then
      var g := Guard(x.engine, x.manifest, spec, NO_OVERRIDES, dir);
      if g.Ok? then Ready(dir) else StoreAbort(dir, g.error)
    else if !spec.buildable then Unavailable(dir, HISTORICAL)
    else
      var b := BuildStore(x.engine, x.manifest, x.base, name, spec, x.batch, dir);
      if b.failure.None? then Ready(b.store)
      else if b.failure.value.NeedsEngine? && x.includeUnsupported then Unavailable(b.store, b.failure.value.feature)
      else StoreAbort(b.store, b.failure.value)
  }

  datatype ServeReply = Done(file: ResultFile) | Skip(reason: string) | ServeAbort(error: Failure)

  /** The serving half of one benchmark run. */
  function ServeStore(x: Context, c: ServeConfig, spec: StoreSpec, dir: Store): Result<BenchResult, Failure> {
    var g := Guard(x.engine, x.manifest, spec, c.overrides, dir);
    if g.Err? then Err(g.error)
    else
      match x.engine.serve(c.name)
      case Lacks(feature) => Err(NeedsEngine(feature))
      case Breaks(error, _) => Err(Raised(error))
      case Works =>
        Ok(BenchResult(2, c.name, x.manifest.corpusId, x.manifest.evaluationId, true, Some(g.value.storeId),
                       x.Measured(), c.overrides, Some(x.engine.measure(c.name)), x.Wanted(c, g.value)))
  }

  /** The serve phase for one selected configuration. */
  function ServeLabel(
    x: Context, c: ServeConfig, dir: Store, missing: Option<string>, existing: Option<ResultFile>): ServeReply
    requires c.store in x.specs
  {
    if missing.Some? then Skip(missing.value)
    else if existing.Some? then
      if dir.config.None? || !ConfigLoads(dir.config.value) then
        ServeAbort(Raised("store configuration cannot be loaded"))
      else
        var resumed := LoadForResume(existing.value, x.Wanted(c, dir.config.value));
        if resumed.Ok? then Done(existing.value) else ServeAbort(resumed.error)
    else
      var served := ServeStore(x, c, x.specs[c.store], dir);
      if served.Ok? then Done(Complete(served.value))
      else if served.error.NeedsEngine? && x.includeUnsupported then Skip(served.error.feature)
      else ServeAbort(served.error)
  }

  // ----- When the two phases succeed -----

  /** The store's configuration is the one asked for. */
  predicate Fits(m: Manifest, spec: StoreSpec, dir: Store) {
    && dir.config.Some?
    && var c := dir.config.value;
       && ConfigLoads(c) && c.corpusId == m.corpusId && c.create == RequestedCreate(spec, m)
       && c.builder.layoutId == spec.layoutId
       && (spec.expectedBuilder.Some? ==> c.builder.gitSha == spec.expectedBuilder.value)
  }

  /** An override changes something the engine cannot change on reopening. */
  predicate Unsupported(e: Engine, o: Overrides, create: Create) {
    && !e.overridable
    && ((o.nprobe.Some? && o.nprobe != create.annNprobe) ||
        (o.oversample.Some? && o.oversample.value != create.oversample))
  }

  /** The guard passes exactly stores that fit, under overrides the engine supports. */
  lemma GuardExact(e: Engine, m: Manifest, spec: StoreSpec, o: Overrides, dir: Store)
    ensures var g := Guard(e, m, spec, o, dir);
            && (g.Ok? <==> Fits(m, spec, dir) && !Unsupported(e, o, dir.config.value.create))
            && (g.Ok? ==> dir.config == Some(g.value))
            && (g.Err? && g.error.NeedsEngine? <==> Fits(m, spec, dir) && Unsupported(e, o, dir.config.value.create))
  {
  }

  /** The engine can serve the configuration from the store. */
  predicate Serves(x: Context, c: ServeConfig, spec: StoreSpec, dir: Store) {
    && Fits(x.manifest, spec, dir) && !Unsupported(x.engine, c.overrides, dir.config.value.create)
    && x.engine.serve(c.name).Works?
  }

  /** It lacks something the configuration needs. */
  predicate CannotServe(x: Context, c: ServeConfig, spec: StoreSpec, dir: Store) {
    && Fits(x.manifest, spec, dir)
    && (Unsupported(x.engine, c.overrides, dir.config.value.create) || x.engine.serve(c.name).Lacks?)
  }

  /**
   When a label is completed and when it is skipped.  Without a result it is completed exactly if its
   store is usable and the engine serves it, with what the engine measured under the requested
   identity; with one exactly if that can be resumed.  It is skipped exactly if its store is
   unusable, or the engine lacks something and unsupported labels are included.
   */
  lemma ServeLabelExact(x: Context, c: ServeConfig, dir: Store, missing: Option<string>, existing: Option<ResultFile>)
    requires x.Valid() && c.store in x.specs
    ensures var reply, spec := ServeLabel(x, c, dir, missing, existing), x.specs[c.store];
            && (existing.None? ==> (reply.Done? <==> missing.None? && Serves(x, c, spec, dir)))
            && (existing.None? && reply.Done? ==>
                  && reply.file.Complete? && ValidResult(reply.file.result)
                  && reply.file.result.runId == x.Wanted(c, dir.config.value)
                  && reply.file.result.serve == Some(x.engine.measure(c.name)))
            && (existing.Some? ==>
                  (reply.Done? <==>
                     && missing.None? && dir.config.Some? && ConfigLoads(dir.config.value)
                     && LoadForResume(existing.value, x.Wanted(c, dir.config.value)).Ok?))
            && (existing.Some? && reply.Done? ==> reply.file == existing.value)
            && (reply.Skip? <==>
                  missing.Some? || (existing.None? && x.includeUnsupported && CannotServe(x, c, spec, dir)))
  {
    GuardExact(x.engine, x.manifest, x.specs[c.store], c.overrides, dir);
  }

  /** Nothing keeps the engine from finishing the build. */
  predicate Builds(e: Engine, m: Manifest, base: seq<Row>, name: string, spec: StoreSpec, batch: int, dir: Store) {
    && !dir.touched && CommitSha(e.gitSha) && batch >= 1 && Publication.OfRows(base) == m.hashes.base
    && (e.build(name).Works? || (e.build(name).Breaks? && e.build(name).at >= |PlanFor(e, m, base, spec, batch).steps|))
  }

  lemma BuildExact(e: Engine, m: Manifest, base: seq<Row>, name: string, spec: StoreSpec, batch: int, dir: Store)
    ensures var b := BuildStore(e, m, base, name, spec, batch, dir);
            && (b.failure.None? <==> Builds(e, m, base, name, spec, batch, dir))
            && (b.failure.Some? && b.failure.value.NeedsEngine? <==>
                  !dir.touched && CommitSha(e.gitSha) && e.build(name).Lacks?)
  {
  }

  /**
   When a store is ready.  One with a configuration exactly if that is the one asked for, one without
   exactly if it may be built and is; it is put aside exactly if it may not be built, or the engine
   lacks something and unsupported stores are included.
   */
  lemma PrepareStoreExact(x: Context, name: string, dir: Store)
    requires x.Valid() && name in x.specs
    ensures var p, spec, e := PrepareStore(x, name, dir), x.specs[name], x.engine;
            && (p.Ready? <==>
                  if dir.config.Some? then Fits(x.manifest, spec, dir)
                  else spec.buildable && Builds(e, x.manifest, x.base, name, spec, x.batch, dir))
            && (p.Unavailable? <==>
                  && dir.config.None?
                  && (!spec.buildable ||
                      (x.includeUnsupported && !dir.touched && CommitSha(e.gitSha) && e.build(name).Lacks?)))
  {
    GuardExact(x.engine, x.manifest, x.specs[name], NO_OVERRIDES, dir);
    BuildExact(x.engine, x.manifest, x.base, name, x.specs[name], x.batch, dir);
  }

  // ----- What the two phases keep -----

  /** Preparing keeps every configured store a finished build, and ready stores are configured. */
  lemma PrepareKeepsWellBuilt(x: Context, name: string, dir: Store)
    requires x.Valid() && name in x.specs && WellBuilt(dir)
    ensures WellBuilt(PrepareStore(x, name, dir).store)
    ensures PrepareStore(x, name, dir).Ready? ==> PrepareStore(x, name, dir).store.config.Some?
  {
    var spec := x.specs[name];
    BuildIsWellBuilt(x.engine, x.manifest, x.base, name, spec, x.batch, dir);
    if BuildStore(x.engine, x.manifest, x.base, name, spec, x.batch, dir).failure.None? {
      BuildSucceeds(x.engine, x.manifest, x.base, name, spec, x.batch, dir);
    }
  }

  /**
   A store already prepared is prepared again with the same answer.  One that is ready is found
   ready with any engine whatsoever, so no engine is asked to build it.
   */
  lemma PrepareAgain(x: Context, e: Engine, name: string, dir: Store)
    requires x.Valid() && name in x.specs && !PrepareStore(x, name, dir).StoreAbort?
    ensures var p := PrepareStore(x, name, dir);
            && PrepareStore(x, name, p.store) == p
            && (p.Ready? ==> PrepareStore(x.(engine := e), name, p.store) == p)
  {
    var spec := x.specs[name];
    if BuildStore(x.engine, x.manifest, x.base, name, spec, x.batch, dir).failure.None? {
      BuildSucceeds(x.engine, x.manifest, x.base, name, spec, x.batch, dir);
    }
  }

  /**
   A configuration already answered gets the same answer.  One that was completed gets it from its
   file with any engine whatsoever, so no engine is asked to serve it.
   */
  lemma ServeAgain(
    x: Context, e: Engine, c: ServeConfig, dir: Store, missing: Option<string>, existing: Option<ResultFile>)
    requires x.Valid() && c.store in x.specs
    ensures var first := ServeLabel(x, c, dir, missing, existing);
            && (first.Done? ==> ServeLabel(x.(engine := e), c, dir, missing, Some(first.file)) == first)
            && (first.Skip? ==> existing.None? || missing.Some?)
            && (!first.ServeAbort? ==> ServeLabel(x, c, dir, missing, FileAfter(first, existing)) == first)
  {
  }

  /** What is measured is the manifest's own corpus, every row of it under its own id. */
  lemma ServedCorpus(x: Context, c: ServeConfig, dir: Store)
    requires x.Valid() && c.store in x.specs && WellBuilt(dir)
    requires ServeStore(x, c, x.specs[c.store], dir).Ok?
    ensures dir.config.Some? && dir.config.value.corpusId == x.manifest.corpusId
    ensures dir.config.value.create == RequestedCreate(x.specs[c.store], x.manifest)
    ensures dir.config.value.builder.layoutId == x.specs[c.store].layoutId
    ensures x.specs[c.store].expectedBuilder.Some? ==>
              dir.config.value.builder.gitSha == x.specs[c.store].expectedBuilder.value
    ensures x.manifest.hashes.base.OfRows? && dir.added == Numbered(x.manifest.hashes.base.data)
    ensures |dir.added| == x.manifest.rows
  {
  }

  /** A store id pins the store: equal ids mean the same rows under the same ids, created alike by the same builder. */
  lemma StoreIdPinsContents(a: Store, b: Store)
    requires WellBuilt(a) && WellBuilt(b) && a.config.Some? && b.config.Some?
    requires ConfigLoads(a.config.value) && ConfigLoads(b.config.value)
    requires a.config.value.storeId == b.config.value.storeId
    ensures a.added == b.added && a.config == b.config
  {
  }

  /** Any history of one store directory: sweeps prepare it, and a build in an empty one may crash after any step. */
  datatype Event = Prepared(x: Context, name: string) | BuildCrashed(x: Context, name: string, n: nat, kept: nat)

  predicate Possible(dir: Store, event: Event) {
    && event.x.Valid() && event.name in event.x.specs
    && (event.BuildCrashed? ==>
          && !dir.touched && dir.config.None? && CommitSha(event.x.engine.gitSha)
          && event.n <= |PlanIn(event.x, event.name).steps|)
  }

  function PlanIn(x: Context, name: string): Plan
    requires name in x.specs
  {
    PlanFor(x.engine, x.manifest, x.base, x.specs[name], x.batch)
  }

  function AfterEvent(dir: Store, event: Event): Store
    requires Possible(dir, event)
  {
    match event
    case Prepared(x, name) => PrepareStore(x, name, dir).store
    case BuildCrashed(x, name, n, kept) => Settle(Run(EMPTY_DIR, PlanIn(x, name).steps[..n]), kept)
  }

  /** In every reachable store directory a configuration file means a complete, verified build. */
  lemma {:induction false} AlwaysWellBuilt(dirs: seq<Store>, events: seq<Event>, k: nat)
    requires |dirs| == |events| + 1 && k < |dirs| && dirs[0] == EMPTY_DIR
    requires forall i | 0 <= i < |events| ::
               Possible(dirs[i], events[i]) && dirs[i + 1] == AfterEvent(dirs[i], events[i])
    ensures WellBuilt(dirs[k])
  {
    if k > 0 {
      AlwaysWellBuilt(dirs, events, k - 1);
      assert Possible(dirs[k - 1], events[k - 1]) && dirs[k] == AfterEvent(dirs[k - 1], events[k - 1]);
      match events[k - 1]
      case Prepared(x, name) => PrepareKeepsWellBuilt(x, name, dirs[k - 1]);
      case BuildCrashed(x, name, n, kept) =>
        CutIsWellBuilt(x.engine, x.manifest, x.base, x.specs[name], x.batch, n, kept);
    }
  }

  // ----- The whole sweep -----

  type Stores = map<string, Store>
  type Results = map<string, ResultFile>

  datatype Skipped = Skipped(name: string, reason: string)

  datatype Summary = Summary(completed: seq<string>, skipped: seq<Skipped>)

  function DirOf(stores: Stores, name: string): Store {
    if name in stores then stores[name] else EMPTY_DIR
  }

  function FileOf(results: Results, name: string): Option<ResultFile> {
    if name in results then Some(results[name]) else None
  }

  predicate Known(x: Context, selected: seq<ServeConfig>) {
    forall i | 0 <= i < |selected| :: selected[i].store in x.specs
  }

  function ReasonOf(reply: StoreReply): Option<string> {
    if reply.Unavailable? then Some(reply.reason) else None
  }

  /** The answer one configuration gets, from the state the sweep started in. */
  function Answer(x: Context, c: ServeConfig, stores: Stores, results: Results): ServeReply
    requires c.store in x.specs
  {
    var p := PrepareStore(x, c.store, DirOf(stores, c.store));
    ServeLabel(x, c, p.store, ReasonOf(p), FileOf(results, c.name))
  }

  predicate Succeeds(x: Context, selected: seq<ServeConfig>, stores: Stores, results: Results)
    requires Known(x, selected)
  {
    forall i | 0 <= i < |selected| ::
      && !PrepareStore(x, selected[i].store, DirOf(stores, selected[i].store)).StoreAbort?
      && !Answer(x, selected[i], stores, results).ServeAbort?
  }

  function Answers(x: Context, selected: seq<ServeConfig>, stores: Stores, results: Results): (r: seq<ServeReply>)
    requires Known(x, selected)
    ensures |r| == |selected|
  {
    seq(|selected|, i requires 0 <= i < |selected| && selected[i].store in x.specs =>
      Answer(x, selected[i], stores, results))
  }

  function CompletedOf(selected: seq<ServeConfig>, answers: seq<ServeReply>): seq<string>
    requires |answers| == |selected|
  {
    if selected == [] then []
    else
      var n := |selected| - 1;
      CompletedOf(selected[..n], answers[..n]) + if answers[n].Done? then [selected[n].name] else []
  }

  function SkippedOf(selected: seq<ServeConfig>, answers: seq<ServeReply>): seq<Skipped>
    requires |answers| == |selected|
  {
    if selected == [] then []
    else
      var n := |selected| - 1;
      SkippedOf(selected[..n], answers[..n])
      + if answers[n].Skip? then [Skipped(selected[n].name, answers[n].reason)] else []
  }

  function SummaryOf(selected: seq<ServeConfig>, answers: seq<ServeReply>): Summary
    requires |answers| == |selected|
  {
    Summary(CompletedOf(selected, answers), SkippedOf(selected, answers))
  }

  /** The directories and files a successful sweep leaves. */
  ghost predicate Left(
    x: Context, selected: seq<ServeConfig>, stores: Stores, results: Results, stores': Stores, results': Results)
    requires Known(x, selected)
  {
    && (forall i | 0 <= i < |selected| ::
          DirOf(stores', selected[i].store)
          == PrepareStore(x, selected[i].store, DirOf(stores, selected[i].store)).store)
    && FilesLeft(NamesOf(selected), Answers(x, selected, stores, results), results, results')
  }

  /** A completed configuration has its file; all others are as they were. */
  ghost predicate FilesLeft(names: seq<string>, answers: seq<ServeReply>, results: Results, results': Results)
    requires |answers| == |names|
  {
    && (forall i | 0 <= i < |names| :: FileOf(results', names[i]) == FileAfter(answers[i], FileOf(results, names[i])))
    && (forall n | n !in names :: FileOf(results', n) == FileOf(results, n))
  }

  function FileAfter(answer: ServeReply, before: Option<ResultFile>): Option<ResultFile> {
    if answer.Done? then Some(answer.file) else before
  }

  /** The next sweep gets the same answer for the configuration, and leaves its store and file alone. */
  lemma AnswerAgain(
    x: Context, e: Engine, c: ServeConfig, stores: Stores, results: Results, stores': Stores, results': Results)
    requires x.Valid() && c.store in x.specs
    requires var p := PrepareStore(x, c.store, DirOf(stores, c.store));
             !p.StoreAbort? && DirOf(stores', c.store) == p.store
    requires !Answer(x, c, stores, results).ServeAbort?
    requires FileOf(results', c.name) == FileAfter(Answer(x, c, stores, results), FileOf(results, c.name))
    ensures PrepareStore(x, c.store, DirOf(stores', c.store)) == PrepareStore(x, c.store, DirOf(stores, c.store))
    ensures Answer(x, c, stores', results') == Answer(x, c, stores, results)
    ensures FileAfter(Answer(x, c, stores', results'), FileOf(results', c.name)) == FileOf(results', c.name)
    ensures Answer(x, c, stores, results).Done? ==> FromDisk(x.(engine := e), c, stores', results')
  {
    var dir := DirOf(stores, c.store);
    PrepareAgain(x, e, c.store, dir);
    var p := PrepareStore(x, c.store, dir);
    ServeAgain(x, x.engine, c, p.store, ReasonOf(p), FileOf(results, c.name));
    ServeAgain(x, e, c, p.store, ReasonOf(p), FileOf(results, c.name));
    assert x.(engine := x.engine) == x;
  }

  /** The configuration's store is ready as it is, and its answer is the file it already has. */
  predicate FromDisk(x: Context, c: ServeConfig, stores: Stores, results: Results)
    requires c.store in x.specs
  {
    && PrepareStore(x, c.store, DirOf(stores, c.store)) == Ready(DirOf(stores, c.store))
    && c.name in results && Answer(x, c, stores, results) == Done(results[c.name])
  }

  /**
   Rerunning a sweep that returned yields the same answers and leaves every directory and file alone.
   Every completed configuration is answered from the disk whatever the engine would do now: no
   store of it is built and it is not served again.
   */
  lemma RerunIsIdle(
    x: Context, e: Engine, selected: seq<ServeConfig>, stores: Stores, results: Results,
    stores': Stores, results': Results)
    requires x.Valid() && Known(x, selected) && Succeeds(x, selected, stores, results)
    requires Left(x, selected, stores, results, stores', results')
    ensures Succeeds(x, selected, stores', results')
    ensures Left(x, selected, stores', results', stores', results')
    ensures Answers(x, selected, stores', results') == Answers(x, selected, stores, results)
    ensures forall i | 0 <= i < |selected| && Answers(x, selected, stores, results)[i].Done? ::
              FromDisk(x.(engine := e), selected[i], stores', results')
  {
    var names, answers := NamesOf(selected), Answers(x, selected, stores, results);
    var answers' := Answers(x, selected, stores', results');
    forall i | 0 <= i < |selected|
      ensures answers'[i] == answers[i] == Answer(x, selected[i], stores', results')
      ensures PrepareStore(x, selected[i].store, DirOf(stores', selected[i].store)).store
              == DirOf(stores', selected[i].store)
      ensures !PrepareStore(x, selected[i].store, DirOf(stores', selected[i].store)).StoreAbort?
      ensures FileOf(results', names[i]) == FileAfter(answers'[i], FileOf(results', names[i]))
      ensures answers[i].Done? ==> FromDisk(x.(engine := e), selected[i], stores', results')
    {
      assert FileOf(results', names[i]) == FileAfter(answers[i], FileOf(results, names[i]));
      AnswerAgain(x, e, selected[i], stores, results, stores', results');
    }
  }

  // ----- Partition and order -----

  function NamesOf(selected: seq<ServeConfig>): (r: seq<string>)
    ensures |r| == |selected|
  {
    seq(|selected|, i requires 0 <= i < |selected| => selected[i].name)
  }

  function SkippedNames(skipped: seq<Skipped>): (r: seq<string>)
    ensures |r| == |skipped|
  {
    seq(|skipped|, i requires 0 <= i < |skipped| => skipped[i].name)
  }

  /** `parts` interleaves to `all`, keeping the order of both. */
  ghost predicate Interleaves(a: seq<string>, b: seq<string>, all: seq<string>) {
    if all == [] then a == [] && b == []
    else
      var n := |all| - 1;
      || (a != [] && a[|a| - 1] == all[n] && Interleaves(a[..|a| - 1], b, all[..n]))
      || (b != [] && b[|b| - 1] == all[n] && Interleaves(a, b[..|b| - 1], all[..n]))
  }

  lemma InterleavesLeft(a: seq<string>, b: seq<string>, all: seq<string>, name: string)
    requires Interleaves(a, b, all)
    ensures Interleaves(a + [name], b, all + [name])
  {
    assert (a + [name])[..|a|] == a && (all + [name])[..|all|] == all;
  }

  lemma InterleavesRight(a: seq<string>, b: seq<string>, all: seq<string>, name: string)
    requires Interleaves(a, b, all)
    ensures Interleaves(a, b + [name], all + [name])
  {
    assert (b + [name])[..|b|] == b && (all + [name])[..|all|] == all;
  }

  /** Each selected configuration is in exactly one of the two lists, in configuration order. */
  lemma {:induction false} SweepPartitions(selected: seq<ServeConfig>, answers: seq<ServeReply>)
    requires |answers| == |selected| && forall i | 0 <= i < |answers| :: !answers[i].ServeAbort?
    ensures Interleaves(CompletedOf(selected, answers), SkippedNames(SkippedOf(selected, answers)), NamesOf(selected))
  {
    if selected != [] {
      var n := |selected| - 1;
      var front, frontAnswers, name := selected[..n], answers[..n], selected[n].name;
      SweepPartitions(front, frontAnswers);
      assert NamesOf(selected) == NamesOf(front) + [name];
      var a, b := CompletedOf(front, frontAnswers), SkippedOf(front, frontAnswers);
      if answers[n].Done? {
        InterleavesLeft(a, SkippedNames(b), NamesOf(front), name);
        assert SkippedOf(selected, answers) == b;
      } else {
        InterleavesRight(a, SkippedNames(b), NamesOf(front), name);
        assert SkippedNames(SkippedOf(selected, answers)) == SkippedNames(b) + [name];
        assert CompletedOf(selected, answers) == a;
      }
    }
  }

  /** With distinct names the two lists share none. */
  lemma {:induction false} InterleavesDisjoint(a: seq<string>, b: seq<string>, all: seq<string>, name: string)
    requires Interleaves(a, b, all) && NoDuplicates(all)
    ensures name in all <==> name in a || name in b
    ensures !(name in a && name in b)
  {
    if all != [] {
      var n := |all| - 1;
      assert all == all[..n] + [all[n]];
      assert NoDuplicates(all[..n]);
      if a != [] && a[|a| - 1] == all[n] && Interleaves(a[..|a| - 1], b, all[..n]) {
        assert a == a[..|a| - 1] + [all[n]];
        InterleavesDisjoint(a[..|a| - 1], b, all[..n], name);
        InterleavesDisjoint(a[..|a| - 1], b, all[..n], all[n]);
      } else {
        assert b == b[..|b| - 1] + [all[n]];
        InterleavesDisjoint(a, b[..|b| - 1], all[..n], name);
        InterleavesDisjoint(a, b[..|b| - 1], all[..n], all[n]);
      }
    }
  }

  // ----- The sweep as it runs -----

  /** The stores the selection refers to, each once, in order of first use. */
  method ReferencedStores(selected: seq<ServeConfig>) returns (names: seq<string>)
    ensures NoDuplicates(names)
    ensures forall i | 0 <= i < |selected| :: selected[i].store in names
    ensures forall n | n in names :: exists i | 0 <= i < |selected| :: selected[i].store == n
  {
    names := [];
    for i := 0 to |selected|
      invariant NoDuplicates(names)
      invariant forall j | 0 <= j < i :: selected[j].store in names
      invariant forall n | n in names :: exists j | 0 <= j < i :: selected[j].store == n
    {
      if selected[i].store !in names { names := names + [selected[i].store]; }
    }
  }

  ghost predicate AllWellBuilt(stores: Stores) {
    forall n | n in stores :: WellBuilt(stores[n])
  }

  class Workspace {
    var stores: Stores
    var results: Results
    var summary: Option<Summary>

    constructor ()
      ensures stores == map[] && results == map[] && summary == None
    {
      stores, results, summary := map[], map[], None;
    }

    /**
     Runs the missing part of the sweep.  It returns exactly when no configuration aborts, and
     then leaves the directories, files and summary its inputs determine; stores stay well built
     however it ends.
     */
    method RunSweep(x: Context, selected: seq<ServeConfig>) returns (r: Result<Summary, Failure>)
      requires x.Valid() && Known(x, selected) && NoDuplicates(NamesOf(selected)) && AllWellBuilt(stores)
      modifies this
      ensures AllWellBuilt(stores)
      ensures r.Ok? <==> Succeeds(x, selected, old(stores), old(results))
      ensures r.Ok? ==> r.value == SummaryOf(selected, Answers(x, selected, old(stores), old(results)))
      ensures r.Ok? ==> summary == Some(r.value)
      ensures r.Ok? ==> Left(x, selected, old(stores), old(results), stores, results)
    {
      var names := ReferencedStores(selected);
      assert forall i | 0 <= i < |names| :: names[i] in names;
      var prepared, missing, failure := PrepareAll(x, names, stores);
      ghost var first, before := stores, results;
      stores := prepared;
      SucceedsExactly(x, selected, first, before);
      if failure.Some? {
        AbortsSomewhere(x, selected, first, names);
        return Err(failure.value);
      }
      AllReady(x, selected, missing, first, stores, names);
      RepliesAreAnswers(x, selected, missing, first, stores, results);
      var files, done, aborted := ServeLoop(ServerOf(x, missing, stores), selected, results);
      results := files;
      if aborted.Some? { return Err(aborted.value); }
      summary := Some(done);
      r := Ok(done);
    }
  }

  function ReasonIn(missing: map<string, string>, name: string): Option<string> {
    if name in missing then Some(missing[name]) else None
  }

  /** The store is prepared, and `missing` says whether it cannot be used and why. */
  ghost predicate PreparedAs(x: Context, name: string, missing: map<string, string>, first: Stores, stores: Stores)
    requires name in x.specs
  {
    var p := PrepareStore(x, name, DirOf(first, name));
    !p.StoreAbort? && DirOf(stores, name) == p.store && ReasonOf(p) == ReasonIn(missing, name)
  }

  ghost predicate ReadyFor(
    x: Context, selected: seq<ServeConfig>, missing: map<string, string>, first: Stores, stores: Stores)
    requires Known(x, selected)
  {
    forall i | 0 <= i < |selected| :: PreparedAs(x, selected[i].store, missing, first, stores)
  }

  /** The first `i` stores are prepared, the others as they were. */
  ghost predicate PreparedTo(
    x: Context, names: seq<string>, i: nat, missing: map<string, string>, first: Stores, stores: Stores)
    requires i <= |names| && forall j | 0 <= j < |names| :: names[j] in x.specs
  {
    && (forall j | i <= j < |names| :: DirOf(stores, names[j]) == DirOf(first, names[j]) && names[j] !in missing)
    && (forall j | 0 <= j < i :: PreparedAs(x, names[j], missing, first, stores))
  }

  /** Writing down one reply leaves what the other stores got. */
  lemma PreparedMore(
    x: Context, names: seq<string>, i: nat, missing: map<string, string>, first: Stores, stores: Stores, p: StoreReply)
    requires i < |names| && NoDuplicates(names) && forall j | 0 <= j < |names| :: names[j] in x.specs
    requires PreparedTo(x, names, i, missing, first, stores)
    requires p == PrepareStore(x, names[i], DirOf(first, names[i])) && !p.StoreAbort?
    ensures var missing' := if p.Unavailable? then missing[names[i] := p.reason] else missing;
            PreparedTo(x, names, i + 1, missing', first, stores[names[i] := p.store])
  {
    var missing' := if p.Unavailable? then missing[names[i] := p.reason] else missing;
    forall j | 0 <= j < i ensures PreparedAs(x, names[j], missing', first, stores[names[i] := p.store]) {
      assert PreparedAs(x, names[j], missing, first, stores) && names[j] != names[i];
    }
  }

  /** The build-or-validate loop; `missing` maps the stores that cannot be used to the reason. */
  method PrepareAll(x: Context, names: seq<string>, stores: Stores)
    returns (prepared: Stores, missing: map<string, string>, failure: Option<Failure>)
    requires x.Valid() && NoDuplicates(names) && AllWellBuilt(stores)
    requires forall i | 0 <= i < |names| :: names[i] in x.specs
    ensures AllWellBuilt(prepared)
    ensures failure.Some? <==>
            exists i | 0 <= i < |names| :: PrepareStore(x, names[i], DirOf(stores, names[i])).StoreAbort?
    ensures failure.None? ==> forall i | 0 <= i < |names| :: PreparedAs(x, names[i], missing, stores, prepared)
  {
    prepared, missing := stores, map[];
    for i := 0 to |names|
      invariant AllWellBuilt(prepared) && PreparedTo(x, names, i, missing, stores, prepared)
    {
      var n := names[i];
      PrepareKeepsWellBuilt(x, n, DirOf(prepared, n));
      var p := PrepareStore(x, n, DirOf(prepared, n));
      if !p.StoreAbort? { PreparedMore(x, names, i, missing, stores, prepared, p); }
      prepared := prepared[n := p.store];
      if p.StoreAbort? { return prepared, missing, Some(p.error); }
      if p.Unavailable? { missing := missing[n := p.reason]; }
    }
    failure := None;
  }

  lemma AllReady(
    x: Context, selected: seq<ServeConfig>, missing: map<string, string>, first: Stores, stores: Stores,
    names: seq<string>)
    requires Known(x, selected) && (forall i | 0 <= i < |selected| :: selected[i].store in names)
    requires forall i | 0 <= i < |names| :: names[i] in x.specs && PreparedAs(x, names[i], missing, first, stores)
    ensures ReadyFor(x, selected, missing, first, stores)
  {
  }

  lemma AbortsSomewhere(x: Context, selected: seq<ServeConfig>, first: Stores, names: seq<string>)
    requires Known(x, selected) && forall n | n in names :: exists i | 0 <= i < |selected| :: selected[i].store == n
    requires exists i | 0 <= i < |names| ::
               names[i] in x.specs && PrepareStore(x, names[i], DirOf(first, names[i])).StoreAbort?
    ensures exists i | 0 <= i < |selected| ::
            PrepareStore(x, selected[i].store, DirOf(first, selected[i].store)).StoreAbort?
  {
    var i :| 0 <= i < |names| && names[i] in x.specs && PrepareStore(x, names[i], DirOf(first, names[i])).StoreAbort?;
    assert names[i] in names;
    var j :| 0 <= j < |selected| && selected[j].store == names[i];
  }

  lemma SucceedsExactly(x: Context, selected: seq<ServeConfig>, stores: Stores, results: Results)
    requires Known(x, selected)
    ensures Succeeds(x, selected, stores, results) <==>
            && (forall i | 0 <= i < |selected| ::
                  !PrepareStore(x, selected[i].store, DirOf(stores, selected[i].store)).StoreAbort?)
            && !exists a | a in Answers(x, selected, stores, results) :: a.ServeAbort?
  {
    var answers := Answers(x, selected, stores, results);
    assert forall i | 0 <= i < |selected| :: answers[i] == Answer(x, selected[i], stores, results);
    if forall a | a in answers :: !a.ServeAbort? {
      forall i | 0 <= i < |selected| ensures !Answer(x, selected[i], stores, results).ServeAbort? {
        assert answers[i] in answers;
      }
    }
  }

  /** How one configuration is answered, given its result file if there is one. */
  type Server = (ServeConfig, Option<ResultFile>) -> ServeReply

  function Replies(serve: Server, selected: seq<ServeConfig>, results: Results): (r: seq<ServeReply>)
    ensures |r| == |selected|
  {
    seq(|selected|, i requires 0 <= i < |selected| => serve(selected[i], FileOf(results, selected[i].name)))
  }

  /** The serve-or-resume loop. */
  method ServeLoop(serve: Server, selected: seq<ServeConfig>, results: Results)
    returns (files: Results, done: Summary, failure: Option<Failure>)
    requires NoDuplicates(NamesOf(selected))
    ensures failure.Some? <==> exists a | a in Replies(serve, selected, results) :: a.ServeAbort?
    ensures failure.None? ==> done == SummaryOf(selected, Replies(serve, selected, results))
    ensures failure.None? ==> FilesLeft(NamesOf(selected), Replies(serve, selected, results), results, files)
  {
    ghost var answers, names := Replies(serve, selected, results), NamesOf(selected);
    var completed: seq<string>, skipped: seq<Skipped> := [], [];
    files := results;
    for i := 0 to |selected|
      invariant forall j | 0 <= j < i :: !answers[j].ServeAbort?
      invariant completed == CompletedOf(selected[..i], answers[..i])
                && skipped == SkippedOf(selected[..i], answers[..i])
      invariant FilesLeft(names[..i], answers[..i], results, files)
    {
      var c := selected[i];
      FreshName(names, answers, results, files, i);
      var reply := serve(c, FileOf(files, c.name));
      assert reply == answers[i];
      if reply.ServeAbort? {
        assert answers[i] in answers;
        return files, Summary([], []), Some(reply.error);
      }
      ListsStep(selected, answers, i);
      FilesStep(names, answers, results, files, i);
      files := if reply.Done? then files[c.name := reply.file] else files;
      completed := completed + if reply.Done? then [c.name] else [];
      skipped := skipped + if reply.Skip? then [Skipped(c.name, reply.reason)] else [];
    }
    assert selected[..|selected|] == selected && answers[..|selected|] == answers && names[..|selected|] == names;
    done, failure := Summary(completed, skipped), None;
  }

  function ServerOf(x: Context, missing: map<string, string>, stores: Stores): Server {
    (c: ServeConfig, file: Option<ResultFile>) =>
      if c.store in x.specs then ServeLabel(x, c, DirOf(stores, c.store), ReasonIn(missing, c.store), file)
      else ServeAbort(Raised("unknown store"))
  }

  /** Over prepared stores the loop gives the answers the sweep's inputs determine. */
  lemma RepliesAreAnswers(
    x: Context, selected: seq<ServeConfig>, missing: map<string, string>, first: Stores, stores: Stores,
    results: Results)
    requires Known(x, selected) && ReadyFor(x, selected, missing, first, stores)
    ensures Replies(ServerOf(x, missing, stores), selected, results) == Answers(x, selected, first, results)
  {
    forall i | 0 <= i < |selected|
      ensures Replies(ServerOf(x, missing, stores), selected, results)[i] == Answers(x, selected, first, results)[i]
    {
      assert PreparedAs(x, selected[i].store, missing, first, stores);
    }
  }

  lemma FreshName(names: seq<string>, answers: seq<ServeReply>, results: Results, results': Results, i: nat)
    requires |answers| == |names| && NoDuplicates(names) && i < |names|
    requires FilesLeft(names[..i], answers[..i], results, results')
    ensures FileOf(results', names[i]) == FileOf(results, names[i])
  {
    assert names[i] !in names[..i];
  }

  lemma FilesStep(names: seq<string>, answers: seq<ServeReply>, results: Results, results': Results, i: nat)
    requires |answers| == |names| && NoDuplicates(names) && i < |names|
    requires FilesLeft(names[..i], answers[..i], results, results')
    ensures FilesLeft(names[..i + 1], answers[..i + 1], results,
                      if answers[i].Done? then results'[names[i] := answers[i].file] else results')
  {
    var after := if answers[i].Done? then results'[names[i] := answers[i].file] else results';
    FreshName(names, answers, results, results', i);
    var front, frontAnswers := names[..i + 1], answers[..i + 1];
    forall j | 0 <= j < |front|
      ensures FileOf(after, front[j]) == FileAfter(frontAnswers[j], FileOf(results, front[j]))
    {
      if j < i { assert names[..i][j] == names[j] != names[i] && answers[..i][j] == answers[j]; }
    }
    forall n | n !in front ensures FileOf(after, n) == FileOf(results, n) {
      assert front[i] == names[i] && front[..i] == names[..i];
      assert n !in names[..i] && n != names[i];
    }
  }

  lemma ListsStep(selected: seq<ServeConfig>, answers: seq<ServeReply>, i: nat)
    requires |answers| == |selected| && i < |selected|
    ensures CompletedOf(selected[..i + 1], answers[..i + 1])
            == CompletedOf(selected[..i], answers[..i]) + if answers[i].Done? then [selected[i].name] else []
    ensures SkippedOf(selected[..i + 1], answers[..i + 1])
            == SkippedOf(selected[..i], answers[..i])
               + if answers[i].Skip? then [Skipped(selected[i].name, answers[i].reason)] else []
  {
    assert selected[..i + 1][..i] == selected[..i] && answers[..i + 1][..i] == answers[..i];
  }

  // ----- The configuration matrix -----

  const STORES: map<string, StoreSpec> := map[
    "exact_bw4" := StoreSpec(4, None, None, "none", 4.0, "turbovec-exact-v1", true, None),
    "exact_rs_fp16" := StoreSpec(4, None, None, "fp16", 4.0, "turbovec-exact-v1", true, None),
    "exact_rs_fp32" := StoreSpec(4, None, None, "fp32", 4.0, "turbovec-exact-v1", true, None),
    "ann1000" := StoreSpec(4, Some(1000), Some(16), "none", 4.0, "cluster-contiguous-v1", true, None),
    "ann1000_prechange" :=
      StoreSpec(4, Some(1000), Some(16), "none", 4.0, "cluster-insertion-order-v0", false,
                Some("5e54fa53f51986268eee8b77712ac488e7b9aa97")),
    "ann4096" := StoreSpec(4, Some(4096), Some(64), "none", 4.0, "cluster-contiguous-v1", true, None),
    "ann4096_rs_fp16" := StoreSpec(4, Some(4096), Some(64), "fp16", 4.0, "cluster-contiguous-v1", true, None)
  ]

  const SERVE_CONFIGS: seq<ServeConfig> := [
    ServeConfig("exact_bw4", "exact_bw4", Overrides(None, None)),
    ServeConfig("exact_rs_fp16_ov2", "exact_rs_fp16", Overrides(None, Some(2.0))),
    ServeConfig("exact_rs_fp16_ov4", "exact_rs_fp16", Overrides(None, Some(4.0))),
    ServeConfig("exact_rs_fp16_ov8", "exact_rs_fp16", Overrides(None, Some(8.0))),
    ServeConfig("exact_rs_fp32_ov4", "exact_rs_fp32", Overrides(None, Some(4.0))),
    ServeConfig("ann1000_np8", "ann1000", Overrides(Some(8), None)),
    ServeConfig("ann1000_np16", "ann1000", Overrides(None, None)),
    ServeConfig("ann1000_np32", "ann1000", Overrides(Some(32), None)),
    ServeConfig("ann1000_np64", "ann1000", Overrides(Some(64), None)),
    ServeConfig("ann1000_np128", "ann1000", Overrides(Some(128), None)),
    ServeConfig("prechange_layout_np16", "ann1000_prechange", Overrides(None, None)),
    ServeConfig("prechange_layout_np32", "ann1000_prechange", Overrides(Some(32), None)),
    ServeConfig("prechange_layout_np64", "ann1000_prechange", Overrides(Some(64), None)),
    ServeConfig("prechange_layout_np128", "ann1000_prechange", Overrides(Some(128), None)),
    ServeConfig("ann4096_np32", "ann4096", Overrides(Some(32), None)),
    ServeConfig("ann4096_np64", "ann4096", Overrides(None, None)),
    ServeConfig("ann4096_np128", "ann4096", Overrides(Some(128), None)),
    ServeConfig("ann4096_np256", "ann4096", Overrides(Some(256), None)),
    ServeConfig("ann4096_rs_fp16_np64_ov4", "ann4096_rs_fp16", Overrides(Some(64), Some(4.0))),
    ServeConfig("ann4096_rs_fp16_np128_ov4", "ann4096_rs_fp16", Overrides(Some(128), Some(4.0))),
    ServeConfig("ann4096_rs_fp16_np256_ov4", "ann4096_rs_fp16", Overrides(Some(256), Some(4.0))),
    ServeConfig("ann4096_rs_fp16_np128_ov2", "ann4096_rs_fp16", Overrides(Some(128), Some(2.0)))
  ]

  /** The matrix meets what the sweep relies on: known stores, and no builder pinned on a buildable one. */
  lemma MatrixIsSound(x: Context)
    requires x.specs == STORES
    ensures Known(x, SERVE_CONFIGS)
    ensures forall name | name in x.specs :: SaneSpec(x.specs[name])
  {
  }

  lemma ExactNamesDistinct(i: nat, j: nat)
    requires i < 5 && i < j < |SERVE_CONFIGS|
    ensures SERVE_CONFIGS[i].name != SERVE_CONFIGS[j].name
  {
  }

  lemma SmallNamesDistinct(i: nat, j: nat)
    requires 5 <= i < 10 && i < j < |SERVE_CONFIGS|
    ensures SERVE_CONFIGS[i].name != SERVE_CONFIGS[j].name
  {
  }

  lemma LargeNamesDistinct(i: nat, j: nat)
    requires 10 <= i < j < |SERVE_CONFIGS|
    ensures SERVE_CONFIGS[i].name != SERVE_CONFIGS[j].name
  {
  }

  lemma MatrixNamesDistinct()
    ensures NoDuplicates(NamesOf(SERVE_CONFIGS))
  {
    forall i, j | 0 <= i < j < |SERVE_CONFIGS| ensures SERVE_CONFIGS[i].name != SERVE_CONFIGS[j].name {
      if i < 5 {
        ExactNamesDistinct(i, j);
      } else if i < 10 {
        SmallNamesDistinct(i, j);
      } else {
        LargeNamesDistinct(i, j);
      }
    }
  }
}
