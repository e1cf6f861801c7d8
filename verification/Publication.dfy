/**
 Crash-consistent publication of a benchmark dataset: payload files carry a fresh generation
 token, are written aside and renamed, and one manifest is replaced last.  A directory is a
 map from names to files, a program a list of atomic file steps that a crash may cut anywhere.
 Digests are symbolic: two are equal exactly when what they were taken of is.
 */
module Publication {
  import opened Prelude

  const GT_K: nat := 100
  const MANIFEST_VERSION: int := 2
  const MANIFEST: string := "manifest.json"
  const MANIFEST_TMP: string := ".manifest.json.tmp"

  // ----- Files and digests -----

  /** One vector's bytes. */
  type Row = nat

  datatype Dtype = Float32 | Int64

  datatype File =
    | Partial
    | Raw(data: seq<Row>, dim: int)
    | Npy(dtype: Dtype, rows: int, cols: int, content: nat)
    | Doc(manifest: Manifest)

  datatype Digest =
    | OfRows(data: seq<Row>)
    | OfFile(file: File)
    | OfCorpus(rows: int, dim: int, normalized: bool, source: Source, base: Digest)
    | OfEvaluation(corpus: Digest, nQueries: int, seed: int, queryRows: seq<int>,
                   queries: Digest, gtIndices: Option<Digest>, gtScores: Option<Digest>)

  datatype Source = Source(dataset: string, revision: string, shards: Option<seq<string>>)

  datatype Names = Names(
    base: Option<string>, queries: Option<string>, gtIndices: Option<string>, gtScores: Option<string>)

  datatype Hashes = Hashes(base: Digest, queries: Digest, gtIndices: Option<Digest>, gtScores: Option<Digest>)

  datatype Manifest = Manifest(
    version: int,
    rows: int,
    dim: int,
    nQueries: int,
    seed: int,
    queryRows: seq<int>,
    normalized: bool,
    source: Source,
    files: Names,
    hashes: Hashes,
    corpusId: Digest,
    evaluationId: Option<Digest>)

  /** Raw float32 data is hashed as its bytes, so a running hash over rows gives the same digest. */
  function HashFile(f: File): Digest {
    if f.Raw? then OfRows(f.data) else OfFile(f)
  }

  // ----- Identities -----

  function CorpusId(m: Manifest): Digest {
    OfCorpus(m.rows, m.dim, m.normalized, m.source, m.hashes.base)
  }

  function EvaluationId(m: Manifest): Option<Digest> {
    if m.hashes.gtIndices.None? then None
    else
      Some(OfEvaluation(CorpusId(m), m.nQueries, m.seed, m.queryRows,
                        m.hashes.queries, m.hashes.gtIndices, m.hashes.gtScores))
  }

  function WithIdentity(m: Manifest): Manifest {
    m.(corpusId := CorpusId(m), evaluationId := EvaluationId(m))
  }

  // ----- Loading and validating -----

  predicate HexChars(s: string) {
    forall i | 0 <= i < |s| :: s[i] in "0123456789abcdef"
  }

  /** A file name without a directory part. */
  predicate PlainName(name: Option<string>) {
    name.None? || (name.value != "" && '/' !in name.value && name.value != "." && name.value != "..")
  }

  predicate SourceOk(s: Source) {
    && s.dataset != "" && s.revision != ""
    && (s.dataset == "synthetic" || (|s.revision| in {40, 64} && HexChars(s.revision)))
  }

  /** The checks of the manifest loader, fields already having their JSON types. */
  predicate Loads(m: Manifest) {
    && m.version == MANIFEST_VERSION
    && m.rows >= GT_K && m.dim >= 1 && m.nQueries >= 1
    && m.normalized
    && |m.queryRows| == m.nQueries
    && (forall i | 0 <= i < |m.queryRows| :: 0 <= m.queryRows[i] < m.rows)
    && PlainName(m.files.base) && PlainName(m.files.queries)
    && PlainName(m.files.gtIndices) && PlainName(m.files.gtScores)
    && m.hashes.gtIndices.None? == m.hashes.gtScores.None?
    && SourceOk(m.source)
    && m.corpusId == CorpusId(m)
    && m.evaluationId == EvaluationId(m)
  }

  type Directory = map<string, File>

  function FileAt(dir: Directory, name: Option<string>): Option<File> {
    if name.Some? && name.value in dir then Some(dir[name.value]) else None
  }

  /** All a reader of the dataset sees: the manifest and the payloads it names. */
  datatype View = View(
    manifest: Manifest, base: Option<File>, queries: Option<File>, gtIndices: Option<File>, gtScores: Option<File>)

  function ReadView(dir: Directory): Option<View> {
    if MANIFEST in dir && dir[MANIFEST].Doc? then
      var m := dir[MANIFEST].manifest;
      Some(View(m, FileAt(dir, m.files.base), FileAt(dir, m.files.queries),
                FileAt(dir, m.files.gtIndices), FileAt(dir, m.files.gtScores)))
    else None
  }

  predicate RawOfSize(f: Option<File>, rows: int, dim: int) {
    f.Some? && f.value.Raw? && |f.value.data| * f.value.dim * 4 == rows * dim * 4
  }

  predicate ArrayOf(f: Option<File>, dtype: Dtype, rows: int, cols: int) {
    f.Some? && f.value.Npy? && f.value.dtype == dtype && f.value.rows == rows && f.value.cols == cols
  }

  predicate TruthOk(v: View) {
    && ArrayOf(v.gtIndices, Int64, v.manifest.nQueries, GT_K)
    && ArrayOf(v.gtScores, Float32, v.manifest.nQueries, GT_K)
    && v.manifest.hashes.gtIndices == Some(HashFile(v.gtIndices.value))
    && v.manifest.hashes.gtScores == Some(HashFile(v.gtScores.value))
  }

  predicate Validates(v: View, requireGt: bool, verifyBaseHash: bool) {
    var m := v.manifest;
    && Loads(m)
    && m.files.base.Some? && m.files.queries.Some?
    && RawOfSize(v.base, m.rows, m.dim)
    && (verifyBaseHash ==> HashFile(v.base.value) == m.hashes.base)
    && ArrayOf(v.queries, Float32, m.nQueries, m.dim)
    && HashFile(v.queries.value) == m.hashes.queries
    && m.files.gtIndices.None? == m.files.gtScores.None?
    && (requireGt ==> m.files.gtIndices.Some?)
    && (m.files.gtIndices.Some? ==> TruthOk(v))
  }

  /**
   Identities pin contents: two validated datasets with the same evaluation identity, whatever
   their directories and file names, have the same corpus, queries and ground truth.
   */
  lemma EvaluationPinsPayloads(v: View, w: View)
    requires Validates(v, true, true) && Validates(w, true, true)
    requires v.manifest.evaluationId == w.manifest.evaluationId
    requires v.manifest.evaluationId.Some?
    ensures v.base.value.data == w.base.value.data && v.manifest.rows == w.manifest.rows
            && v.manifest.dim == w.manifest.dim
    ensures v.queries == w.queries && v.gtIndices == w.gtIndices && v.gtScores == w.gtScores
    ensures v.manifest.corpusId == w.manifest.corpusId && v.manifest.queryRows == w.manifest.queryRows
  {
    assert EvaluationId(v.manifest) == EvaluationId(w.manifest);
    assert CorpusId(v.manifest) == CorpusId(w.manifest);
  }

  /** What a validated dataset with ground truth is made of. */
  lemma ValidatedShapes(v: View)
    requires Validates(v, true, true)
    ensures var m := v.manifest;
            && m.rows >= 100 && m.dim >= 1 && m.nQueries >= 1
            && (exists x :: v.queries == Some(Npy(Float32, m.nQueries, m.dim, x)))
            && (exists x :: v.gtIndices == Some(Npy(Int64, m.nQueries, 100, x)))
            && (exists x :: v.gtScores == Some(Npy(Float32, m.nQueries, 100, x)))
            && v.base.Some? && v.base.value.Raw? && |v.base.value.data| * v.base.value.dim * 4 == m.rows * m.dim * 4
            && OfRows(v.base.value.data) == m.hashes.base
            && (m.source.dataset != "synthetic" ==> |m.source.revision| == 40 || |m.source.revision| == 64)
  {
    var q, i, s := v.queries.value, v.gtIndices.value, v.gtScores.value;
    assert v.queries == Some(Npy(Float32, v.manifest.nQueries, v.manifest.dim, q.content));
    assert v.gtIndices == Some(Npy(Int64, v.manifest.nQueries, 100, i.content));
    assert v.gtScores == Some(Npy(Float32, v.manifest.nQueries, 100, s.content));
  }

  /** A manifest that lists ground truth digests exactly when it names the files. */
  predicate TruthAgrees(m: Manifest) {
    m.hashes.gtIndices.Some? <==> m.files.gtIndices.Some?
  }

  /**
   Every validated dataset with ground truth has an evaluation identity.  The converse holds exactly
   for manifests that list no digests of ground truth they do not name, which nothing checks.
   */
  lemma EvaluationNeedsTruth(v: View)
    requires Validates(v, false, false)
    ensures v.manifest.files.gtIndices.Some? ==> v.manifest.evaluationId.Some? && Validates(v, true, false)
    ensures (v.manifest.evaluationId.Some? ==> v.manifest.files.gtIndices.Some?) <==> TruthAgrees(v.manifest)
  {
  }

  /**
   Taking the two file names out of any manifest with ground truth leaves a dataset that validates
   with its identity.
   */
  lemma IdentityWithoutTruth(v: View)
    requires Validates(v, true, true)
    ensures var m := v.manifest.(files := v.manifest.files.(gtIndices := None, gtScores := None));
            var w := v.(manifest := m, gtIndices := None, gtScores := None);
            Validates(w, false, true) && w.manifest.evaluationId.Some? && !TruthAgrees(m) && !Validates(w, true, true)
  {
  }

  // ----- File steps -----

  datatype FileStep = Write(name: string, file: File) | Rename(name: string, target: string) | Unlink(name: string)

  function Do(dir: Directory, step: FileStep): Directory {
    match step
    case Write(name, file) => dir[name := file]
    case Rename(name, target) => if name in dir then (dir - {name})[target := dir[name]] else dir
    case Unlink(name) => dir - {name}
  }

  function DoAll(dir: Directory, steps: seq<FileStep>): Directory {
    if steps == [] then dir else Do(DoAll(dir, steps[..|steps| - 1]), steps[|steps| - 1])
  }

  lemma {:induction false} DoConcat(dir: Directory, a: seq<FileStep>, b: seq<FileStep>)
    ensures DoAll(dir, a + b) == DoAll(DoAll(dir, a), b)
  {
    if b == [] {
      assert a + b == a;
    } else {
      var n := |b| - 1;
      assert (a + b)[..|a + b| - 1] == a + b[..n];
      DoConcat(dir, a, b[..n]);
    }
  }

  lemma DoTwo(dir: Directory, a: FileStep, b: FileStep)
    ensures DoAll(dir, [a]) == Do(dir, a) && DoAll(dir, [a, b]) == Do(Do(dir, a), b)
  {
    assert [a][..0] == [] && [a, b][..1] == [a];
  }

  function Touched(step: FileStep): set<string> {
    match step
    case Write(name, _) => {name}
    case Rename(name, target) => {name, target}
    case Unlink(name) => {name}
  }

  /** A program that keeps to its own names. */
  predicate Within(steps: seq<FileStep>, own: set<string>) {
    forall i | 0 <= i < |steps| :: Touched(steps[i]) <= own
  }

  lemma {:induction false} OthersKept(dir: Directory, steps: seq<FileStep>, own: set<string>, name: string)
    requires Within(steps, own) && name !in own
    ensures FileAt(DoAll(dir, steps), Some(name)) == FileAt(dir, Some(name))
  {
    if steps != [] {
      var n := |steps| - 1;
      OthersKept(dir, steps[..n], own, name);
      assert Touched(steps[n]) <= own;
    }
  }

  /** The names a reader depends on. */
  function Named(m: Manifest): set<string> {
    {MANIFEST} + Opt(m.files.base) + Opt(m.files.queries) + Opt(m.files.gtIndices) + Opt(m.files.gtScores)
  }

  function Opt(name: Option<string>): set<string> { if name.Some? then {name.value} else {} }

  /** A program that stays away from the manifest and what it names is invisible, wherever it stops. */
  lemma InvisibleSteps(dir: Directory, steps: seq<FileStep>, own: set<string>)
    requires Within(steps, own) && MANIFEST !in own
    requires ReadView(dir).Some? ==> Named(ReadView(dir).value.manifest) !! own
    ensures ReadView(DoAll(dir, steps)) == ReadView(dir)
  {
    OthersKept(dir, steps, own, MANIFEST);
    if v :| ReadView(dir) == Some(v) {
      forall name | name in Named(v.manifest) ensures FileAt(DoAll(dir, steps), Some(name)) == FileAt(dir, Some(name)) {
        OthersKept(dir, steps, own, name);
      }
      ViewKept(dir, DoAll(dir, steps), v.manifest);
    }
  }

  lemma ViewKept(dir: Directory, after: Directory, m: Manifest)
    requires FileAt(dir, Some(MANIFEST)) == Some(Doc(m))
    requires forall name | name in Named(m) :: FileAt(after, Some(name)) == FileAt(dir, Some(name))
    ensures ReadView(after) == ReadView(dir)
  {
    assert MANIFEST in Named(m);
    assert FileAt(after, m.files.base) == FileAt(dir, m.files.base) by {
      if m.files.base.Some? { assert m.files.base.value in Named(m); }
    }
    assert FileAt(after, m.files.queries) == FileAt(dir, m.files.queries) by {
      if m.files.queries.Some? { assert m.files.queries.value in Named(m); }
    }
    assert FileAt(after, m.files.gtIndices) == FileAt(dir, m.files.gtIndices) by {
      if m.files.gtIndices.Some? { assert m.files.gtIndices.value in Named(m); }
    }
    assert FileAt(after, m.files.gtScores) == FileAt(dir, m.files.gtScores) by {
      if m.files.gtScores.Some? { assert m.files.gtScores.value in Named(m); }
    }
  }

  // ----- Names -----

  function Tmp(name: string): string { "." + name + ".tmp" }

  function BaseName(token: string): string { "base-" + token + ".f32" }

  function QueriesName(token: string): string { "queries-" + token + ".npy" }

  function IndicesName(token: string): string { "gt_top100_indices-" + token + ".npy" }

  function ScoresName(token: string): string { "gt_top100_scores-" + token + ".npy" }

  function Payloads(token: string): set<string> {
    {BaseName(token), QueriesName(token), IndicesName(token), ScoresName(token)}
  }

  function Scratch(token: string): set<string> {
    {Tmp(BaseName(token)), Tmp(QueriesName(token)), Tmp(IndicesName(token)), Tmp(ScoresName(token))}
  }

  /** The token was not used in this directory before. */
  predicate Fresh(dir: Directory, token: string) {
    Payloads(token) !! dir.Keys && Scratch(token) !! dir.Keys && '/' !in token
  }

  lemma PayloadHeads(token: string)
    ensures BaseName(token)[0] == 'b' && QueriesName(token)[0] == 'q'
    ensures IndicesName(token)[0] == 'g' && ScoresName(token)[0] == 'g'
  {
  }

  lemma TmpHead(name: string)
    requires name != ""
    ensures |Tmp(name)| > 1 && Tmp(name)[0] == '.' && Tmp(name)[1] == name[0]
  {
  }

  lemma NamesApart(token: string)
    ensures MANIFEST !in Payloads(token) + Scratch(token)
    ensures MANIFEST_TMP !in Payloads(token) + Scratch(token)
  {
    PayloadHeads(token);
    TmpHead(BaseName(token));
    TmpHead(QueriesName(token));
    TmpHead(IndicesName(token));
    TmpHead(ScoresName(token));
    assert MANIFEST[0] == 'm' && MANIFEST_TMP[0] == '.' && MANIFEST_TMP[1] == 'm';
  }

  // ----- Programs -----

  /** Writes one payload aside, renames it into place and sweeps the temporary. */
  function Save(name: string, file: File): seq<FileStep> {
    [Write(Tmp(name), Partial), Write(Tmp(name), file), Rename(Tmp(name), name), Unlink(Tmp(name))]
  }

  lemma SaveResult(dir: Directory, name: string, file: File)
    ensures Within(Save(name, file), {name, Tmp(name)})
    ensures FileAt(DoAll(dir, Save(name, file)), Some(name)) == Some(file)
  {
    var t := Tmp(name);
    assert |t| > |name|;
    var steps := Save(name, file);
    DoTwo(dir, Write(t, Partial), Write(t, file));
    assert steps[..2] == [Write(t, Partial), Write(t, file)];
    assert steps[..3][..2] == steps[..2];
    assert DoAll(dir, steps[..3]) == Do(DoAll(dir, steps[..2]), Rename(t, name));
  }

  function Replace(m: Manifest): seq<FileStep> {
    [Write(MANIFEST_TMP, Partial), Write(MANIFEST_TMP, Doc(WithIdentity(m))), Rename(MANIFEST_TMP, MANIFEST)]
  }

  lemma ReplaceResult(dir: Directory, m: Manifest, name: string)
    ensures Within(Replace(m)[..2], {MANIFEST_TMP})
    ensures FileAt(DoAll(dir, Replace(m)), Some(MANIFEST)) == Some(Doc(WithIdentity(m)))
    ensures name != MANIFEST && name != MANIFEST_TMP ==>
              FileAt(DoAll(dir, Replace(m)), Some(name)) == FileAt(dir, Some(name))
  {
    var steps := Replace(m);
    DoTwo(dir, steps[0], steps[1]);
    assert steps[..2] == [steps[0], steps[1]];
  }

  /** A manifest whose payload names are not those the manifest itself is written under. */
  predicate Tidy(m: Manifest) {
    Apart(m.files.base) && Apart(m.files.queries) && Apart(m.files.gtIndices) && Apart(m.files.gtScores)
  }

  predicate Apart(name: Option<string>) {
    name != Some(MANIFEST) && name != Some(MANIFEST_TMP)
  }

  /** If there is a dataset it validates, and it lists ground truth exactly when it has it. */
  predicate Sound(dir: Directory) {
    ReadView(dir).Some? ==>
      var v := ReadView(dir).value;
      Validates(v, false, true) && Tidy(v.manifest) && TruthAgrees(v.manifest)
  }

  lemma SoundNames(dir: Directory, own: set<string>)
    requires Sound(dir) && own !! dir.Keys
    ensures ReadView(dir).Some? ==> Named(ReadView(dir).value.manifest) !! own + {MANIFEST_TMP}
  {
  }

  function ViewOf(dir: Directory, m: Manifest): View {
    View(m, FileAt(dir, m.files.base), FileAt(dir, m.files.queries),
         FileAt(dir, m.files.gtIndices), FileAt(dir, m.files.gtScores))
  }

  /**
   Writing payloads under new names and replacing the manifest last is atomic: cut anywhere
   before the end, a reader sees exactly what it saw; after it, the new manifest and payloads.
   */
  lemma PublishAtomic(dir: Directory, payload: seq<FileStep>, own: set<string>, m: Manifest, k: nat)
    requires Sound(dir) && own !! dir.Keys && own !! {MANIFEST, MANIFEST_TMP}
    requires Within(payload, own) && Tidy(m) && k <= |payload| + 3
    ensures ReadView(DoAll(dir, (payload + Replace(m))[..k])) ==
            if k < |payload| + 3 then ReadView(dir) else Some(ViewOf(DoAll(dir, payload), WithIdentity(m)))
  {
    var steps := payload + Replace(m);
    if k < |payload| + 3 {
      SoundNames(dir, own);
      ReplaceResult(dir, m, MANIFEST);
      WithinCut(payload, Replace(m), own, k);
      InvisibleSteps(dir, steps[..k], own + {MANIFEST_TMP});
    } else {
      assert steps[..k] == steps;
      DoConcat(dir, payload, Replace(m));
      NewView(DoAll(dir, payload), m);
    }
  }

  lemma WithinCut(payload: seq<FileStep>, tail: seq<FileStep>, own: set<string>, k: nat)
    requires Within(payload, own) && |tail| == 3 && Within(tail[..2], {MANIFEST_TMP}) && k < |payload| + 3
    ensures Within((payload + tail)[..k], own + {MANIFEST_TMP})
  {
    var steps := (payload + tail)[..k];
    forall i | 0 <= i < k ensures Touched(steps[i]) <= own + {MANIFEST_TMP} {
      if i < |payload| { assert steps[i] == payload[i]; } else { assert steps[i] == tail[..2][i - |payload|]; }
    }
  }

  lemma NewView(dir: Directory, m: Manifest)
    requires Tidy(m)
    ensures ReadView(DoAll(dir, Replace(m))) == Some(ViewOf(dir, WithIdentity(m)))
  {
    ReplaceResult(dir, m, MANIFEST);
    forall name | Apart(name) ensures FileAt(DoAll(dir, Replace(m)), name) == FileAt(dir, name) {
      if name.Some? { ReplaceResult(dir, m, name.value); }
    }
  }

  // ----- Ground truth -----

  function WithTruth(m: Manifest, token: string, indices: File, scores: File): Manifest {
    m.(files := m.files.(gtIndices := Some(IndicesName(token)), gtScores := Some(ScoresName(token))),
       hashes := m.hashes.(gtIndices := Some(HashFile(indices)), gtScores := Some(HashFile(scores))))
  }

  function TruthSteps(token: string, indices: File, scores: File): seq<FileStep> {
    Save(IndicesName(token), indices) + Save(ScoresName(token), scores)
  }

  function TruthProgram(m: Manifest, token: string, indices: File, scores: File): seq<FileStep> {
    TruthSteps(token, indices, scores) + Replace(WithTruth(m, token, indices, scores))
  }

  /** Ground truth does not change which corpus a dataset is, so stores built before stay usable. */
  lemma TruthKeepsCorpus(m: Manifest, token: string, indices: File, scores: File)
    ensures WithIdentity(WithTruth(m, token, indices, scores)).corpusId == WithIdentity(m).corpusId
    ensures WithIdentity(WithTruth(m, token, indices, scores)).evaluationId.Some?
  {
  }

  lemma WithinConcat(a: seq<FileStep>, b: seq<FileStep>, own: set<string>)
    requires Within(a, own) && Within(b, own)
    ensures Within(a + b, own)
  {
  }

  lemma WithinMono(a: seq<FileStep>, small: set<string>, own: set<string>)
    requires Within(a, small) && small <= own
    ensures Within(a, own)
  {
  }

  /** Two saved payloads are both there afterwards. */
  lemma TwoSaves(dir: Directory, a: string, fa: File, b: string, fb: File)
    requires a != b && a != Tmp(b)
    ensures Within(Save(a, fa) + Save(b, fb), {a, Tmp(a), b, Tmp(b)})
    ensures FileAt(DoAll(dir, Save(a, fa) + Save(b, fb)), Some(a)) == Some(fa)
    ensures FileAt(DoAll(dir, Save(a, fa) + Save(b, fb)), Some(b)) == Some(fb)
  {
    var own := {a, Tmp(a), b, Tmp(b)};
    SaveResult(dir, a, fa);
    var mid := DoAll(dir, Save(a, fa));
    SaveResult(mid, b, fb);
    WithinMono(Save(a, fa), {a, Tmp(a)}, own);
    WithinMono(Save(b, fb), {b, Tmp(b)}, own);
    WithinConcat(Save(a, fa), Save(b, fb), own);
    DoConcat(dir, Save(a, fa), Save(b, fb));
    OthersKept(mid, Save(b, fb), {b, Tmp(b)}, a);
  }

  lemma TruthPayloads(dir: Directory, token: string, indices: File, scores: File)
    ensures Within(TruthSteps(token, indices, scores), Payloads(token) + Scratch(token))
    ensures FileAt(DoAll(dir, TruthSteps(token, indices, scores)), Some(IndicesName(token))) == Some(indices)
    ensures FileAt(DoAll(dir, TruthSteps(token, indices, scores)), Some(ScoresName(token))) == Some(scores)
  {
    NamesApart(token);
    var a, b := IndicesName(token), ScoresName(token);
    assert a[10] == 'i' && b[10] == 's';
    TwoSaves(dir, a, indices, b, scores);
    WithinMono(TruthSteps(token, indices, scores), {a, Tmp(a), b, Tmp(b)}, Payloads(token) + Scratch(token));
  }

  lemma PayloadsPlain(token: string)
    requires '/' !in token
    ensures PlainName(Some(BaseName(token))) && PlainName(Some(QueriesName(token)))
    ensures PlainName(Some(IndicesName(token))) && PlainName(Some(ScoresName(token)))
  {
  }

  /**
   Cut anywhere, computing ground truth leaves the reader with the old dataset or with the new
   one, which is the old corpus and queries plus a valid ground truth.
   */
  lemma TruthAtomic(dir: Directory, token: string, indices: File, scores: File, k: nat)
    requires Sound(dir) && ReadView(dir).Some? && Fresh(dir, token)
    requires var m := ReadView(dir).value.manifest;
             && ArrayOf(Some(indices), Int64, m.nQueries, GT_K) && ArrayOf(Some(scores), Float32, m.nQueries, GT_K)
             && k <= |TruthProgram(m, token, indices, scores)|
    ensures var v, prog := ReadView(dir).value, TruthProgram(ReadView(dir).value.manifest, token, indices, scores);
            var after := DoAll(dir, prog[..k]);
            && Sound(after)
            && if k < |prog| then ReadView(after) == ReadView(dir)
               else ReadView(after) == Some(View(WithIdentity(WithTruth(v.manifest, token, indices, scores)),
                                                 v.base, v.queries, Some(indices), Some(scores)))
                    && Validates(ReadView(after).value, true, true)
  {
    var v := ReadView(dir).value;
    var m := v.manifest;
    var own := Payloads(token) + Scratch(token);
    NamesApart(token);
    TruthPayloads(dir, token, indices, scores);
    PayloadsPlain(token);
    var m' := WithTruth(m, token, indices, scores);
    assert IndicesName(token) in own && ScoresName(token) in own;
    assert Tidy(m');
    PublishAtomic(dir, TruthSteps(token, indices, scores), own, m', k);
    OthersKept(dir, TruthSteps(token, indices, scores), own, m.files.base.value);
    OthersKept(dir, TruthSteps(token, indices, scores), own, m.files.queries.value);
  }

  // ----- Creating a dataset -----

  /** What both producers check before they publish, and what they publish. */
  datatype Request = Request(
    rows: nat,
    dim: int,
    nQueries: int,
    seed: int,
    queryRows: seq<int>,
    source: Source,
    data: seq<Row>,
    queries: File)
  {
    predicate Accepted() {
      && rows >= GT_K && dim >= 1 && 1 <= nQueries <= rows
      && SourceOk(source)
      && |data| == rows
      && |queryRows| == nQueries && (forall i | 0 <= i < |queryRows| :: 0 <= queryRows[i] < rows)
      && ArrayOf(Some(queries), Float32, nQueries, dim)
    }
  }

  /** The least a producer accepts: a hundred rows, one dimension and one query. */
  lemma SmallestRequest(q: Request, x: nat)
    requires q.rows == |q.data| && q.queryRows == [0] && q.source.dataset == "synthetic" && q.source.revision != ""
    requires q.nQueries == 1 && q.queries == Npy(Float32, 1, q.dim, x)
    ensures q.Accepted() <==> q.rows >= 100 && q.dim >= 1
  {
  }

  function NewManifest(q: Request, token: string): Manifest {
    var hashes := Hashes(OfRows(q.data), HashFile(q.queries), None, None);
    Manifest(MANIFEST_VERSION, q.rows, q.dim, q.nQueries, q.seed, q.queryRows, true, q.source,
             Names(Some(BaseName(token)), Some(QueriesName(token)), None, None), hashes, OfRows([]), None)
  }

  /** What a reader sees of a dataset just created. */
  function CreatedView(q: Request, token: string): View {
    View(WithIdentity(NewManifest(q, token)), Some(Raw(q.data, q.dim)), Some(q.queries), None, None)
  }

  /** The synthetic producer maps the base file in place; the parquet one renames it into place. */
  function BaseSteps(name: string, file: File, inPlace: bool): seq<FileStep> {
    if inPlace then [Write(name, Partial), Write(name, file)]
    else [Write(Tmp(name), Partial), Write(Tmp(name), file), Rename(Tmp(name), name)]
  }

  lemma BaseResult(dir: Directory, name: string, file: File, inPlace: bool)
    ensures Within(BaseSteps(name, file, inPlace), {name, Tmp(name)})
    ensures FileAt(DoAll(dir, BaseSteps(name, file, inPlace)), Some(name)) == Some(file)
  {
    var t, steps := Tmp(name), BaseSteps(name, file, inPlace);
    DoTwo(dir, steps[0], steps[1]);
    if !inPlace {
      assert steps[..2] == [steps[0], steps[1]];
      assert |t| > |name|;
    }
  }

  function CreateSteps(q: Request, token: string, inPlace: bool): seq<FileStep> {
    BaseSteps(BaseName(token), Raw(q.data, q.dim), inPlace) + Save(QueriesName(token), q.queries)
  }

  function CreateProgram(q: Request, token: string, inPlace: bool): seq<FileStep> {
    CreateSteps(q, token, inPlace) + Replace(NewManifest(q, token))
  }

  lemma CreatePayloads(dir: Directory, q: Request, token: string, inPlace: bool)
    ensures Within(CreateSteps(q, token, inPlace), Payloads(token) + Scratch(token))
    ensures FileAt(DoAll(dir, CreateSteps(q, token, inPlace)), Some(BaseName(token))) == Some(Raw(q.data, q.dim))
    ensures FileAt(DoAll(dir, CreateSteps(q, token, inPlace)), Some(QueriesName(token))) == Some(q.queries)
  {
    var a, b, own := BaseName(token), QueriesName(token), Payloads(token) + Scratch(token);
    var first, second := BaseSteps(a, Raw(q.data, q.dim), inPlace), Save(b, q.queries);
    BaseResult(dir, a, Raw(q.data, q.dim), inPlace);
    var mid := DoAll(dir, first);
    SaveResult(mid, b, q.queries);
    WithinMono(first, {a, Tmp(a)}, own);
    WithinMono(second, {b, Tmp(b)}, own);
    WithinConcat(first, second, own);
    DoConcat(dir, first, second);
    assert a[0] == 'b' && b[0] == 'q' && Tmp(b)[0] == '.';
    OthersKept(mid, second, {b, Tmp(b)}, a);
  }

  /**
   Cut anywhere, creating a dataset over an old one leaves the reader with the old dataset or
   with the complete new one; the published manifest passes its own loader.
   */
  lemma CreateAtomic(dir: Directory, q: Request, token: string, inPlace: bool, k: nat)
    requires Sound(dir) && Fresh(dir, token) && q.Accepted() && k <= |CreateProgram(q, token, inPlace)|
    ensures var prog := CreateProgram(q, token, inPlace);
            var after := DoAll(dir, prog[..k]);
            && Sound(after)
            && if k < |prog| then ReadView(after) == ReadView(dir)
               else ReadView(after) == Some(CreatedView(q, token))
  {
    var own := Payloads(token) + Scratch(token);
    NamesApart(token);
    CreatePayloads(dir, q, token, inPlace);
    var m := NewManifest(q, token);
    assert BaseName(token) in own && QueriesName(token) in own;
    assert Tidy(m);
    PublishAtomic(dir, CreateSteps(q, token, inPlace), own, m, k);
    NewDatasetValidates(q, token);
  }

  lemma NewDatasetValidates(q: Request, token: string)
    requires q.Accepted() && '/' !in token
    ensures Validates(CreatedView(q, token), false, true)
  {
    PayloadsPlain(token);
  }

  // ----- Every history of producers -----

  datatype Job =
    | Create(q: Request, inPlace: bool, token: string, cut: nat)
    | Truth(indices: File, scores: File, token: string, cut: nat)

  /** A job with a fresh token whose inputs pass its checks. */
  predicate Permitted(dir: Directory, job: Job) {
    && Fresh(dir, job.token)
    && match job
       case Create(q, inPlace, token, cut) => q.Accepted() && cut <= |CreateProgram(q, token, inPlace)|
       case Truth(indices, scores, token, cut) =>
         && ReadView(dir).Some?
         && var m := ReadView(dir).value.manifest;
            && ArrayOf(Some(indices), Int64, m.nQueries, GT_K) && ArrayOf(Some(scores), Float32, m.nQueries, GT_K)
            && cut <= |TruthProgram(m, token, indices, scores)|
  }

  function Perform(dir: Directory, job: Job): Directory
    requires Permitted(dir, job)
  {
    match job
    case Create(q, inPlace, token, cut) => DoAll(dir, CreateProgram(q, token, inPlace)[..cut])
    case Truth(indices, scores, token, cut) =>
      DoAll(dir, TruthProgram(ReadView(dir).value.manifest, token, indices, scores)[..cut])
  }

  /**
   Whatever producers ran and wherever each crashed, a dataset that is visible validates, and it has
   an evaluation identity exactly when it has ground truth.
   */
  lemma {:induction false} AlwaysValid(dirs: seq<Directory>, jobs: seq<Job>, k: nat)
    requires |dirs| == |jobs| + 1 && k < |dirs|
    requires forall i | 0 <= i < |jobs| :: Permitted(dirs[i], jobs[i]) && dirs[i + 1] == Perform(dirs[i], jobs[i])
    requires Sound(dirs[0])
    ensures Sound(dirs[k])
    ensures ReadView(dirs[k]).Some? ==>
              var m := ReadView(dirs[k]).value.manifest;
              m.evaluationId.Some? <==> m.files.gtIndices.Some?
  {
    if k > 0 {
      AlwaysValid(dirs, jobs, k - 1);
      var dir, job := dirs[k - 1], jobs[k - 1];
      assert Permitted(dir, job) && dirs[k] == Perform(dir, job);
      match job
      case Create(q, inPlace, token, cut) => CreateAtomic(dir, q, token, inPlace, cut);
      case Truth(indices, scores, token, cut) => TruthAtomic(dir, token, indices, scores, cut);
    }
  }

  // ----- Streaming parquet batches into the base file -----

  datatype Batch = Unreadable | Matrix(rows: seq<Row>)

  type Normaliser = Row -> Option<Row>

  function Normalise(f: Normaliser, rows: seq<Row>): (r: Option<seq<Row>>)
    ensures r.Some? ==> |r.value| == |rows| && forall i | 0 <= i < |rows| :: f(rows[i]) == Some(r.value[i])
    ensures r.None? ==> exists i | 0 <= i < |rows| :: f(rows[i]).None?
  {
    if rows == [] then Some([])
    else
      var n := |rows| - 1;
      var front, last := Normalise(f, rows[..n]), f(rows[n]);
      if front.None? || last.None? then None else Some(front.value + [last.value])
  }

  /** All rows of the batches, in order. */
  function AllRows(batches: seq<Batch>): seq<Row> {
    if batches == [] then []
    else
      var last := batches[|batches| - 1];
      AllRows(batches[..|batches| - 1]) + if last.Matrix? then last.rows else []
  }

  function Flatten(shards: seq<seq<Batch>>): seq<Batch> {
    if shards == [] then [] else Flatten(shards[..|shards| - 1]) + shards[|shards| - 1]
  }

  /** The rows accepted so far: nothing more once the target is reached, an error at a bad batch before. */
  function Consume(f: Normaliser, batches: seq<Batch>, target: nat): (data: Option<seq<Row>>)
    ensures data.Some? ==> |data.value| <= target
  {
    if batches == [] then Some([])
    else
      var n := |batches| - 1;
      var front := Consume(f, batches[..n], target);
      if front.None? then None else ConsumeOne(f, front.value, batches[n], target)
  }

  function ConsumeOne(f: Normaliser, front: seq<Row>, batch: Batch, target: nat): (data: Option<seq<Row>>)
    requires |front| <= target
    ensures data.Some? ==> front <= data.value && |data.value| <= target
  {
    if |front| >= target then Some(front)
    else if batch.Unreadable? then None
    else
      var more := Normalise(f, batch.rows[..Min(target - |front|, |batch.rows|)]);
      if more.None? then None else Some(front + more.value)
  }

  lemma ConsumeAppend(f: Normaliser, batches: seq<Batch>, b: Batch, target: nat)
    ensures Consume(f, batches + [b], target) ==
            if Consume(f, batches, target).None? then None
            else ConsumeOne(f, Consume(f, batches, target).value, b, target)
  {
    assert (batches + [b])[..|batches|] == batches;
  }

  lemma {:induction false} ConsumeFails(f: Normaliser, batches: seq<Batch>, more: seq<Batch>, target: nat)
    requires Consume(f, batches, target).None?
    ensures Consume(f, batches + more, target).None?
  {
    if more == [] {
      assert batches + more == batches;
    } else {
      var n := |more| - 1;
      ConsumeFails(f, batches, more[..n], target);
      assert batches + more == batches + more[..n] + [more[n]];
      ConsumeAppend(f, batches + more[..n], more[n], target);
    }
  }

  /** The first rows in order, each normalised, as many as there are up to the target. */
  ghost predicate FirstRows(f: Normaliser, all: seq<Row>, data: seq<Row>, target: nat) {
    && |data| == Min(target, |all|)
    && forall i | 0 <= i < |data| :: f(all[i]) == Some(data[i])
  }

  lemma FirstRowsStep(f: Normaliser, all: seq<Row>, data: seq<Row>, batch: Batch, data': seq<Row>, target: nat)
    requires FirstRows(f, all, data, target) && ConsumeOne(f, data, batch, target) == Some(data')
    ensures FirstRows(f, all + (if batch.Matrix? then batch.rows else []), data', target)
  {
    var all' := all + (if batch.Matrix? then batch.rows else []);
    forall i | 0 <= i < |data'| ensures f(all'[i]) == Some(data'[i]) {
      if i < |data| { assert f(all[i]) == Some(data[i]); }
    }
  }

  /** What the loops accept is exactly that. */
  lemma {:induction false} ConsumedRows(f: Normaliser, batches: seq<Batch>, target: nat)
    requires Consume(f, batches, target).Some?
    ensures FirstRows(f, AllRows(batches), Consume(f, batches, target).value, target)
  {
    if batches != [] {
      var n := |batches| - 1;
      ConsumedRows(f, batches[..n], target);
      FirstRowsStep(f, AllRows(batches[..n]), Consume(f, batches[..n], target).value, batches[n],
                    Consume(f, batches, target).value, target);
    }
  }

  /** Batch `i` stops the loops: it comes before the target is reached, and is unreadable or has a bad row there. */
  ghost predicate StopsAt(f: Normaliser, batches: seq<Batch>, target: nat, i: nat) {
    && i < |batches| && |AllRows(batches[..i])| < target
    && (batches[i].Unreadable? ||
        exists j | 0 <= j < |batches[i].rows| && |AllRows(batches[..i])| + j < target :: f(batches[i].rows[j]).None?)
  }

  lemma NormaliseExact(f: Normaliser, rows: seq<Row>)
    ensures Normalise(f, rows).None? <==> exists j | 0 <= j < |rows| :: f(rows[j]).None?
  {
  }

  lemma StopsHere(f: Normaliser, batches: seq<Batch>, target: nat)
    requires batches != [] && Consume(f, batches[..|batches| - 1], target).Some?
    ensures Consume(f, batches, target).None? <==> StopsAt(f, batches, target, |batches| - 1)
  {
    var n := |batches| - 1;
    var front, batch := Consume(f, batches[..n], target).value, batches[n];
    ConsumedRows(f, batches[..n], target);
    if |front| < target && batch.Matrix? {
      assert |front| == |AllRows(batches[..n])|;
      var rows := batch.rows[..Min(target - |front|, |batch.rows|)];
      NormaliseExact(f, rows);
      if j :| 0 <= j < |rows| && f(rows[j]).None? { assert f(batch.rows[j]).None?; }
      if j :| 0 <= j < |batch.rows| && |front| + j < target && f(batch.rows[j]).None? { assert f(rows[j]).None?; }
    }
  }

  /** The loops fail exactly if an unreadable batch or a bad row comes before the target is reached. */
  lemma {:induction false} ConsumeFailsExactly(f: Normaliser, batches: seq<Batch>, target: nat)
    ensures Consume(f, batches, target).None? <==> exists i :: StopsAt(f, batches, target, i)
  {
    if batches != [] {
      var n := |batches| - 1;
      ConsumeFailsExactly(f, batches[..n], target);
      forall i: nat | i < n ensures StopsAt(f, batches, target, i) <==> StopsAt(f, batches[..n], target, i) {
        assert batches[..n][..i] == batches[..i];
      }
      if Consume(f, batches[..n], target).Some? {
        StopsHere(f, batches, target);
      } else {
        var i: nat :| StopsAt(f, batches[..n], target, i);
        assert StopsAt(f, batches, target, i);
      }
    }
  }

  /** Copies a normalised batch into the mapped file. */
  method CopyRows(base: array<Row>, at: nat, rows: seq<Row>)
    requires at + |rows| <= base.Length
    modifies base
    ensures base[..] == old(base[..at]) + rows + old(base[at + |rows|..])
  {
    for i := 0 to |rows|
      invariant base[..at] == old(base[..at]) && base[at + |rows|..] == old(base[at + |rows|..])
      invariant base[at..at + i] == rows[..i]
    {
      base[at + i] := rows[i];
    }
    assert base[..] == base[..at] + base[at..at + |rows|] + base[at + |rows|..];
  }

  /** Extends the filled part of the file. */
  method Extend(base: array<Row>, have: seq<Row>, next: seq<Row>)
    requires have <= next && |next| <= base.Length && base[..|have|] == have
    modifies base
    ensures base[..|next|] == next
  {
    CopyRows(base, |have|, next[|have|..]);
    assert base[..|next|] == have + next[|have|..];
  }

  lemma ConsumeNext(f: Normaliser, front: seq<Batch>, b: Batch, rest: seq<Batch>, rows: seq<Row>, target: nat)
    requires Consume(f, front, target) == Some(rows)
    ensures Consume(f, front + [b], target) == ConsumeOne(f, rows, b, target)
    ensures ConsumeOne(f, rows, b, target).None? ==> Consume(f, front + [b] + rest, target).None?
  {
    ConsumeAppend(f, front, b, target);
    if ConsumeOne(f, rows, b, target).None? { ConsumeFails(f, front + [b], rest, target); }
  }

  lemma ShardSplit(before: seq<Batch>, shard: seq<Batch>, b: nat)
    requires b < |shard|
    ensures before + shard[..b + 1] == before + shard[..b] + [shard[b]]
    ensures before + shard == before + shard[..b] + [shard[b]] + shard[b + 1..]
  {
  }

  lemma ConsumeInShard(f: Normaliser, before: seq<Batch>, shard: seq<Batch>, b: nat, rows: seq<Row>, target: nat)
    requires b < |shard| && Consume(f, before + shard[..b], target) == Some(rows)
    ensures Consume(f, before + shard[..b + 1], target) == ConsumeOne(f, rows, shard[b], target)
    ensures ConsumeOne(f, rows, shard[b], target).None? ==> Consume(f, before + shard, target).None?
  {
    ShardSplit(before, shard, b);
    ConsumeNext(f, before + shard[..b], shard[b], shard[b + 1..], rows, target);
  }

  /** One shard's batches, doing no more work once the file is full. */
  method StreamShard(f: Normaliser, base: array<Row>, ghost before: seq<Batch>, shard: seq<Batch>, have: seq<Row>)
    returns (hashed: Option<seq<Row>>)
    requires |have| <= base.Length && base[..|have|] == have && Consume(f, before, base.Length) == Some(have)
    modifies base
    ensures hashed == Consume(f, before + shard, base.Length)
    ensures hashed.Some? ==> base[..|hashed.value|] == hashed.value
  {
    var rows := have;
    assert before + shard[..0] == before;
    for b := 0 to |shard|
      invariant |rows| <= base.Length && base[..|rows|] == rows
      invariant Consume(f, before + shard[..b], base.Length) == Some(rows)
    {
      ConsumeInShard(f, before, shard, b, rows, base.Length);
      var next := ConsumeOne(f, rows, shard[b], base.Length);
      if next.None? { return None; }
      Extend(base, rows, next.value);
      rows := next.value;
    }
    assert shard[..|shard|] == shard;
    hashed := Some(rows);
  }

  /**
   Fills the base file and its running hash.  It succeeds exactly when the shards yield
   `target` good rows; the file then holds them in order and the hash is that of the file.
   */
  method StreamBase(f: Normaliser, shards: seq<seq<Batch>>, target: nat, dim: int)
    returns (r: Result<(File, Digest), string>)
    ensures r.Ok? <==>
            Consume(f, Flatten(shards), target).Some? && |Consume(f, Flatten(shards), target).value| == target
    ensures r.Ok? ==> r.value == (Raw(Consume(f, Flatten(shards), target).value, dim), HashFile(r.value.0))
  {
    var base := new Row[target];
    var hashed: seq<Row> := [];
    for s := 0 to |shards|
      invariant |hashed| <= target && base[..|hashed|] == hashed
      invariant Consume(f, Flatten(shards[..s]), target) == Some(hashed)
    {
      assert shards[..s + 1][..s] == shards[..s];
      var next := StreamShard(f, base, Flatten(shards[..s]), shards[s], hashed);
      if next.None? {
        ShardFails(f, shards, s + 1, target);
        return Err("unreadable batch or bad vector");
      }
      hashed := next.value;
    }
    assert shards[..|shards|] == shards;
    if |hashed| != target { return Err("too few rows"); }
    assert base[..] == hashed;
    r := Ok((Raw(base[..], dim), OfRows(hashed)));
  }

  lemma ShardFails(f: Normaliser, shards: seq<seq<Batch>>, s: nat, target: nat)
    requires s <= |shards| && Consume(f, Flatten(shards[..s]), target).None?
    ensures Consume(f, Flatten(shards), target).None?
  {
    FlattenSplit(shards[..s], shards[s..]);
    ConsumeFails(f, Flatten(shards[..s]), Flatten(shards[s..]), target);
    assert shards[..s] + shards[s..] == shards;
  }

  lemma {:induction false} FlattenSplit(a: seq<seq<Batch>>, b: seq<seq<Batch>>)
    ensures Flatten(a + b) == Flatten(a) + Flatten(b)
  {
    if b == [] {
      assert a + b == a;
    } else {
      var n := |b| - 1;
      var all := a + b;
      FlattenSplit(a, b[..n]);
      assert all[..|all| - 1] == a + b[..n] && all[|all| - 1] == b[n];
      assert Flatten(all) == Flatten(a + b[..n]) + b[n];
    }
  }
}
