/**
 The generation commit protocol: immutable digest-checked artifacts are written only if
 absent, and a root pointer is then swapped by comparing the whole committed body.
 */
module Commits {
  import opened Prelude
  import opened Digests

  type Name = string

  datatype Ref = Ref(name: Name, sha256: string)

  /** A committed root manifest: its generation, the artifacts it names, and everything else. */
  datatype Body = Body(generation: Option<nat>, refs: seq<Ref>, rest: string)

  datatype StoreError = NotFound | Integrity | PointerConflict(expected: Option<nat>, found: Option<nat>)

  function Lookup<K, V>(m: map<K, V>, k: K): Option<V> {
    if k in m then Some(m[k]) else None
  }

  function GenerationOf(body: Option<Body>): Option<nat> {
    if body.None? then None else body.value.generation
  }

  // ----- The store -----

  /** What a write leaves and answers: identical bytes are accepted, anything else refused. */
  function Written(sha: Sha, artifacts: map<Name, Data>, name: Name, data: Data, sha256: string): map<Name, Data> {
    if name !in artifacts && sha.HexOf(data) == sha256 then artifacts[name := data] else artifacts
  }

  predicate WriteAccepted(sha: Sha, artifacts: map<Name, Data>, name: Name, data: Data, sha256: string) {
    sha.HexOf(if name in artifacts then artifacts[name] else data) == sha256
  }

  class ArtifactStore {
    const sha: Sha
    var artifacts: map<Name, Data>
    var pointers: map<string, Body>

    constructor (sha: Sha)
      ensures this.sha == sha && artifacts == map[] && pointers == map[]
    {
      this.sha := sha;
      artifacts := map[];
      pointers := map[];
    }

    method ReadBytes(name: Name) returns (r: Result<Data, StoreError>)
      ensures r == if name in artifacts then Ok(artifacts[name]) else Err(NotFound)
    {
      r := if name in artifacts then Ok(artifacts[name]) else Err(NotFound);
    }

    method Contains(name: Name) returns (present: bool)
      ensures present <==> name in artifacts
    {
      var stream := ReadBytes(name);
      present := stream.Ok?;
    }

    method ReadPointer(key: string) returns (body: Option<Body>)
      ensures body == Lookup(pointers, key)
    {
      body := Lookup(pointers, key);
    }

    /**
     Streams one artifact in, hashing as it copies.  Success means the stored bytes have the
     expected digest; a failure stores nothing; and nothing already stored ever changes.
     */
    method WriteStreamIfAbsent(name: Name, bursts: seq<Data>, sha256: string) returns (r: Result<(), StoreError>)
      requires sha.Incremental()
      modifies this`artifacts
      ensures artifacts == Written(sha, old(artifacts), name, Concat(Delivered(bursts)), sha256)
      ensures r.Ok? <==> WriteAccepted(sha, old(artifacts), name, Concat(Delivered(bursts)), sha256)
      ensures r.Ok? ==> name in artifacts && sha.HexOf(artifacts[name]) == sha256
      ensures r.Err? ==> artifacts == old(artifacts)
      ensures forall n | n in old(artifacts) :: n in artifacts && artifacts[n] == old(artifacts)[n]
    {
      if name in artifacts {
        r := if sha.HexOf(artifacts[name]) == sha256 then Ok(()) else Err(Integrity);
        return;
      }
      var digest, _ := HashReader(sha, bursts);
      if digest != sha256 { return Err(Integrity); }
      artifacts := artifacts[name := Concat(Delivered(bursts))];
      r := Ok(());
    }

    /** Publishes exactly when the committed body is the expected one; otherwise nothing changes. */
    method CompareAndSwapPointer(key: string, oldBody: Option<Body>, newBody: Body) returns (r: Result<(), StoreError>)
      modifies this`pointers
      ensures r.Ok? <==> Lookup(old(pointers), key) == oldBody
      ensures pointers == if r.Ok? then old(pointers)[key := newBody] else old(pointers)
      ensures r.Err? ==> r.error == PointerConflict(GenerationOf(oldBody), GenerationOf(Lookup(old(pointers), key)))
    {
      var current := ReadPointer(key);
      if current != oldBody {
        return Err(PointerConflict(GenerationOf(oldBody), GenerationOf(current)));
      }
      pointers := pointers[key := newBody];
      r := Ok(());
    }
  }

  // ----- Which artifacts a transfer uploads -----

  /** The digest the destination's inventory records for a name; a later entry hides an earlier one. */
  function RemoteSha(refs: seq<Ref>, name: Name): (r: Option<string>)
    ensures r.Some? ==> Ref(name, r.value) in refs
  {
    if refs == [] then None
    else
      var last := refs[|refs| - 1];
      if last.name == name then Some(last.sha256) else RemoteSha(refs[..|refs| - 1], name)
  }

  function RemoteRefs(oldBody: Option<Body>): seq<Ref> {
    if oldBody.None? then [] else oldBody.value.refs
  }

  /** Exactly the artifacts the destination does not name with the same digest. */
  function Missing(refs: seq<Ref>, remote: seq<Ref>): (todo: seq<Ref>)
    ensures forall r :: r in todo <==> r in refs && RemoteSha(remote, r.name) != Some(r.sha256)
    ensures forall r | r in refs :: r in todo || r in remote
  {
    if refs == [] then []
    else
      var rest := Missing(refs[1..], remote);
      if RemoteSha(remote, refs[0].name) != Some(refs[0].sha256) then [refs[0]] + rest else rest
  }

  ghost predicate DistinctNames(refs: seq<Ref>) {
    forall i, j | 0 <= i < j < |refs| :: refs[i].name != refs[j].name
  }

  lemma {:induction false} RemoteShaOfOwn(refs: seq<Ref>, i: nat)
    requires DistinctNames(refs) && i < |refs|
    ensures RemoteSha(refs, refs[i].name) == Some(refs[i].sha256)
  {
    var n := |refs| - 1;
    if i < n { RemoteShaOfOwn(refs[..n], i); }
  }

  lemma {:induction false} AllNamed(refs: seq<Ref>, remote: seq<Ref>)
    requires forall i | 0 <= i < |refs| :: RemoteSha(remote, refs[i].name) == Some(refs[i].sha256)
    ensures Missing(refs, remote) == []
  {
    if refs != [] { AllNamed(refs[1..], remote); }
  }

  /** A body the destination already holds leaves nothing to upload. */
  lemma NothingMissing(refs: seq<Ref>)
    requires DistinctNames(refs)
    ensures Missing(refs, refs) == []
  {
    forall i | 0 <= i < |refs| ensures RemoteSha(refs, refs[i].name) == Some(refs[i].sha256) {
      RemoteShaOfOwn(refs, i);
    }
    AllNamed(refs, refs);
  }

  // ----- Clients -----

  /**
   A transfer in flight.  Its bytes are staged in a private scratch, verified, and only then
   claimed under the artifact's name without replacing anything.
   */
  datatype Phase =
    | Staging(todo: seq<Ref>)
    | Claiming(next: Ref, behind: seq<Ref>, scratch: Data)
    | Finished(published: bool)
    | Failed

  datatype Client = Client(phase: Phase, key: string, oldBody: Option<Body>, newBody: Body)

  datatype Swap = Swap(key: string, oldBody: Option<Body>, newBody: Body)

  datatype System = System(
    artifacts: map<Name, Data>,
    pointers: map<string, Body>,
    clients: map<nat, Client>,
    swaps: seq<Swap>)

  datatype Step =
    | Begin(id: nat, key: string, body: Body)
    | Upload(id: nat, data: Data)
    | Claim(id: nat)
    | Publish(id: nat)
    | Crash(id: nat)

  function WithPhase(s: System, id: nat, phase: Phase): System
    requires id in s.clients
  {
    s.(clients := s.clients[id := s.clients[id].(phase := phase)])
  }

  /** The answer for a name that is already there. */
  function Compared(sha: Sha, s: System, id: nat, r: Ref, behind: seq<Ref>): System
    requires id in s.clients && r.name in s.artifacts
  {
    WithPhase(s, id, if sha.HexOf(s.artifacts[r.name]) == r.sha256 then Staging(behind) else Failed)
  }

  function UploadNext(sha: Sha, s: System, id: nat, r: Ref, behind: seq<Ref>, data: Data): System
    requires id in s.clients
  {
    if r.name in s.artifacts then Compared(sha, s, id, r, behind)
    else WithPhase(s, id, if sha.HexOf(data) == r.sha256 then Claiming(r, behind, data) else Failed)
  }

  function ClaimName(sha: Sha, s: System, id: nat, r: Ref, behind: seq<Ref>, scratch: Data): System
    requires id in s.clients
  {
    if r.name in s.artifacts then Compared(sha, s, id, r, behind)
    else WithPhase(s.(artifacts := s.artifacts[r.name := scratch]), id, Staging(behind))
  }

  /** Installs the client's body over whatever is committed and records the swap. */
  function Install(s: System, id: nat): System
    requires id in s.clients
  {
    var c := s.clients[id];
    WithPhase(s.(pointers := s.pointers[c.key := c.newBody], swaps := s.swaps + [Swap(c.key, c.oldBody, c.newBody)]),
              id, Finished(true))
  }

  function PublishBody(s: System, id: nat): System
    requires id in s.clients
  {
    var c := s.clients[id];
    if c.oldBody == Some(c.newBody) then WithPhase(s, id, Finished(false))
    else if Lookup(s.pointers, c.key) == c.oldBody then Install(s, id)
    else WithPhase(s, id, Failed)
  }

  function Next(sha: Sha, s: System, step: Step): System {
    match step
    case Begin(id, key, body) =>
      var oldBody := Lookup(s.pointers, key);
      s.(clients := s.clients[id := Client(Staging(Missing(body.refs, RemoteRefs(oldBody))), key, oldBody, body)])
    case Upload(id, data) =>
      if id in s.clients && s.clients[id].phase.Staging? && s.clients[id].phase.todo != [] then
        UploadNext(sha, s, id, s.clients[id].phase.todo[0], s.clients[id].phase.todo[1..], data)
      else s
    case Claim(id) =>
      if id in s.clients && s.clients[id].phase.Claiming? then
        ClaimName(sha, s, id, s.clients[id].phase.next, s.clients[id].phase.behind, s.clients[id].phase.scratch)
      else s
    case Publish(id) =>
      if id in s.clients && s.clients[id].phase == Staging([]) then PublishBody(s, id) else s
    case Crash(id) => s.(clients := s.clients - {id})
  }

  const EMPTY: System := System(map[], map[], map[], [])

  ghost predicate Run(sha: Sha, states: seq<System>, steps: seq<Step>) {
    && |states| == |steps| + 1
    && forall i | 0 <= i < |steps| :: states[i + 1] == Next(sha, states[i], steps[i])
  }

  // ----- Safety -----

  ghost predicate Present(sha: Sha, artifacts: map<Name, Data>, r: Ref) {
    r.name in artifacts && sha.HexOf(artifacts[r.name]) == r.sha256
  }

  /** Every artifact the body names is there with the recorded digest. */
  ghost predicate Complete(sha: Sha, artifacts: map<Name, Data>, body: Body) {
    forall r | r in body.refs :: Present(sha, artifacts, r)
  }

  /** What is still to do, plus what is there, covers the body to be committed. */
  ghost predicate Covers(sha: Sha, artifacts: map<Name, Data>, body: Body, todo: seq<Ref>) {
    forall r | r in body.refs :: r in todo || Present(sha, artifacts, r)
  }

  ghost predicate ClientOk(sha: Sha, artifacts: map<Name, Data>, c: Client) {
    match c.phase
    case Staging(todo) => Covers(sha, artifacts, c.newBody, todo)
    case Claiming(r, behind, scratch) =>
      sha.HexOf(scratch) == r.sha256 && Covers(sha, artifacts, c.newBody, [r] + behind)
    case _ => true
  }

  ghost predicate Safe(sha: Sha, s: System) {
    && (forall key | key in s.pointers :: Complete(sha, s.artifacts, s.pointers[key]))
    && (forall id | id in s.clients :: ClientOk(sha, s.artifacts, s.clients[id]))
  }

  /** Stored artifacts neither change nor disappear. */
  ghost predicate Grows(before: map<Name, Data>, after: map<Name, Data>) {
    forall n | n in before :: n in after && after[n] == before[n]
  }

  lemma StepGrows(sha: Sha, s: System, step: Step)
    ensures Grows(s.artifacts, Next(sha, s, step).artifacts)
  {
  }

  lemma GrowsKeepsClient(sha: Sha, before: map<Name, Data>, after: map<Name, Data>, c: Client)
    requires Grows(before, after) && ClientOk(sha, before, c)
    ensures ClientOk(sha, after, c)
  {
  }

  /** A larger set of artifacts keeps everything but the one client that moved safe. */
  lemma GrowsSafe(sha: Sha, s: System, after: System, id: nat)
    requires Safe(sha, s) && Grows(s.artifacts, after.artifacts) && after.pointers == s.pointers
    requires forall c | c in after.clients && c != id :: c in s.clients && after.clients[c] == s.clients[c]
    requires id in after.clients ==> ClientOk(sha, after.artifacts, after.clients[id])
    ensures Safe(sha, after)
  {
    forall c | c in after.clients ensures ClientOk(sha, after.artifacts, after.clients[c]) {
      if c != id { GrowsKeepsClient(sha, s.artifacts, after.artifacts, s.clients[c]); }
    }
  }

  lemma BeginSafe(sha: Sha, s: System, id: nat, key: string, body: Body)
    requires Safe(sha, s)
    ensures Safe(sha, Next(sha, s, Begin(id, key, body)))
  {
    var after := Next(sha, s, Begin(id, key, body));
    var oldBody := Lookup(s.pointers, key);
    var todo := Missing(body.refs, RemoteRefs(oldBody));
    forall r | r in body.refs ensures r in todo || Present(sha, s.artifacts, r) {
      if r !in todo { assert r in RemoteRefs(oldBody); }
    }
    GrowsSafe(sha, s, after, id);
  }

  lemma UploadSafe(sha: Sha, s: System, id: nat, r: Ref, behind: seq<Ref>, data: Data)
    requires Safe(sha, s) && id in s.clients && Covers(sha, s.artifacts, s.clients[id].newBody, [r] + behind)
    ensures Safe(sha, UploadNext(sha, s, id, r, behind, data))
  {
    GrowsSafe(sha, s, UploadNext(sha, s, id, r, behind, data), id);
  }

  lemma ClaimSafe(sha: Sha, s: System, id: nat, r: Ref, behind: seq<Ref>, scratch: Data)
    requires Safe(sha, s) && id in s.clients && Covers(sha, s.artifacts, s.clients[id].newBody, [r] + behind)
    requires sha.HexOf(scratch) == r.sha256
    ensures Safe(sha, ClaimName(sha, s, id, r, behind, scratch))
  {
    GrowsSafe(sha, s, ClaimName(sha, s, id, r, behind, scratch), id);
  }

  lemma StepSafe(sha: Sha, s: System, step: Step)
    requires Safe(sha, s)
    ensures Safe(sha, Next(sha, s, step))
  {
    match step
    case Begin(id, key, body) => BeginSafe(sha, s, id, key, body);
    case Upload(id, data) =>
      if id in s.clients && s.clients[id].phase.Staging? && s.clients[id].phase.todo != [] {
        var todo := s.clients[id].phase.todo;
        assert [todo[0]] + todo[1..] == todo;
        assert ClientOk(sha, s.artifacts, s.clients[id]);
        UploadSafe(sha, s, id, todo[0], todo[1..], data);
      }
    case Claim(id) =>
      if id in s.clients && s.clients[id].phase.Claiming? {
        var p := s.clients[id].phase;
        assert ClientOk(sha, s.artifacts, s.clients[id]);
        ClaimSafe(sha, s, id, p.next, p.behind, p.scratch);
      }
    case Publish(id) =>
      if id in s.clients && s.clients[id].phase == Staging([]) {
        assert ClientOk(sha, s.artifacts, s.clients[id]);
        assert Complete(sha, s.artifacts, s.clients[id].newBody);
      }
    case Crash(id) =>
  }

  /**
   At every moment of every run, the committed bodies name only artifacts that are present
   with the recorded digest.
   */
  lemma {:induction false} CommittedIsComplete(sha: Sha, states: seq<System>, steps: seq<Step>, k: nat)
    requires Run(sha, states, steps) && states[0] == EMPTY && k < |states|
    ensures Safe(sha, states[k])
  {
    if k > 0 {
      CommittedIsComplete(sha, states, steps, k - 1);
      StepSafe(sha, states[k - 1], steps[k - 1]);
    }
  }

  /** No stored artifact ever changes or disappears. */
  lemma {:induction false} ArtifactsImmutable(sha: Sha, states: seq<System>, steps: seq<Step>, i: nat, j: nat)
    requires Run(sha, states, steps) && i <= j < |states|
    ensures Grows(states[i].artifacts, states[j].artifacts)
  {
    if i < j {
      ArtifactsImmutable(sha, states, steps, i, j - 1);
      StepGrows(sha, states[j - 1], steps[j - 1]);
    }
  }

  // ----- No lost update -----

  /** The committed bodies after a list of swaps. */
  function Replay(swaps: seq<Swap>): map<string, Body> {
    if swaps == [] then map[]
    else Replay(swaps[..|swaps| - 1])[swaps[|swaps| - 1].key := swaps[|swaps| - 1].newBody]
  }

  /** Each swap replaced exactly the body committed just before it. */
  ghost predicate Linear(swaps: seq<Swap>) {
    forall i | 0 <= i < |swaps| :: swaps[i].oldBody == Lookup(Replay(swaps[..i]), swaps[i].key)
  }

  ghost predicate Chained(s: System) {
    s.pointers == Replay(s.swaps) && Linear(s.swaps)
  }

  /** Installing keeps the chain if and only if the body it expects is the committed one. */
  lemma InstallKeepsChain(s: System, id: nat)
    requires Chained(s) && id in s.clients
    ensures Chained(Install(s, id)) <==> Lookup(s.pointers, s.clients[id].key) == s.clients[id].oldBody
  {
    var after := Install(s, id);
    var n := |s.swaps|;
    assert after.swaps[..n] == s.swaps;
    assert forall i | 0 <= i < n :: after.swaps[..i] == s.swaps[..i];
    if Lookup(s.pointers, s.clients[id].key) == s.clients[id].oldBody {
      forall i | 0 <= i < |after.swaps|
        ensures after.swaps[i].oldBody == Lookup(Replay(after.swaps[..i]), after.swaps[i].key)
      {
        if i < n { assert after.swaps[i] == s.swaps[i]; }
      }
    } else {
      assert after.swaps[n].oldBody != Lookup(Replay(after.swaps[..n]), after.swaps[n].key);
    }
  }

  lemma PublishKeepsChain(s: System, id: nat)
    requires Chained(s) && id in s.clients
    ensures Chained(PublishBody(s, id))
  {
    InstallKeepsChain(s, id);
  }

  /** Only a publication touches the pointers and the swaps. */
  lemma OthersKeepPointers(sha: Sha, s: System, step: Step)
    requires !step.Publish?
    ensures Next(sha, s, step).pointers == s.pointers && Next(sha, s, step).swaps == s.swaps
  {
  }

  lemma StepChained(sha: Sha, s: System, step: Step)
    requires Chained(s)
    ensures Chained(Next(sha, s, step))
  {
    if step.Publish? {
      if step.id in s.clients { PublishKeepsChain(s, step.id); }
    } else {
      OthersKeepPointers(sha, s, step);
    }
  }

  lemma {:induction false} CommitsFormAChain(sha: Sha, states: seq<System>, steps: seq<Step>, k: nat)
    requires Run(sha, states, steps) && states[0] == EMPTY && k < |states|
    ensures Chained(states[k])
  {
    if k > 0 {
      CommitsFormAChain(sha, states, steps, k - 1);
      StepChained(sha, states[k - 1], steps[k - 1]);
    }
  }

  // ----- Transfers that succeed -----

  /** Staging and claiming one artifact is writing it if absent: the same store, and failure in the same cases. */
  lemma UploadWrites(sha: Sha, s: System, id: nat, data: Data)
    requires id in s.clients && s.clients[id].phase.Staging? && s.clients[id].phase.todo != []
    ensures var todo := s.clients[id].phase.todo;
            var r, after := todo[0], Next(sha, Next(sha, s, Upload(id, data)), Claim(id));
            && after.artifacts == Written(sha, s.artifacts, r.name, data, r.sha256)
            && after == s.(artifacts := after.artifacts, clients := after.clients)
            && after.clients == s.clients[id := s.clients[id].(phase :=
                 if WriteAccepted(sha, s.artifacts, r.name, data, r.sha256) then Staging(todo[1..]) else Failed)]
  {
    var c, todo := s.clients[id], s.clients[id].phase.todo;
    var r, mid := todo[0], Next(sha, s, Upload(id, data));
    if r.name !in s.artifacts && sha.HexOf(data) == r.sha256 {
      assert mid.clients[id] == c.(phase := Claiming(r, todo[1..], data));
    }
  }

  /** No artifact of the list is stored with other contents, and no two of them claim one name differently. */
  ghost predicate Agrees(sha: Sha, artifacts: map<Name, Data>, refs: seq<Ref>) {
    && (forall r | r in refs && r.name in artifacts :: sha.HexOf(artifacts[r.name]) == r.sha256)
    && (forall q, r | q in refs && r in refs && q.name == r.name :: q.sha256 == r.sha256)
  }

  /** The bytes handed to the client have the recorded digests. */
  ghost predicate Supplies(sha: Sha, datas: seq<Data>, todo: seq<Ref>) {
    |datas| == |todo| && forall i | 0 <= i < |todo| :: sha.HexOf(datas[i]) == todo[i].sha256
  }

  /** The client's uploads one after the other. */
  function UploadAll(sha: Sha, s: System, id: nat, datas: seq<Data>): System
    decreases |datas|
  {
    if datas == [] then s
    else UploadAll(sha, Next(sha, Next(sha, s, Upload(id, datas[0])), Claim(id)), id, datas[1..])
  }

  lemma AgreesAfter(sha: Sha, artifacts: map<Name, Data>, todo: seq<Ref>, data: Data)
    requires todo != [] && Agrees(sha, artifacts, todo) && sha.HexOf(data) == todo[0].sha256
    ensures Agrees(sha, Written(sha, artifacts, todo[0].name, data, todo[0].sha256), todo[1..])
    ensures Present(sha, Written(sha, artifacts, todo[0].name, data, todo[0].sha256), todo[0])
  {
    var after, rest := Written(sha, artifacts, todo[0].name, data, todo[0].sha256), todo[1..];
    assert forall r | r in rest :: r in todo;
    assert todo[0] in todo;
  }

  /** One artifact handed over with the right bytes. */
  lemma UploadOne(sha: Sha, s: System, id: nat, data: Data)
    requires id in s.clients && s.clients[id].phase.Staging? && s.clients[id].phase.todo != []
    requires Agrees(sha, s.artifacts, s.clients[id].phase.todo) && sha.HexOf(data) == s.clients[id].phase.todo[0].sha256
    ensures var c, after := s.clients[id], Next(sha, Next(sha, s, Upload(id, data)), Claim(id));
            && after.clients == s.clients[id := c.(phase := Staging(c.phase.todo[1..]))]
            && after.pointers == s.pointers && after.swaps == s.swaps && Grows(s.artifacts, after.artifacts)
            && Present(sha, after.artifacts, c.phase.todo[0]) && Agrees(sha, after.artifacts, c.phase.todo[1..])
  {
    var todo := s.clients[id].phase.todo;
    UploadWrites(sha, s, id, data);
    AgreesAfter(sha, s.artifacts, todo, data);
    assert todo[0] in todo;
  }

  lemma PresentStays(sha: Sha, before: map<Name, Data>, after: map<Name, Data>, r: Ref)
    requires Present(sha, before, r) && Grows(before, after)
    ensures Present(sha, after, r)
  {
  }

  lemma {:induction false} UploadsSucceed(sha: Sha, s: System, id: nat, datas: seq<Data>)
    requires id in s.clients && s.clients[id].phase.Staging?
    requires Agrees(sha, s.artifacts, s.clients[id].phase.todo) && Supplies(sha, datas, s.clients[id].phase.todo)
    ensures var after := UploadAll(sha, s, id, datas);
            && after.clients == s.clients[id := s.clients[id].(phase := Staging([]))]
            && after.pointers == s.pointers && after.swaps == s.swaps && Grows(s.artifacts, after.artifacts)
            && forall r | r in s.clients[id].phase.todo :: Present(sha, after.artifacts, r)
    decreases |datas|
  {
    var todo := s.clients[id].phase.todo;
    if datas == [] {
      assert todo == [] && s.clients[id].(phase := Staging([])) == s.clients[id];
    } else {
      UploadOne(sha, s, id, datas[0]);
      var next := Next(sha, Next(sha, s, Upload(id, datas[0])), Claim(id));
      UploadsSucceed(sha, next, id, datas[1..]);
      var after := UploadAll(sha, next, id, datas[1..]);
      PresentStays(sha, next.artifacts, after.artifacts, todo[0]);
      forall r | r in todo ensures Present(sha, after.artifacts, r) {
        if r != todo[0] { assert r in todo[1..]; }
      }
    }
  }

  lemma CoveredIsComplete(sha: Sha, before: map<Name, Data>, after: map<Name, Data>, body: Body, todo: seq<Ref>)
    requires Covers(sha, before, body, todo) && Grows(before, after)
    requires forall r | r in todo :: Present(sha, after, r)
    ensures Complete(sha, after, body)
  {
  }

  /** Everything up to the publication. */
  function Staged(sha: Sha, s: System, id: nat, key: string, body: Body, datas: seq<Data>): System {
    UploadAll(sha, Next(sha, s, Begin(id, key, body)), id, datas)
  }

  /** A client about to upload what its body lacks. */
  ghost predicate Ready(sha: Sha, s: System, id: nat, body: Body) {
    && id in s.clients && s.clients[id].phase.Staging? && s.clients[id].newBody == body
    && Covers(sha, s.artifacts, body, s.clients[id].phase.todo) && Agrees(sha, s.artifacts, s.clients[id].phase.todo)
  }

  lemma BeginIsReady(sha: Sha, s: System, id: nat, key: string, body: Body)
    requires Safe(sha, s) && Agrees(sha, s.artifacts, body.refs)
    ensures Ready(sha, Next(sha, s, Begin(id, key, body)), id, body)
  {
    BeginSafe(sha, s, id, key, body);
    var begun := Next(sha, s, Begin(id, key, body));
    assert ClientOk(sha, begun.artifacts, begun.clients[id]);
    assert forall r | r in begun.clients[id].phase.todo :: r in body.refs;
  }

  lemma ReadyCompletes(sha: Sha, begun: System, id: nat, body: Body, datas: seq<Data>)
    requires Ready(sha, begun, id, body) && Supplies(sha, datas, begun.clients[id].phase.todo)
    ensures var after := UploadAll(sha, begun, id, datas);
            && after.clients == begun.clients[id := begun.clients[id].(phase := Staging([]))]
            && after.pointers == begun.pointers && Grows(begun.artifacts, after.artifacts)
            && Complete(sha, after.artifacts, body)
  {
    UploadsSucceed(sha, begun, id, datas);
    var after := UploadAll(sha, begun, id, datas);
    CoveredIsComplete(sha, begun.artifacts, after.artifacts, body, begun.clients[id].phase.todo);
  }

  /** A staged body whose predecessor is still committed is committed. */
  lemma PublishCommits(sha: Sha, s: System, id: nat)
    requires id in s.clients && s.clients[id].phase == Staging([])
    requires Lookup(s.pointers, s.clients[id].key) == s.clients[id].oldBody
    ensures var c, after := s.clients[id], Next(sha, s, Publish(id));
            && Lookup(after.pointers, c.key) == Some(c.newBody) && after.artifacts == s.artifacts
            && after.clients == s.clients[id := c.(phase := Finished(c.oldBody != Some(c.newBody)))]
            && forall k | k != c.key :: Lookup(after.pointers, k) == Lookup(s.pointers, k)
  {
  }

  /** What a transfer leaves: its body committed and complete, all else as it was. */
  ghost predicate Transferred(sha: Sha, s: System, after: System, id: nat, key: string, body: Body) {
    var oldBody := Lookup(s.pointers, key);
    && Lookup(after.pointers, key) == Some(body) && Complete(sha, after.artifacts, body)
    && after.clients == s.clients[id := Client(Finished(oldBody != Some(body)), key, oldBody, body)]
    && Grows(s.artifacts, after.artifacts)
    && forall k | k != key :: Lookup(after.pointers, k) == Lookup(s.pointers, k)
  }

  lemma StagedTransfers(sha: Sha, s: System, staged: System, id: nat, key: string, body: Body)
    requires staged.clients == s.clients[id := Client(Staging([]), key, Lookup(s.pointers, key), body)]
    requires staged.pointers == s.pointers && Grows(s.artifacts, staged.artifacts)
    requires Complete(sha, staged.artifacts, body)
    ensures Transferred(sha, s, Next(sha, staged, Publish(id)), id, key, body)
  {
    PublishCommits(sha, staged, id);
  }

  /**
   A transfer that is handed the right bytes, meets no conflicting name and is not overtaken commits
   its body, with every artifact it names present.
   */
  lemma TransferCommits(sha: Sha, s: System, id: nat, key: string, body: Body, datas: seq<Data>)
    requires Safe(sha, s) && Agrees(sha, s.artifacts, body.refs)
    requires Supplies(sha, datas, Missing(body.refs, RemoteRefs(Lookup(s.pointers, key))))
    ensures Transferred(sha, s, Next(sha, Staged(sha, s, id, key, body, datas), Publish(id)), id, key, body)
  {
    var begun := Next(sha, s, Begin(id, key, body));
    BeginIsReady(sha, s, id, key, body);
    ReadyCompletes(sha, begun, id, body, datas);
    StagedTransfers(sha, s, UploadAll(sha, begun, id, datas), id, key, body);
  }

  /** Repeating a transfer that is already committed uploads nothing and moves no pointer. */
  lemma RepeatIsIdle(sha: Sha, s: System, id: nat, key: string)
    requires key in s.pointers && DistinctNames(s.pointers[key].refs)
    ensures var begun := Next(sha, s, Begin(id, key, s.pointers[key]));
            var done := Next(sha, begun, Publish(id));
            && begun.clients[id].phase == Staging([])
            && done.clients[id].phase == Finished(false)
            && done.artifacts == s.artifacts && done.pointers == s.pointers && done.swaps == s.swaps
  {
    NothingMissing(s.pointers[key].refs);
  }

  /** In a chain, a swap's old body is the new body of the previous swap of the same key. */
  lemma {:induction false} NoLostUpdate(swaps: seq<Swap>, i: nat, j: nat)
    requires Linear(swaps) && i < j < |swaps| && swaps[i].key == swaps[j].key
    requires forall m | i < m < j :: swaps[m].key != swaps[j].key
    ensures swaps[j].oldBody == Some(swaps[i].newBody)
  {
    LastWriter(swaps, i, j);
  }

  lemma {:induction false} LastWriter(swaps: seq<Swap>, i: nat, j: nat)
    requires i < j <= |swaps| && forall m | i < m < j :: swaps[m].key != swaps[i].key
    ensures Lookup(Replay(swaps[..j]), swaps[i].key) == Some(swaps[i].newBody)
  {
    assert swaps[..j][..j - 1] == swaps[..j - 1];
    if i < j - 1 { LastWriter(swaps, i, j - 1); }
  }

  // ----- Weaker swaps -----

  /** The swap that compares generation numbers only. */
  function PublishByGeneration(s: System, id: nat): System
    requires id in s.clients
  {
    var c := s.clients[id];
    if c.oldBody == Some(c.newBody) then WithPhase(s, id, Finished(false))
    else if GenerationOf(Lookup(s.pointers, c.key)) == GenerationOf(c.oldBody) then Install(s, id)
    else WithPhase(s, id, Failed)
  }

  /** It keeps the chain exactly unless a different body with the same generation number is committed. */
  lemma GenerationSwapExact(s: System, id: nat)
    requires Chained(s) && id in s.clients && s.clients[id].oldBody != Some(s.clients[id].newBody)
    ensures var current := Lookup(s.pointers, s.clients[id].key);
            Chained(PublishByGeneration(s, id)) <==>
            current == s.clients[id].oldBody || GenerationOf(current) != GenerationOf(s.clients[id].oldBody)
  {
    InstallKeepsChain(s, id);
  }

  /**
   Two lineages at one generation: client 0 commits `a`; while client 1 works from it towards
   `c`, client 2 replaces it by `b`.
   */
  function TwoLineages(sha: Sha, key: string, a: Body, b: Body, c: Body): System {
    var first := Next(sha, Next(sha, EMPTY, Begin(0, key, a)), Publish(0));
    Next(sha, Next(sha, Next(sha, first, Begin(1, key, c)), Begin(2, key, b)), Publish(2))
  }

  /** A transfer without artifacts of its own, up to its publication. */
  lemma EmptyTransfer(sha: Sha, s: System, id: nat, key: string, body: Body)
    requires Chained(s) && body.refs == []
    ensures var after := Next(sha, s, Begin(id, key, body));
            && after == s.(clients := s.clients[id := Client(Staging([]), key, Lookup(s.pointers, key), body)])
            && Chained(after)
  {
    StepChained(sha, s, Begin(id, key, body));
  }

  lemma UncontestedPublish(sha: Sha, s: System, id: nat)
    requires Chained(s) && id in s.clients && s.clients[id].phase == Staging([])
    requires s.clients[id].oldBody == Lookup(s.pointers, s.clients[id].key) != Some(s.clients[id].newBody)
    ensures var after := Next(sha, s, Publish(id));
            && Chained(after)
            && Lookup(after.pointers, s.clients[id].key) == Some(s.clients[id].newBody)
            && forall other | other in s.clients && other != id ::
                 other in after.clients && after.clients[other] == s.clients[other]
  {
    StepChained(sha, s, Publish(id));
  }

  /** The state just before client 1 publishes. */
  lemma LineagesMeet(sha: Sha, key: string, a: Body, b: Body, c: Body)
    requires a.refs == [] && b.refs == [] && c.refs == [] && a != b
    ensures var s := TwoLineages(sha, key, a, b, c);
            && Chained(s) && Lookup(s.pointers, key) == Some(b)
            && 1 in s.clients && s.clients[1] == Client(Staging([]), key, Some(a), c)
  {
    EmptyTransfer(sha, EMPTY, 0, key, a);
    var s0 := Next(sha, EMPTY, Begin(0, key, a));
    UncontestedPublish(sha, s0, 0);
    var s1 := Next(sha, s0, Publish(0));
    EmptyTransfer(sha, s1, 1, key, c);
    var s2 := Next(sha, s1, Begin(1, key, c));
    EmptyTransfer(sha, s2, 2, key, b);
    var s3 := Next(sha, s2, Begin(2, key, b));
    UncontestedPublish(sha, s3, 2);
  }

  /**
   When `a` and `b` share a generation number, the full-body swap then refuses client 1, while
   the generation swap commits over `b`, which client 1 never saw.
   */
  lemma GenerationSwapLosesCommit(sha: Sha, key: string, a: Body, b: Body, c: Body)
    requires a.refs == [] && b.refs == [] && c.refs == []
    requires a != b && a != c && a.generation == b.generation
    ensures var s := TwoLineages(sha, key, a, b, c);
            && Lookup(Next(sha, s, Publish(1)).pointers, key) == Some(b)
            && 1 in s.clients && Lookup(PublishByGeneration(s, 1).pointers, key) == Some(c)
            && !Chained(PublishByGeneration(s, 1))
  {
    LineagesMeet(sha, key, a, b, c);
    GenerationSwapExact(TwoLineages(sha, key, a, b, c), 1);
  }

  /** The directory backend reads and checks first and replaces later. */
  predicate LocalCheck(s: System, id: nat) {
    id in s.clients && Lookup(s.pointers, s.clients[id].key) == s.clients[id].oldBody
  }

  /**
   Its swap is sound exactly when nobody else published between check and replacement; two
   clients that both passed the check lose the first one's commit.
   */
  lemma LocalSwapNeedsOneWriter(s: System, first: nat, second: nat)
    requires Chained(s) && LocalCheck(s, first) && LocalCheck(s, second) && first != second
    requires s.clients[first].key == s.clients[second].key
    requires s.clients[first].oldBody != Some(s.clients[first].newBody)
    ensures Chained(Install(s, first)) && Chained(Install(s, second))
    ensures !Chained(Install(Install(s, first), second))
  {
    InstallKeepsChain(s, first);
    InstallKeepsChain(s, second);
    InstallKeepsChain(Install(s, first), second);
  }
}
