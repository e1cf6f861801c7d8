/**
 Path resolution for filesystem-backed stores: symlinks are followed through the deepest
 existing ancestor, the missing tail is re-appended, and the result is normalised lexically.
 */
module Paths {
  import opened Prelude

  /** A parsed path; interior `.` segments are already gone. */
  datatype Component = Cur | Parent | Normal(name: string)

  datatype Path = Path(absolute: bool, parts: seq<Component>)

  type Location = seq<string>

  function Normals(names: Location): (r: seq<Component>)
    ensures |r| == |names|
  {
    seq(|names|, i requires 0 <= i < |names| => Normal(names[i]))
  }

  predicate AllNormal(parts: seq<Component>) {
    forall i | 0 <= i < |parts| :: parts[i].Normal?
  }

  // ----- Lexical normalisation -----

  /** Removes the last name; at the root, or on an empty path, nothing happens. */
  function Pop(names: Location): Location {
    if names == [] then [] else names[..|names| - 1]
  }

  function Push(out: Location, c: Component): Location {
    match c
    case Cur => out
    case Parent => Pop(out)
    case Normal(name) => out + [name]
  }

  /** The names left after collapsing `.` and `..`, starting from `out`. */
  function Collapse(out: Location, parts: seq<Component>): Location {
    if parts == [] then out else Push(Collapse(out, parts[..|parts| - 1]), parts[|parts| - 1])
  }

  function LexicalNormalize(p: Path): (r: Path)
    ensures r.absolute == p.absolute && AllNormal(r.parts)
  {
    Path(p.absolute, Normals(Collapse([], p.parts)))
  }

  method Normalize(p: Path) returns (r: Path)
    ensures r == LexicalNormalize(p)
  {
    var out: Location := [];
    for i := 0 to |p.parts|
      invariant out == Collapse([], p.parts[..i])
    {
      assert p.parts[..i + 1][..i] == p.parts[..i];
      match p.parts[i] {
        case Parent => if out != [] { out := out[..|out| - 1]; }
        case Cur =>
        case Normal(name) => out := out + [name];
      }
    }
    assert p.parts[..|p.parts|] == p.parts;
    r := Path(p.absolute, Normals(out));
  }

  lemma {:induction false} CollapseConcat(out: Location, a: seq<Component>, b: seq<Component>)
    ensures Collapse(out, a + b) == Collapse(Collapse(out, a), b)
  {
    if b == [] {
      assert a + b == a;
    } else {
      var n := |b| - 1;
      assert (a + b)[..|a + b| - 1] == a + b[..n];
      CollapseConcat(out, a, b[..n]);
    }
  }

  lemma {:induction false} CollapseNormals(out: Location, names: Location)
    ensures Collapse(out, Normals(names)) == out + names
  {
    if names != [] {
      var n := |names| - 1;
      CollapseNormals(out, names[..n]);
      assert Normals(names)[..n] == Normals(names[..n]);
      assert names == names[..n] + [names[n]];
    }
  }

  lemma NormalizeIdempotent(p: Path)
    ensures LexicalNormalize(LexicalNormalize(p)) == LexicalNormalize(p)
  {
    CollapseNormals([], Collapse([], p.parts));
  }

  /** Normalising a prefix first does not change the result of normalising the whole. */
  lemma NormalizeComposes(p: Path, tail: seq<Component>)
    ensures LexicalNormalize(Path(p.absolute, LexicalNormalize(p).parts + tail))
            == LexicalNormalize(Path(p.absolute, p.parts + tail))
  {
    var out := Collapse([], p.parts);
    CollapseNormals([], out);
    assert [] + out == out;
    CollapseConcat([], LexicalNormalize(p).parts, tail);
    CollapseConcat([], p.parts, tail);
  }

  // ----- The filesystem -----

  datatype Node = Dir | File | Link(target: Path)

  /** What exists where; the root is always a directory. */
  type Tree = map<Location, Node>

  predicate IsDir(fs: Tree, at: Location) {
    at == [] || (at in fs && fs[at].Dir?)
  }

  /** Everything lies in an existing directory. */
  predicate WellFormed(fs: Tree) {
    [] !in fs && forall at | at in fs :: IsDir(fs, Pop(at))
  }

  /**
   Follows a path from a directory, expanding symlinks; `fuel` bounds the number of links, as the
   operating system does.  `None` is any failure.
   */
  function Resolve(fs: Tree, fuel: nat, at: Location, parts: seq<Component>): Option<Location>
    decreases fuel, |parts|
  {
    if parts == [] then Some(at)
    else
      match parts[0]
      case Cur => Resolve(fs, fuel, at, parts[1..])
      case Parent => Resolve(fs, fuel, Pop(at), parts[1..])
      case Normal(name) =>
        var next := at + [name];
        if next !in fs then None
        else
          match fs[next]
          case Dir => Resolve(fs, fuel, next, parts[1..])
          case File => if |parts| == 1 then Some(next) else None
          case Link(target) =>
            if fuel == 0 then None
            else Resolve(fs, fuel - 1, if target.absolute then [] else at, target.parts + parts[1..])
  }

  predicate HasLinks(fs: Tree) {
    exists at | at in fs :: fs[at].Link?
  }

  /** On a tree without symlinks, walking step by step ends where lexical normalisation says. */
  lemma {:induction false} WalkIsLexical(fs: Tree, fuel: nat, at: Location, parts: seq<Component>)
    requires !HasLinks(fs) && Resolve(fs, fuel, at, parts).Some?
    ensures Resolve(fs, fuel, at, parts).value == Collapse(at, parts)
    decreases |parts|
  {
    if parts != [] {
      assert parts == [parts[0]] + parts[1..];
      CollapseConcat(at, [parts[0]], parts[1..]);
      assert [parts[0]][..0] == [];
      assert Collapse(at, [parts[0]]) == Push(at, parts[0]);
      if parts[0].Normal? && fs[at + [parts[0].name]].File? {
        assert parts[1..] == [];
      } else {
        WalkIsLexical(fs, fuel, Push(at, parts[0]), parts[1..]);
      }
    }
  }

  /** Resolution does not notice files created elsewhere. */
  lemma {:induction false} ResolveExtends(fs: Tree, fs': Tree, fuel: nat, at: Location, parts: seq<Component>)
    requires (forall l | l in fs :: l in fs' && fs'[l] == fs[l]) && Resolve(fs, fuel, at, parts).Some?
    ensures Resolve(fs', fuel, at, parts) == Resolve(fs, fuel, at, parts)
    decreases fuel, |parts|
  {
    if parts != [] {
      match parts[0]
      case Cur => ResolveExtends(fs, fs', fuel, at, parts[1..]);
      case Parent => ResolveExtends(fs, fs', fuel, Pop(at), parts[1..]);
      case Normal(name) =>
        match fs[at + [name]]
        case Dir => ResolveExtends(fs, fs', fuel, at + [name], parts[1..]);
        case File =>
        case Link(target) =>
          ResolveExtends(fs, fs', fuel - 1, if target.absolute then [] else at, target.parts + parts[1..]);
    }
  }

  /** All the directories along `names` below `at`, the last of which may be any file. */
  ghost predicate Created(fs: Tree, at: Location, names: Location) {
    forall i | 0 < i <= |names| ::
      at + names[..i] in fs && (if i < |names| then fs[at + names[..i]].Dir? else !fs[at + names[..i]].Link?)
  }

  lemma {:induction false} WalkCreated(fs: Tree, fuel: nat, at: Location, names: Location)
    requires Created(fs, at, names)
    ensures Resolve(fs, fuel, at, Normals(names)) == Some(at + names)
    decreases |names|
  {
    if names == [] {
      assert at + names == at;
    } else {
      var next, rest := at + [names[0]], names[1..];
      assert names[..1] == [names[0]];
      assert at + names[..1] in fs;
      assert Normals(names)[1..] == Normals(rest);
      assert next + rest == at + names;
      CreatedBelow(fs, at, names);
      assert next == at + names[..1] && Normals(names)[0] == Normal(names[0]);
      if fs[next].Dir? {
        WalkCreated(fs, fuel, next, rest);
      } else {
        assert |names| == 1 && fs[next].File? && rest == [] && next + rest == next;
      }
    }
  }

  lemma CreatedBelow(fs: Tree, at: Location, names: Location)
    requires Created(fs, at, names) && names != []
    ensures Created(fs, at + [names[0]], names[1..])
  {
    var next, rest := at + [names[0]], names[1..];
    forall i | 0 < i <= |rest|
      ensures next + rest[..i] in fs && (if i < |rest| then fs[next + rest[..i]].Dir? else !fs[next + rest[..i]].Link?)
    {
      assert next + rest[..i] == at + names[..i + 1];
    }
  }

  /** Whatever links were followed before, the rest leads there. */
  ghost predicate LeadsTo(fs: Tree, at: Location, rest: seq<Component>, dest: Location) {
    forall fuel: nat :: Resolve(fs, fuel, at, rest) == Some(dest)
  }

  /** Behind a front that resolves to a directory, the rest is walked from there. */
  lemma {:induction false} ResolveFront(
    fs: Tree, fuel: nat, at: Location, front: seq<Component>, rest: seq<Component>, dest: Location)
    requires Resolve(fs, fuel, at, front).Some? && LeadsTo(fs, Resolve(fs, fuel, at, front).value, rest, dest)
    requires var loc := Resolve(fs, fuel, at, front).value; loc in fs ==> !fs[loc].File?
    ensures Resolve(fs, fuel, at, front + rest) == Some(dest)
    decreases fuel, |front|
  {
    if front == [] {
      assert front + rest == rest;
    } else {
      var all := front + rest;
      assert all[0] == front[0] && all[1..] == front[1..] + rest;
      match front[0]
      case Cur => ResolveFront(fs, fuel, at, front[1..], rest, dest);
      case Parent => ResolveFront(fs, fuel, Pop(at), front[1..], rest, dest);
      case Normal(name) =>
        if fs[at + [name]].Link? {
          var target := fs[at + [name]].target;
          var from := if target.absolute then [] else at;
          ResolveFront(fs, fuel - 1, from, target.parts + front[1..], rest, dest);
          assert target.parts + front[1..] + rest == target.parts + all[1..];
        } else {
          ResolveFront(fs, fuel, at + [name], front[1..], rest, dest);
        }
    }
  }

  // ----- Resolving a path that need not exist -----

  /** A filesystem as a process sees it. */
  datatype World = World(fs: Tree, fuel: nat, cwd: Location)

  function Start(w: World, absolute: bool): Location {
    if absolute then [] else w.cwd
  }

  function RealPath(w: World, p: Path): Option<Location> {
    if !p.absolute && p.parts == [] then None else Resolve(w.fs, w.fuel, Start(w, p.absolute), p.parts)
  }

  /** Every step of the way to a location is a directory. */
  ghost predicate DirsTo(fs: Tree, at: Location) {
    forall i | 0 < i <= |at| :: at[..i] in fs && fs[at[..i]].Dir?
  }

  lemma {:induction false} WalkDirs(fs: Tree, fuel: nat, done: Location, rest: Location, parts: seq<Component>)
    requires DirsTo(fs, done + rest)
    ensures Resolve(fs, fuel, done, Normals(rest) + parts) == Resolve(fs, fuel, done + rest, parts)
    decreases |rest|
  {
    if rest == [] {
      assert Normals(rest) + parts == parts && done + rest == done;
    } else {
      var next := done + [rest[0]];
      assert next + rest[1..] == done + rest;
      assert (done + rest)[..|next|] == next;
      assert (Normals(rest) + parts)[1..] == Normals(rest[1..]) + parts;
      WalkDirs(fs, fuel, next, rest[1..], parts);
    }
  }

  /** A relative path is the absolute one behind the working directory, except that the empty one names nothing. */
  lemma RelativeResolves(w: World, parts: seq<Component>)
    requires DirsTo(w.fs, w.cwd)
    ensures RealPath(w, Path(false, parts))
            == if parts == [] then None else RealPath(w, Path(true, Normals(w.cwd) + parts))
  {
    assert [] + w.cwd == w.cwd;
    WalkDirs(w.fs, w.fuel, [], w.cwd, parts);
  }

  datatype Found = Found(actual: Location, tail: Location)

  /** The deepest existing ancestor and the names below it; `None` when a `..` or the start is reached first. */
  function Climb(w: World, p: Path, tail: Location): Option<Found>
    decreases |p.parts|
  {
    var actual := RealPath(w, p);
    var n := |p.parts| - 1;
    if actual.Some? then Some(Found(actual.value, tail))
    else if p.parts == [] || !p.parts[n].Normal? then None
    else Climb(w, p.(parts := p.parts[..n]), [p.parts[n].name] + tail)
  }

  function CanonicalResolve(w: World, p: Path): (r: Path)
    ensures AllNormal(r.parts)
  {
    var found := Climb(w, p, []);
    if found.Some? then LexicalNormalize(Path(true, Normals(found.value.actual + found.value.tail)))
    else LexicalNormalize(p)
  }

  /** The loop: drops components from the end until the rest exists, collecting them. */
  method ResolveLoop(w: World, candidate: Path) returns (r: Path)
    ensures r == CanonicalResolve(w, candidate)
  {
    var existing, tail := candidate, [];
    while true
      invariant Climb(w, candidate, []) == Climb(w, existing, Reversed(tail))
      decreases |existing.parts|
    {
      var actual := RealPath(w, existing);
      if actual.Some? {
        var resolved := actual.value;
        for i := |tail| downto 0
          invariant resolved == actual.value + Reversed(tail[i..])
        {
          ReversedSplit(tail, i);
          resolved := resolved + [tail[i]];
        }
        assert tail[0..] == tail;
        r := Normalize(Path(true, Normals(resolved)));
        return;
      }
      var n := |existing.parts| - 1;
      if existing.parts == [] || !existing.parts[n].Normal? { break; }
      assert Reversed(tail + [existing.parts[n].name]) == [existing.parts[n].name] + Reversed(tail);
      tail := tail + [existing.parts[n].name];
      existing := existing.(parts := existing.parts[..n]);
    }
    r := Normalize(candidate);
  }

  function Reversed(s: Location): (r: Location)
    ensures |r| == |s| && forall i | 0 <= i < |s| :: r[i] == s[|s| - 1 - i]
  {
    seq(|s|, i requires 0 <= i < |s| => s[|s| - 1 - i])
  }

  lemma ReversedSplit(s: Location, i: nat)
    requires i < |s|
    ensures Reversed(s[i..]) == Reversed(s[i + 1..]) + [s[i]]
  {
  }

  // ----- What the climb finds -----

  function Front(p: Path, k: nat): Path
    requires k <= |p.parts|
  {
    p.(parts := p.parts[..k])
  }

  /** The first `k` components exist and only names follow. */
  predicate Ancestor(w: World, p: Path, k: nat) {
    k <= |p.parts| && RealPath(w, Front(p, k)).Some? && AllNormal(p.parts[k..])
  }

  /** And no longer beginning exists. */
  predicate Deepest(w: World, p: Path, k: nat) {
    Ancestor(w, p, k) && forall j | k < j <= |p.parts| :: RealPath(w, Front(p, j)).None?
  }

  /** Where the first `k` components really are. */
  function ActualAt(w: World, p: Path, k: nat): Location
    requires Ancestor(w, p, k)
  {
    RealPath(w, Front(p, k)).value
  }

  /** The names behind them. */
  function TailAt(w: World, p: Path, k: nat): Location
    requires Ancestor(w, p, k)
  {
    NamesOf(p.parts[k..])
  }

  lemma FrontOfFront(p: Path, n: nat, k: nat)
    requires k <= n <= |p.parts|
    ensures Front(Front(p, n), k) == Front(p, k)
  {
    assert p.parts[..n][..k] == p.parts[..k];
  }

  /** One component less at the end of a path that does not exist. */
  lemma DeepestOfParent(w: World, p: Path, k: nat)
    requires Deepest(w, p, k) && k < |p.parts|
    ensures var n := |p.parts| - 1;
            && p.parts[n].Normal? && RealPath(w, p).None? && Deepest(w, Front(p, n), k)
            && ActualAt(w, Front(p, n), k) == ActualAt(w, p, k)
            && TailAt(w, p, k) == TailAt(w, Front(p, n), k) + [p.parts[n].name]
  {
    var n := |p.parts| - 1;
    var q := Front(p, n);
    assert Front(p, |p.parts|) == p by { assert p.parts[..|p.parts|] == p.parts; }
    assert p.parts[k..][n - k] == p.parts[n];
    FrontOfFront(p, n, k);
    assert q.parts[k..] == p.parts[k..][..n - k];
    forall j | k < j <= |q.parts| ensures RealPath(w, Front(q, j)).None? { FrontOfFront(p, n, j); }
  }

  /** The climb returns the deepest existing ancestor and the names below it. */
  lemma {:induction false} ClimbFinds(w: World, p: Path, tail: Location, k: nat)
    requires Deepest(w, p, k)
    ensures Climb(w, p, tail) == Some(Found(ActualAt(w, p, k), TailAt(w, p, k) + tail))
    decreases |p.parts|
  {
    var n := |p.parts| - 1;
    if k == |p.parts| {
      assert p.parts[..k] == p.parts;
      assert TailAt(w, p, k) + tail == tail;
    } else {
      DeepestOfParent(w, p, k);
      var longer := [p.parts[n].name] + tail;
      ClimbFinds(w, Front(p, n), longer, k);
      assert TailAt(w, Front(p, n), k) + longer == TailAt(w, p, k) + tail;
    }
  }

  lemma {:induction false} AncestorHasDeepest(w: World, p: Path, k: nat)
    requires Ancestor(w, p, k)
    ensures exists d :: Deepest(w, p, d)
    decreases |p.parts| - k
  {
    if j :| k < j <= |p.parts| && RealPath(w, Front(p, j)).Some? {
      assert p.parts[j..] == p.parts[k..][j - k..];
      AncestorHasDeepest(w, p, j);
    } else {
      assert Deepest(w, p, k);
    }
  }

  lemma AncestorOfParent(w: World, p: Path, k: nat)
    requires p.parts != [] && p.parts[|p.parts| - 1].Normal? && Ancestor(w, Front(p, |p.parts| - 1), k)
    ensures Ancestor(w, p, k)
  {
    var n := |p.parts| - 1;
    FrontOfFront(p, n, k);
    assert p.parts[k..] == Front(p, n).parts[k..] + [p.parts[n]];
  }

  lemma {:induction false} ClimbHasAncestor(w: World, p: Path, tail: Location)
    requires Climb(w, p, tail).Some?
    ensures exists k :: Ancestor(w, p, k)
    decreases |p.parts|
  {
    var n := |p.parts| - 1;
    if RealPath(w, p).Some? {
      assert p.parts[..|p.parts|] == p.parts;
      assert Ancestor(w, p, |p.parts|);
    } else {
      ClimbHasAncestor(w, Front(p, n), [p.parts[n].name] + tail);
      var k: nat :| Ancestor(w, Front(p, n), k);
      AncestorOfParent(w, p, k);
    }
  }

  /**
   The resolution, from the tree and the path alone: the deepest existing beginning behind which only
   names follow is resolved and the names are appended; without one the path is normalised lexically.
   */
  lemma ResolutionExact(w: World, p: Path)
    ensures (exists k :: Ancestor(w, p, k)) <==> (exists k :: Deepest(w, p, k))
    ensures forall k | Deepest(w, p, k) ::
              CanonicalResolve(w, p) == Path(true, Normals(ActualAt(w, p, k) + TailAt(w, p, k)))
    ensures !(exists k :: Ancestor(w, p, k)) ==> CanonicalResolve(w, p) == LexicalNormalize(p)
  {
    if k: nat :| Ancestor(w, p, k) { AncestorHasDeepest(w, p, k); }
    forall k | Deepest(w, p, k)
      ensures CanonicalResolve(w, p) == Path(true, Normals(ActualAt(w, p, k) + TailAt(w, p, k)))
    {
      ClimbFinds(w, p, [], k);
      var names := ActualAt(w, p, k) + TailAt(w, p, k);
      assert TailAt(w, p, k) + [] == TailAt(w, p, k);
      CollapseNormals([], names);
      assert [] + names == names;
    }
    if Climb(w, p, []).Some? { ClimbHasAncestor(w, p, []); }
  }

  /**
   When the deepest existing ancestor is a directory, the result is where the real resolution arrives
   in any later tree in which the missing names have been created below that ancestor.
   */
  lemma ResolvesToFuturePlace(w: World, p: Path, k: nat, fs': Tree)
    requires Deepest(w, p, k) && forall l | l in w.fs :: l in fs' && fs'[l] == w.fs[l]
    requires var actual, tail := ActualAt(w, p, k), TailAt(w, p, k);
             (actual in fs' ==> !fs'[actual].File? || tail == []) && Created(fs', actual, tail)
    ensures RealPath(w.(fs := fs'), p) == Some(ActualAt(w, p, k) + TailAt(w, p, k))
    ensures CanonicalResolve(w, p) == Path(true, Normals(ActualAt(w, p, k) + TailAt(w, p, k)))
  {
    var actual, tail := ActualAt(w, p, k), TailAt(w, p, k);
    var at, front, rest := Start(w, p.absolute), p.parts[..k], Normals(tail);
    ResolveExtends(w.fs, fs', w.fuel, at, front);
    forall fuel: nat ensures Resolve(fs', fuel, actual, rest) == Some(actual + tail) {
      WalkCreated(fs', fuel, actual, tail);
    }
    assert p.parts == front + rest;
    if tail == [] {
      assert front == p.parts && actual + tail == actual;
    } else {
      ResolveFront(fs', w.fuel, at, front, rest, actual + tail);
    }
    ResolutionExact(w, p);
  }

  /** Makes the missing directories one below the other. */
  function CreateTail(fs: Tree, at: Location, names: Location): Tree
    decreases |names|
  {
    if names == [] then fs else CreateTail(fs[at + [names[0]] := Dir], at + [names[0]], names[1..])
  }

  lemma MakeOne(fs: Tree, at: Location, name: string)
    requires WellFormed(fs) && IsDir(fs, at) && at + [name] !in fs
    ensures WellFormed(fs[at + [name] := Dir]) && IsDir(fs[at + [name] := Dir], at + [name])
    ensures forall below: string :: at + [name] + [below] !in fs[at + [name] := Dir]
  {
    var next := at + [name];
    assert Pop(next) == at && |next| > 0;
    forall l | l in fs[next := Dir] ensures IsDir(fs[next := Dir], Pop(l)) {
      if l != next { assert IsDir(fs, Pop(l)); }
    }
    forall below: string ensures next + [below] !in fs[next := Dir] {
      assert Pop(next + [below]) == next && |next + [below]| > |next|;
    }
  }

  lemma {:induction false} CreateTailWorks(fs: Tree, at: Location, names: Location)
    requires WellFormed(fs) && IsDir(fs, at) && (names != [] ==> at + [names[0]] !in fs)
    ensures Created(CreateTail(fs, at, names), at, names)
    ensures forall l | l in fs :: l in CreateTail(fs, at, names) && CreateTail(fs, at, names)[l] == fs[l]
    decreases |names|
  {
    if names != [] {
      var next, rest := at + [names[0]], names[1..];
      var made := fs[next := Dir];
      MakeOne(fs, at, names[0]);
      CreateTailWorks(made, next, rest);
      var after := CreateTail(made, next, rest);
      assert next in made && after[next] == made[next];
      CreatedAbove(after, at, names);
    }
  }

  lemma CreatedAbove(fs: Tree, at: Location, names: Location)
    requires names != [] && Created(fs, at + [names[0]], names[1..])
    requires at + [names[0]] in fs && fs[at + [names[0]]].Dir?
    ensures Created(fs, at, names)
  {
    var next, rest := at + [names[0]], names[1..];
    forall i | 0 < i <= |names|
      ensures at + names[..i] in fs && (if i < |names| then fs[at + names[..i]].Dir? else !fs[at + names[..i]].Link?)
    {
      if i == 1 { assert at + names[..1] == next; } else { assert at + names[..i] == next + rest[..i - 1]; }
    }
  }

  /** What is missing of the path can be made: below a directory, and not where a dangling link is. */
  predicate MakeableAt(w: World, p: Path, k: nat) {
    && Deepest(w, p, k)
    && (k < |p.parts| ==> IsDir(w.fs, ActualAt(w, p, k)) && ActualAt(w, p, k) + [p.parts[k].name] !in w.fs)
  }

  /** Where the path really is once what is missing of it has been made. */
  function PlaceAt(w: World, p: Path, k: nat): Option<Location>
    requires MakeableAt(w, p, k)
  {
    RealPath(w.(fs := CreateTail(w.fs, ActualAt(w, p, k), TailAt(w, p, k))), p)
  }

  /** In particular once the missing directories are made, the first of them not being a dangling link. */
  lemma ResolvesToCreatedPlace(w: World, p: Path, k: nat)
    requires WellFormed(w.fs) && MakeableAt(w, p, k)
    ensures PlaceAt(w, p, k).Some? && CanonicalResolve(w, p) == Path(true, Normals(PlaceAt(w, p, k).value))
  {
    var actual, tail := ActualAt(w, p, k), TailAt(w, p, k);
    if tail != [] {
      CreateTailWorks(w.fs, actual, tail);
      assert actual in w.fs || actual == [];
      RootNeverMade(w.fs, actual, tail);
    }
    ResolvesToFuturePlace(w, p, k, CreateTail(w.fs, actual, tail));
  }

  lemma {:induction false} RootNeverMade(fs: Tree, at: Location, names: Location)
    requires [] !in fs
    ensures [] !in CreateTail(fs, at, names)
    decreases |names|
  {
    if names != [] { RootNeverMade(fs[at + [names[0]] := Dir], at + [names[0]], names[1..]); }
  }

  // ----- Containment -----

  datatype Segment = Root | Name(name: string)

  function Segments(p: Path): seq<Segment>
    requires AllNormal(p.parts)
  {
    (if p.absolute then [Root] else []) + seq(|p.parts|, i requires 0 <= i < |p.parts| => Name(p.parts[i].name))
  }

  datatype PathError = Integrity

  function ResolveWithin(w: World, root: Path, candidate: Path): Result<Path, PathError> {
    var rootReal, resolved := CanonicalResolve(w, root), CanonicalResolve(w, candidate);
    if resolved == rootReal || Segments(rootReal) <= Segments(resolved) then Ok(resolved) else Err(Integrity)
  }

  /** For a root and a candidate that exist or can be made, acceptance is containment of the places they are then. */
  lemma MakeableContainment(w: World, root: Path, k: nat, candidate: Path, m: nat)
    requires WellFormed(w.fs) && MakeableAt(w, root, k) && MakeableAt(w, candidate, m)
    ensures PlaceAt(w, root, k).Some? && PlaceAt(w, candidate, m).Some?
    ensures var r := ResolveWithin(w, root, candidate);
            && (r.Ok? <==> PlaceAt(w, root, k).value <= PlaceAt(w, candidate, m).value)
            && (r.Ok? ==> r.value == Path(true, Normals(PlaceAt(w, candidate, m).value)))
  {
    ResolvesToCreatedPlace(w, root, k);
    ResolvesToCreatedPlace(w, candidate, m);
    PrefixSegments(PlaceAt(w, root, k).value, PlaceAt(w, candidate, m).value);
  }

  // ----- Where an accepted path really is -----

  function NamesOf(parts: seq<Component>): (r: Location)
    requires AllNormal(parts)
    ensures |r| == |parts| && Normals(r) == parts
  {
    seq(|parts|, i requires 0 <= i < |parts| => parts[i].name)
  }

  /** No symlink on the way from `at` along `names`, the end included. */
  ghost predicate UnlinkedFrom(fs: Tree, at: Location, names: Location) {
    forall i | 0 < i <= |names| && at + names[..i] in fs :: !fs[at + names[..i]].Link?
  }

  /** No symlink on the way to a location: what a caller can look up for the path it was given. */
  ghost predicate Unlinked(fs: Tree, names: Location) {
    forall i | 0 < i <= |names| && names[..i] in fs :: !fs[names[..i]].Link?
  }

  lemma UnlinkedBelow(fs: Tree, at: Location, names: Location)
    requires UnlinkedFrom(fs, at, names) && names != []
    ensures UnlinkedFrom(fs, at + [names[0]], names[1..])
    ensures at + [names[0]] in fs ==> !fs[at + [names[0]]].Link?
  {
    var next, rest := at + [names[0]], names[1..];
    assert at + names[..1] == next;
    forall i | 0 < i <= |rest| && next + rest[..i] in fs ensures !fs[next + rest[..i]].Link? {
      assert next + rest[..i] == at + names[..i + 1];
    }
  }

  /** A path of names with no symlink on the way can only resolve to itself. */
  lemma {:induction false} WalkUnlinked(fs: Tree, fuel: nat, at: Location, names: Location)
    requires UnlinkedFrom(fs, at, names) && Resolve(fs, fuel, at, Normals(names)).Some?
    ensures Resolve(fs, fuel, at, Normals(names)).value == at + names
    decreases |names|
  {
    if names == [] {
      assert at + names == at;
    } else {
      var next, rest := at + [names[0]], names[1..];
      UnlinkedBelow(fs, at, names);
      assert Normals(names)[0] == Normal(names[0]) && Normals(names)[1..] == Normals(rest);
      assert next + rest == at + names;
      if fs[next].Dir? { WalkUnlinked(fs, fuel, next, rest); }
    }
  }

  /** Resolution ends at something that is no symlink. */
  lemma {:induction false} ResolveLands(fs: Tree, fuel: nat, at: Location, parts: seq<Component>)
    requires WellFormed(fs) && IsDir(fs, at) && Resolve(fs, fuel, at, parts).Some?
    ensures var loc := Resolve(fs, fuel, at, parts).value; loc == [] || (loc in fs && !fs[loc].Link?)
    decreases fuel, |parts|
  {
    if parts != [] {
      match parts[0]
      case Cur => ResolveLands(fs, fuel, at, parts[1..]);
      case Parent => ResolveLands(fs, fuel, Pop(at), parts[1..]);
      case Normal(name) =>
        match fs[at + [name]]
        case Dir => ResolveLands(fs, fuel, at + [name], parts[1..]);
        case File =>
        case Link(target) =>
          ResolveLands(fs, fuel - 1, if target.absolute then [] else at, target.parts + parts[1..]);
    }
  }

  /** What exists has only directories above it. */
  lemma {:induction false} ExistingUnlinked(fs: Tree, loc: Location)
    requires WellFormed(fs) && (loc == [] || (loc in fs && !fs[loc].Link?))
    ensures Unlinked(fs, loc)
    decreases |loc|
  {
    if loc != [] {
      ExistingUnlinked(fs, Pop(loc));
      forall i | 0 < i <= |loc| && loc[..i] in fs ensures !fs[loc[..i]].Link? {
        if i == |loc| { assert loc[..i] == loc; } else { assert loc[..i] == Pop(loc)[..i]; }
      }
    }
  }

  /** A normal absolute path is its own real location exactly when no symlink is on the way. */
  lemma RealExactly(w: World, names: Location)
    requires WellFormed(w.fs) && RealPath(w, Path(true, Normals(names))).Some?
    ensures RealPath(w, Path(true, Normals(names))).value == names <==> Unlinked(w.fs, names)
  {
    if Unlinked(w.fs, names) {
      assert forall i | 0 < i <= |names| :: [] + names[..i] == names[..i];
      WalkUnlinked(w.fs, w.fuel, [], names);
      assert [] + names == names;
    } else if RealPath(w, Path(true, Normals(names))).value == names {
      ResolveLands(w.fs, w.fuel, [], Normals(names));
      ExistingUnlinked(w.fs, names);
    }
  }

  /** A root that is absolute, or of which something exists. */
  ghost predicate Anchored(w: World, root: Path) {
    root.absolute || exists k :: Ancestor(w, root, k)
  }

  /**
   What acceptance means, for every root and candidate and on either branch.  Exactly an anchored root
   resolves to an absolute path, and what is accepted is then below it by name.  In any later tree in
   which the accepted path exists it is really there, and so really below that root, if no symlink is
   on the way to it; if one is, it is somewhere else.
   */
  lemma WithinIsContainment(w: World, root: Path, candidate: Path, fs': Tree)
    requires ResolveWithin(w, root, candidate).Ok? && WellFormed(fs')
    ensures var r, top := ResolveWithin(w, root, candidate).value, CanonicalResolve(w, root);
            var names, rootNames, after := NamesOf(r.parts), NamesOf(top.parts), w.(fs := fs');
            && (Anchored(w, root) <==> top.absolute)
            && (Anchored(w, root) ==> r.absolute && rootNames <= names)
            && (r.absolute && RealPath(after, r).Some? ==>
                  && (RealPath(after, r).value == names <==> Unlinked(fs', names))
                  && (Anchored(w, root) && Unlinked(fs', names) ==> rootNames <= RealPath(after, r).value))
  {
    var r, top := ResolveWithin(w, root, candidate).value, CanonicalResolve(w, root);
    var names, rootNames := NamesOf(r.parts), NamesOf(top.parts);
    assert r == Path(r.absolute, Normals(names)) && top == Path(top.absolute, Normals(rootNames));
    ResolutionExact(w, root);
    if top.absolute {
      assert Segments(top) <= Segments(r) && Segments(top)[0] == Root;
      PrefixSegments(rootNames, names);
    }
    if r.absolute && RealPath(w.(fs := fs'), r).Some? { RealExactly(w.(fs := fs'), names); }
  }

  /** A root that is not anchored and collapses to nothing, such as a missing name and `..`, bounds nothing. */
  lemma UnanchoredRoot(w: World, root: Path, candidate: Path)
    requires !Anchored(w, root) && Collapse([], root.parts) == []
    ensures ResolveWithin(w, root, candidate) == Ok(CanonicalResolve(w, candidate))
  {
    ResolutionExact(w, root);
    assert Segments(CanonicalResolve(w, root)) == [];
  }

  /** Nothing exists below what does not. */
  lemma {:induction false} NothingBelow(fs: Tree, at: Location, rest: Location)
    requires WellFormed(fs) && at !in fs && at != []
    ensures at + rest !in fs
    decreases |rest|
  {
    if rest == [] {
      assert at + rest == at;
    } else {
      NothingBelow(fs, at, Pop(rest));
      assert Pop(at + rest) == at + Pop(rest);
    }
  }

  lemma UnlinkedJoin(fs: Tree, actual: Location, tail: Location)
    requires WellFormed(fs) && Unlinked(fs, actual) && (tail != [] ==> actual + [tail[0]] !in fs)
    ensures Unlinked(fs, actual + tail)
  {
    var names, n := actual + tail, |actual|;
    forall i | 0 < i <= |names| && names[..i] in fs ensures !fs[names[..i]].Link? {
      if i <= n {
        assert names[..i] == actual[..i];
      } else {
        assert names[..i] == actual + [tail[0]] + tail[1..i - n];
        NothingBelow(fs, actual + [tail[0]], tail[1..i - n]);
      }
    }
  }

  /** With an existing ancestor and nothing at the first missing name there is no symlink on the way. */
  lemma ClimbedUnlinked(w: World, p: Path, k: nat)
    requires WellFormed(w.fs) && IsDir(w.fs, w.cwd) && Deepest(w, p, k)
    requires k < |p.parts| ==> ActualAt(w, p, k) + [p.parts[k].name] !in w.fs
    ensures Unlinked(w.fs, NamesOf(CanonicalResolve(w, p).parts))
  {
    var actual, tail := ActualAt(w, p, k), TailAt(w, p, k);
    ResolveLands(w.fs, w.fuel, Start(w, p.absolute), p.parts[..k]);
    ExistingUnlinked(w.fs, actual);
    UnlinkedJoin(w.fs, actual, tail);
    ResolutionExact(w, p);
    assert NamesOf(Normals(actual + tail)) == actual + tail;
  }

  // ----- Two ways in which a symlink is on the way -----

  /** A directory `r` with a symlink `l` to a place `o` beside it. */
  function LinkTree(r: string, l: string, o: string): Tree {
    map[[r] := Dir, [r, l] := Link(Path(true, [Normal(o)]))]
  }

  lemma LinkTreeWellFormed(r: string, l: string, o: string, node: Node)
    requires r != o
    ensures WellFormed(LinkTree(r, l, o)) && [o] !in LinkTree(r, l, o)
    ensures WellFormed(LinkTree(r, l, o)[[o] := node])
  {
    assert Pop([r]) == [] && Pop([r, l]) == [r] && Pop([o]) == [];
    assert [o][0] == o && [r][0] == r;
  }

  /** Walking into the directory and through the symlink goes on where it leads. */
  lemma ThroughLink(fs: Tree, fuel: nat, r: string, l: string, o: string, rest: seq<Component>)
    requires fuel > 0 && [r] in fs && fs[[r]] == Dir && [r, l] in fs && fs[[r, l]] == Link(Path(true, [Normal(o)]))
    ensures Resolve(fs, fuel, [], [Normal(r), Normal(l)] + rest) == Resolve(fs, fuel - 1, [], [Normal(o)] + rest)
    ensures Resolve(fs, fuel, [], [Normal(r)]) == Some([r])
  {
    var parts := [Normal(r), Normal(l)] + rest;
    assert [] + [r] == [r] && [r] + [l] == [r, l];
    assert parts[1..] == [Normal(l)] + rest && parts[1..][1..] == rest;
    assert [Normal(r)][1..] == [];
  }

  lemma IntoMissing(fs: Tree, fuel: nat, at: Location, name: string, rest: seq<Component>)
    requires at + [name] !in fs
    ensures Resolve(fs, fuel, at, [Normal(name)] + rest) == None
  {
  }

  lemma IntoDir(fs: Tree, fuel: nat, at: Location, name: string, rest: seq<Component>)
    requires at + [name] in fs && fs[at + [name]] == Dir
    ensures Resolve(fs, fuel, at, [Normal(name)] + rest) == Resolve(fs, fuel, at + [name], rest)
  {
    assert ([Normal(name)] + rest)[1..] == rest;
  }

  lemma ToFile(fs: Tree, fuel: nat, at: Location, name: string)
    requires at + [name] in fs && fs[at + [name]] == File
    ensures Resolve(fs, fuel, at, [Normal(name)]) == Some(at + [name])
  {
  }

  lemma CollapseOneMore(out: Location, parts: seq<Component>, c: Component)
    ensures Collapse(out, parts + [c]) == Push(Collapse(out, parts), c)
  {
    assert (parts + [c])[..|parts|] == parts;
  }

  lemma CollapseBack(l: Location, m: string, s: string)
    ensures Collapse([], Normals(l) + [Normal(m)] + [Parent] + [Normal(s)]) == l + [s]
  {
    CollapseNormals([], l);
    assert [] + l == l;
    CollapseOneMore([], Normals(l), Normal(m));
    CollapseOneMore([], Normals(l) + [Normal(m)], Parent);
    CollapseOneMore([], Normals(l) + [Normal(m)] + [Parent], Normal(s));
    assert Pop(l + [m]) == l;
  }

  lemma ClimbStops(w: World, front: seq<Component>, s: string)
    requires front != [] && front[|front| - 1] == Parent
    requires RealPath(w, Path(true, front)).None? && RealPath(w, Path(true, front + [Normal(s)])).None?
    ensures Climb(w, Path(true, front + [Normal(s)]), []) == None
  {
    assert (front + [Normal(s)])[..|front|] == front;
  }

  /** `..` behind a missing name stops the climb, so the path is only normalised lexically. */
  lemma StopsAtParent(w: World, l: Location, m: string, s: string)
    requires var front := Normals(l) + [Normal(m)] + [Parent];
             RealPath(w, Path(true, front)).None? && RealPath(w, Path(true, front + [Normal(s)])).None?
    ensures CanonicalResolve(w, Path(true, Normals(l) + [Normal(m)] + [Parent] + [Normal(s)]))
            == Path(true, Normals(l + [s]))
  {
    ClimbStops(w, Normals(l) + [Normal(m)] + [Parent], s);
    CollapseBack(l, m, s);
  }

  /**
   First: `..` behind a missing name below a symlink.  The path is accepted in its lexical form, which
   goes through the link; once it exists it is not below the root.
   */
  lemma ParentBehindMissing(fuel: nat, cwd: Location, r: string, l: string, o: string, m: string, s: string)
    requires fuel > 0 && r != o
    ensures var fs := LinkTree(r, l, o)[[o] := Dir];
            var w, root := World(fs, fuel, cwd), Path(true, [Normal(r)]);
            var candidate := Path(true, Normals([r, l]) + [Normal(m)] + [Parent] + [Normal(s)]);
            var accepted, after := Path(true, Normals([r, l] + [s])), w.(fs := fs[[o, s] := File]);
            && WellFormed(fs) && WellFormed(after.fs)
            && ResolveWithin(w, root, candidate) == Ok(accepted)
            && RealPath(after, root) == Some([r]) && RealPath(after, accepted) == Some([o, s]) && !([r] <= [o, s])
  {
    var fs := LinkTree(r, l, o)[[o] := Dir];
    var w, root := World(fs, fuel, cwd), Path(true, [Normal(r)]);
    LinkTreeWellFormed(r, l, o, Dir);
    ThroughLink(fs, fuel, r, l, o, []);
    var front := Normals([r, l]) + [Normal(m)] + [Parent];
    var whole := front + [Normal(s)];
    assert front == [Normal(r), Normal(l)] + ([Normal(m)] + [Parent]);
    assert whole == [Normal(r), Normal(l)] + ([Normal(m)] + [Parent, Normal(s)]);
    LeadsNowhere(fs, fuel, r, l, o, m, [Parent]);
    LeadsNowhere(fs, fuel, r, l, o, m, [Parent, Normal(s)]);
    StopsAtParent(w, [r, l], m, s);
    assert [r] + ([l] + [s]) == [r, l] + [s];
    AcceptedBelow(w, root, Path(true, whole), r, [l] + [s]);
    assert ([o] + [s])[0] == o && [r, l][0] == r && [r][0] == r && [o] + [s] == [o, s];
    AddWellFormed(fs, [o], s, File);
    MadeBehindLink(fs[[o, s] := File], fuel, r, l, o, s);
  }

  lemma LeadsNowhere(
    fs: Tree, fuel: nat, r: string, l: string, o: string, m: string, rest: seq<Component>)
    requires fuel > 0 && r != o && fs == LinkTree(r, l, o)[[o] := Dir]
    ensures Resolve(fs, fuel, [], [Normal(r), Normal(l)] + ([Normal(m)] + rest)) == None
  {
    ThroughLink(fs, fuel, r, l, o, [Normal(m)] + rest);
    assert [] + [o] == [o];
    IntoDir(fs, fuel - 1, [], o, [Normal(m)] + rest);
    assert ([o] + [m])[0] == o && [r, l][0] == r && |[o] + [m]| == 2;
    IntoMissing(fs, fuel - 1, [o], m, rest);
  }

  lemma AddWellFormed(fs: Tree, at: Location, name: string, node: Node)
    requires WellFormed(fs) && IsDir(fs, at) && at + [name] !in fs
    ensures WellFormed(fs[at + [name] := node])
  {
    var after, next := fs[at + [name] := node], at + [name];
    assert Pop(next) == at;
    forall l | l in after ensures IsDir(after, Pop(l)) {
      if l != next { assert IsDir(fs, Pop(l)); }
    }
  }

  /** What is made in the place the symlink leads to is reached through it. */
  lemma MadeBehindLink(fs: Tree, fuel: nat, r: string, l: string, o: string, s: string)
    requires fuel > 0 && [r] in fs && fs[[r]] == Dir && [r, l] in fs && fs[[r, l]] == Link(Path(true, [Normal(o)]))
    requires [o] in fs && fs[[o]] == Dir && [o] + [s] in fs && fs[[o] + [s]] == File
    ensures Resolve(fs, fuel, [], [Normal(r)]) == Some([r])
    ensures Resolve(fs, fuel, [], Normals([r, l] + [s])) == Some([o] + [s])
  {
    assert Normals([r, l] + [s]) == [Normal(r), Normal(l)] + [Normal(s)];
    ThroughLink(fs, fuel, r, l, o, [Normal(s)]);
    assert [] + [o] == [o];
    IntoDir(fs, fuel - 1, [], o, [Normal(s)]);
    ToFile(fs, fuel - 1, [o], s);
  }

  /** A candidate that resolves below an existing root is accepted. */
  lemma AcceptedBelow(w: World, root: Path, candidate: Path, r: string, rest: Location)
    requires RealPath(w, root) == Some([r]) && CanonicalResolve(w, candidate) == Path(true, Normals([r] + rest))
    ensures ResolveWithin(w, root, candidate) == Ok(CanonicalResolve(w, candidate))
  {
    ExistingResolves(w, root);
    PrefixSegments([r], [r] + rest);
  }

  /**
   Second: a dangling symlink as the first missing name.  The path is accepted as it is; what is made
   there is made where the link leads.
   */
  lemma DanglingFirstName(fuel: nat, cwd: Location, r: string, l: string, o: string)
    requires fuel > 0 && r != o
    ensures var fs := LinkTree(r, l, o);
            var w, root, candidate := World(fs, fuel, cwd), Path(true, [Normal(r)]), Path(true, Normals([r, l]));
            var after := w.(fs := fs[[o] := File]);
            && WellFormed(fs) && WellFormed(after.fs)
            && ResolveWithin(w, root, candidate) == Ok(candidate)
            && RealPath(after, root) == Some([r]) && RealPath(after, candidate) == Some([o]) && !([r] <= [o])
  {
    var fs := LinkTree(r, l, o);
    var w, root, candidate := World(fs, fuel, cwd), Path(true, [Normal(r)]), Path(true, Normals([r, l]));
    LinkTreeWellFormed(r, l, o, File);
    assert Normals([r, l]) == [Normal(r), Normal(l)] + [] && [Normal(o)] + [] == [Normal(o)] && [] + [o] == [o];
    assert [r] + [l] == [r, l] && Normals([r]) == [Normal(r)];
    ThroughLink(fs, fuel, r, l, o, []);
    IntoMissing(fs, fuel - 1, [], o, []);
    ClimbsOnce(w, [r], l);
    AcceptedBelow(w, root, candidate, r, [l]);
    ThroughLink(fs[[o] := File], fuel, r, l, o, []);
    ToFile(fs[[o] := File], fuel - 1, [], o);
    assert [r][0] == r && [o][0] == o;
  }

  /** A missing name below an existing location is appended to it. */
  lemma ClimbsOnce(w: World, at: Location, name: string)
    requires RealPath(w, Path(true, Normals(at))) == Some(at) && RealPath(w, Path(true, Normals(at + [name]))).None?
    ensures CanonicalResolve(w, Path(true, Normals(at + [name]))) == Path(true, Normals(at + [name]))
  {
    var parts := Normals(at + [name]);
    assert parts[..|at|] == Normals(at);
    assert Climb(w, Path(true, Normals(at)), [name]) == Some(Found(at, [name]));
    assert [name] + [] == [name];
    CollapseNormals([], at + [name]);
    assert [] + (at + [name]) == at + [name];
  }

  /** On a tree without symlinks both branches give the lexical normal form of an absolute path. */
  lemma LinkFreeResolves(w: World, p: Path)
    requires !HasLinks(w.fs) && p.absolute
    ensures CanonicalResolve(w, p) == Path(true, Normals(Collapse([], p.parts)))
  {
    ResolutionExact(w, p);
    if k: nat :| Deepest(w, p, k) {
      var actual, tail := ActualAt(w, p, k), TailAt(w, p, k);
      assert p.parts == p.parts[..k] + Normals(tail);
      WalkIsLexical(w.fs, w.fuel, [], p.parts[..k]);
      CollapseConcat([], p.parts[..k], Normals(tail));
      CollapseNormals(actual, tail);
    }
  }

  /**
   On trees without symlinks containment is real on either branch: in any such tree in which both
   paths exist, the candidate that was accepted lies below the root, and no other does.
   */
  lemma LinkFreeContainment(w: World, root: Path, candidate: Path, fs': Tree)
    requires !HasLinks(w.fs) && !HasLinks(fs') && root.absolute && candidate.absolute
    requires RealPath(w.(fs := fs'), root).Some? && RealPath(w.(fs := fs'), candidate).Some?
    ensures ResolveWithin(w, root, candidate).Ok? <==>
            RealPath(w.(fs := fs'), root).value <= RealPath(w.(fs := fs'), candidate).value
  {
    LinkFreeResolves(w, root);
    LinkFreeResolves(w, candidate);
    WalkIsLexical(fs', w.fuel, [], root.parts);
    WalkIsLexical(fs', w.fuel, [], candidate.parts);
    PrefixSegments(Collapse([], root.parts), Collapse([], candidate.parts));
  }

  /** For paths that exist, containment is exactly that of the real locations. */
  lemma ExistingContainment(w: World, root: Path, candidate: Path)
    requires RealPath(w, root).Some? && RealPath(w, candidate).Some?
    ensures ResolveWithin(w, root, candidate).Ok? <==> RealPath(w, root).value <= RealPath(w, candidate).value
    ensures ResolveWithin(w, root, candidate).Ok? ==>
              ResolveWithin(w, root, candidate).value == Path(true, Normals(RealPath(w, candidate).value))
  {
    ExistingResolves(w, root);
    ExistingResolves(w, candidate);
    PrefixSegments(RealPath(w, root).value, RealPath(w, candidate).value);
  }

  lemma ExistingResolves(w: World, p: Path)
    requires RealPath(w, p).Some?
    ensures CanonicalResolve(w, p) == Path(true, Normals(RealPath(w, p).value))
  {
    var actual := RealPath(w, p).value;
    assert actual + [] == actual;
    CollapseNormals([], actual);
    assert [] + actual == actual;
  }

  lemma PrefixSegments(a: Location, b: Location)
    ensures Segments(Path(true, Normals(a))) <= Segments(Path(true, Normals(b))) <==> a <= b
  {
    var sa, sb := Segments(Path(true, Normals(a))), Segments(Path(true, Normals(b)));
    assert |sa| == |a| + 1 && |sb| == |b| + 1;
    assert forall i | 0 <= i < |a| :: sa[i + 1] == Name(a[i]);
    assert forall i | 0 <= i < |b| :: sb[i + 1] == Name(b[i]);
    if sa <= sb {
      forall i | 0 <= i < |a| ensures a[i] == b[i] { assert sa[i + 1] == sb[i + 1]; }
    }
  }
}
