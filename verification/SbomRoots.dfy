/** The dependency graph of a software bill of materials and the references of its root (`render_cyclonedx_sbom` of
    `src/bin/cs/sbom.rs`). */
module SbomRoots {
  import opened Wrappers
  import Ordering

  /** A dependency of a package: text that does not parse, one with a condition, or a package name. */
  datatype Spec = Unparsable | Conditional(name: string) | Exact(name: string)

  datatype Component = Component(ref: string, name: string, dependencies: seq<Spec>)

  type Edges = map<string, seq<string>>

  // ---------------------------------------------------------------------
  // Edges
  // ---------------------------------------------------------------------

  /** The reference that a package name stands for: that of the last component with the name. */
  function RefOf(cs: seq<Component>, name: string): Option<string> {
    if cs == [] then None
    else if cs[|cs| - 1].name == name then Some(cs[|cs| - 1].ref)
    else RefOf(cs[..|cs| - 1], name)
  }

  ghost predicate IsIndex(index: map<string, string>, cs: seq<Component>) {
    forall n :: RefOf(cs, n) == if n in index then Some(index[n]) else None
  }

  /** `references_by_name`. */
  method ReferencesByName(cs: seq<Component>) returns (index: map<string, string>)
    ensures IsIndex(index, cs)
  {
    index := map[];
    for i := 0 to |cs|
      invariant forall n :: RefOf(cs[..i], n) == if n in index then Some(index[n]) else None
    {
      assert cs[..i + 1][..i] == cs[..i];
      index := index[cs[i].name := cs[i].ref];
    }
    assert cs[..|cs|] == cs;
  }

  /** Whether a dependency leads to `ref`. */
  predicate LeadsTo(cs: seq<Component>, s: Spec, ref: string) {
    s.Exact? && RefOf(cs, s.name) == Some(ref)
  }

  predicate IsMissing(cs: seq<Component>, s: Spec) {
    s.Exact? && RefOf(cs, s.name) == None
  }

  predicate AnyUnknown(dependencies: seq<Spec>) {
    exists k :: 0 <= k < |dependencies| && !dependencies[k].Exact?
  }

  function CountMissing(cs: seq<Component>, dependencies: seq<Spec>): nat {
    if dependencies == [] then 0
    else CountMissing(cs, dependencies[..|dependencies| - 1]) + if IsMissing(cs, dependencies[|dependencies| - 1]) then 1 else 0
  }

  function CountAllMissing(all: seq<Component>, cs: seq<Component>): nat {
    if cs == [] then 0
    else CountAllMissing(all, cs[..|cs| - 1]) + CountMissing(all, cs[|cs| - 1].dependencies)
  }

  /** What the dependencies lead to. */
  function References(cs: seq<Component>, dependencies: seq<Spec>): (r: set<string>)
    ensures forall ref :: ref in r <==> exists k :: 0 <= k < |dependencies| && LeadsTo(cs, dependencies[k], ref)
  {
    if dependencies == [] then {}
    else
      var s := dependencies[|dependencies| - 1];
      var before := References(cs, dependencies[..|dependencies| - 1]);
      assert forall k :: 0 <= k < |dependencies| - 1 ==> dependencies[..|dependencies| - 1][k] == dependencies[k];
      if s.Exact? && RefOf(cs, s.name).Some? then before + {RefOf(cs, s.name).value} else before
  }

  lemma OneMore(cs: seq<Component>, dependencies: seq<Spec>, k: nat)
    requires k < |dependencies|
    ensures var s, some, more := dependencies[k], dependencies[..k], dependencies[..k + 1];
            && (AnyUnknown(more) <==> AnyUnknown(some) || !s.Exact?)
            && CountMissing(cs, more) == CountMissing(cs, some) + (if IsMissing(cs, s) then 1 else 0)
            && References(cs, more) == References(cs, some) +
                 (if s.Exact? && RefOf(cs, s.name).Some? then {RefOf(cs, s.name).value} else {})
  {
    assert dependencies[..k + 1][..k] == dependencies[..k] && dependencies[..k + 1][k] == dependencies[k];
    if AnyUnknown(dependencies[..k]) {
      var j :| 0 <= j < k && !dependencies[..k][j].Exact?;
      assert !dependencies[..k + 1][j].Exact?;
    }
  }

  /** The dependencies of one component: each reference once and in order, whether one could not be read, and how many
      are not among the components. */
  method EdgesOf(cs: seq<Component>, index: map<string, string>, dependencies: seq<Spec>)
    returns (dependsOn: seq<string>, unknown: bool, missing: nat)
    requires IsIndex(index, cs)
    ensures ListsInOrder(dependsOn, References(cs, dependencies))
    ensures unknown <==> AnyUnknown(dependencies)
    ensures missing == CountMissing(cs, dependencies)
  {
    var found := [];
    unknown, missing := false, 0;
    for k := 0 to |dependencies|
      invariant forall ref :: ref in found <==> ref in References(cs, dependencies[..k])
      invariant unknown <==> AnyUnknown(dependencies[..k])
      invariant missing == CountMissing(cs, dependencies[..k])
    {
      var s := dependencies[k];
      OneMore(cs, dependencies, k);
      if !s.Exact? {
        unknown := true;
      } else if s.name in index {
        found := found + [index[s.name]];
      } else {
        missing := missing + 1;
      }
    }
    assert dependencies[..|dependencies|] == dependencies;
    dependsOn := Ordering.SortNames(found);
  }

  predicate SameElements(s: seq<string>, r: set<string>) {
    (forall x :: x in s ==> x in r) && (forall x :: x in r ==> x in s)
  }

  /** The list has the references of the set, each once, in order. */
  predicate ListsInOrder(s: seq<string>, r: set<string>) {
    SameElements(s, r) && Ordering.IsSorted(s, Ordering.Self) && Ordering.Distinct(s)
  }

  // ---------------------------------------------------------------------
  // Reachability
  // ---------------------------------------------------------------------

  predicate Edge(edges: Edges, a: string, b: string) {
    a in edges && b in edges[a]
  }

  predicate StepAt(edges: Edges, p: seq<string>, k: nat)
    requires 0 < k < |p|
  {
    Edge(edges, p[k - 1], p[k])
  }

  predicate IsPath(edges: Edges, p: seq<string>) {
    p != [] && forall k :: 0 < k < |p| ==> StepAt(edges, p, k)
  }

  ghost predicate Reaches(edges: Edges, seeds: seq<string>, ref: string) {
    exists p :: IsPath(edges, p) && p[0] in seeds && p[|p| - 1] == ref
  }

  ghost predicate ClosedUnder(edges: Edges, found: set<string>) {
    forall a, b :: a in found && Edge(edges, a, b) ==> b in found
  }

  lemma SeedsAreReached(edges: Edges, seeds: seq<string>, ref: string)
    requires ref in seeds
    ensures Reaches(edges, seeds, ref)
  {
    assert IsPath(edges, [ref]);
  }

  lemma ReachedStep(edges: Edges, seeds: seq<string>, a: string, b: string)
    requires Reaches(edges, seeds, a) && Edge(edges, a, b)
    ensures Reaches(edges, seeds, b)
  {
    var p :| IsPath(edges, p) && p[0] in seeds && p[|p| - 1] == a;
    var longer := p + [b];
    forall k | 0 < k < |longer| ensures StepAt(edges, longer, k) {
      if k < |p| {
        assert StepAt(edges, p, k);
      }
    }
    assert IsPath(edges, longer);
  }

  /** A path never leaves a closed set. */
  lemma {:induction false} PathsStay(edges: Edges, found: set<string>, p: seq<string>)
    requires ClosedUnder(edges, found) && IsPath(edges, p) && p[0] in found
    ensures p[|p| - 1] in found
  {
    if |p| > 1 {
      assert StepAt(edges, p, 1);
      var rest := p[1..];
      forall k | 0 < k < |rest| ensures StepAt(edges, rest, k) {
        assert StepAt(edges, p, k + 1);
      }
      PathsStay(edges, found, rest);
    }
  }

  lemma ClosedSetsCover(edges: Edges, found: set<string>, seeds: seq<string>, ref: string)
    requires ClosedUnder(edges, found) && (forall s :: s in seeds ==> s in found) && Reaches(edges, seeds, ref)
    ensures ref in found
  {
    var p :| IsPath(edges, p) && p[0] in seeds && p[|p| - 1] == ref;
    PathsStay(edges, found, p);
  }

  /** What is found is closed, but for what is still pending. */
  ghost predicate ClosedButFor(edges: Edges, found: set<string>, pending: seq<string>) {
    forall a, b :: a in found && Edge(edges, a, b) ==> b in found || b in pending
  }

  /** Everything that a search from `seeds` can meet. */
  ghost function Universe(edges: Edges, seeds: seq<string>): (r: set<string>)
    ensures forall s :: s in seeds ==> s in r
    ensures forall a, b :: Edge(edges, a, b) ==> b in r
  {
    (set a, b | a in edges && b in edges[a] :: b) + set s | s in seeds
  }

  /** What a search knows half way: it has found nothing that cannot be reached, and what it has not followed yet is
      pending. */
  ghost predicate Searching(edges: Edges, seeds: seq<string>, found: set<string>, reachable: set<string>, pending: seq<string>) {
    && found <= reachable && ClosedButFor(edges, reachable, pending)
    && (forall s :: s in seeds ==> s in reachable || s in pending)
    && (forall ref :: ref in pending ==> Reaches(edges, seeds, ref))
    && (forall ref :: ref in reachable ==> ref in found || Reaches(edges, seeds, ref))
    && (forall ref :: ref in pending ==> ref in Universe(edges, seeds))
  }

  lemma SearchBegins(edges: Edges, seeds: seq<string>, found: set<string>)
    requires ClosedUnder(edges, found)
    ensures Searching(edges, seeds, found, found, seeds)
  {
    forall ref | ref in seeds ensures Reaches(edges, seeds, ref) {
      SeedsAreReached(edges, seeds, ref);
    }
  }

  function EdgesFrom(edges: Edges, ref: string): seq<string> {
    if ref in edges then edges[ref] else []
  }

  /** The edges of a newly found reference become pending. */
  lemma SearchGoesOn(edges: Edges, seeds: seq<string>, found: set<string>, reachable: set<string>, rest: seq<string>, ref: string)
    requires Searching(edges, seeds, found, reachable, rest + [ref])
    ensures ref in Universe(edges, seeds)
    ensures ref in reachable ==> Searching(edges, seeds, found, reachable, rest)
    ensures Searching(edges, seeds, found, reachable + {ref}, rest + EdgesFrom(edges, ref))
  {
    var more := EdgesFrom(edges, ref);
    assert forall r :: r in rest + [ref] <==> r in rest || r == ref;
    assert ref in rest + [ref];
    forall b | b in more ensures Reaches(edges, seeds, b) && b in Universe(edges, seeds) {
      assert Edge(edges, ref, b);
      ReachedStep(edges, seeds, ref, b);
    }
  }

  lemma SearchEnds(edges: Edges, seeds: seq<string>, found: set<string>, reachable: set<string>)
    requires ClosedUnder(edges, found) && Searching(edges, seeds, found, reachable, [])
    ensures ClosedUnder(edges, reachable)
    ensures forall ref :: ref in reachable <==> ref in found || Reaches(edges, seeds, ref)
  {
    forall ref | Reaches(edges, seeds, ref) ensures ref in reachable {
      ClosedSetsCover(edges, reachable, seeds, ref);
    }
  }

  /** `add_reachable`: add everything that can be reached from `seeds`. */
  method AddReachable(edges: Edges, seeds: seq<string>, found: set<string>) returns (reachable: set<string>)
    requires ClosedUnder(edges, found)
    ensures ClosedUnder(edges, reachable)
    ensures forall ref :: ref in reachable <==> ref in found || Reaches(edges, seeds, ref)
  {
    var pending := seeds;
    reachable := found;
    SearchBegins(edges, seeds, found);
    while pending != []
      invariant Searching(edges, seeds, found, reachable, pending)
      decreases Universe(edges, seeds) - reachable, |pending|
    {
      var ref, rest := pending[|pending| - 1], pending[..|pending| - 1];
      assert pending == rest + [ref];
      SearchGoesOn(edges, seeds, found, reachable, rest, ref);
      pending := rest;
      if ref !in reachable {
        reachable, pending := reachable + {ref}, rest + EdgesFrom(edges, ref);
      }
    }
    SearchEnds(edges, seeds, found, reachable);
  }

  // ---------------------------------------------------------------------
  // The graph and its roots
  // ---------------------------------------------------------------------

  datatype Graph = Graph(edges: Edges, dependedOn: set<string>, unknown: set<string>, incomplete: set<string>, missing: nat)

  /** Whether no later component has the same reference. */
  predicate IsLast(cs: seq<Component>, i: nat)
    requires i < |cs|
  {
    forall j :: i < j < |cs| ==> cs[j].ref != cs[i].ref
  }

  predicate HasUnknown(c: Component) {
    AnyUnknown(c.dependencies)
  }

  ghost predicate EdgesMatch(all: seq<Component>, cs: seq<Component>, edges: Edges) {
    && (forall ref :: ref in edges ==> exists i :: 0 <= i < |cs| && cs[i].ref == ref)
    && (forall i :: 0 <= i < |cs| ==> cs[i].ref in edges)
    && (forall i :: 0 <= i < |cs| && IsLast(cs, i) ==> ListsInOrder(edges[cs[i].ref], References(all, cs[i].dependencies)))
  }

  ghost predicate TargetsMatch(all: seq<Component>, cs: seq<Component>, g: Graph) {
    && (forall ref :: ref in g.dependedOn <==> exists i :: 0 <= i < |cs| && ref in References(all, cs[i].dependencies))
    && (forall a, b :: Edge(g.edges, a, b) ==> b in g.dependedOn)
  }

  ghost predicate GapsMatch(all: seq<Component>, cs: seq<Component>, g: Graph) {
    && (forall ref :: ref in g.unknown <==> exists i :: 0 <= i < |cs| && cs[i].ref == ref && HasUnknown(cs[i]))
    && (forall ref :: ref in g.incomplete <==> exists i :: 0 <= i < |cs| && cs[i].ref == ref && CountMissing(all, cs[i].dependencies) > 0)
    && g.missing == CountAllMissing(all, cs)
  }

  /** The graph `g` has the edges, and the gaps, of the components `cs` among `all`. */
  ghost predicate Represents(all: seq<Component>, cs: seq<Component>, g: Graph) {
    EdgesMatch(all, cs, g.edges) && TargetsMatch(all, cs, g) && GapsMatch(all, cs, g)
  }

  function WithComponent(g: Graph, c: Component, dependsOn: seq<string>, unknown: bool, missing: nat): Graph {
    Graph(g.edges[c.ref := dependsOn],
          g.dependedOn + set s | s in dependsOn,
          if unknown then g.unknown + {c.ref} else g.unknown,
          if missing > 0 then g.incomplete + {c.ref} else g.incomplete,
          g.missing + missing)
  }

  /** The edge construction of `render_cyclonedx_sbom`. */
  method BuildGraph(cs: seq<Component>) returns (g: Graph)
    ensures Represents(cs, cs, g)
  {
    var index := ReferencesByName(cs);
    g := Graph(map[], {}, {}, {}, 0);
    NothingRepresented(cs, g);
    for i := 0 to |cs|
      invariant Represents(cs, cs[..i], g)
    {
      g := AddTo(g, cs, index, i);
    }
    assert cs[..|cs|] == cs;
  }

  lemma NothingRepresented(cs: seq<Component>, g: Graph)
    requires g == Graph(map[], {}, {}, {}, 0)
    ensures Represents(cs, cs[..0], g)
  {
  }

  /** One turn of that loop. */
  method AddTo(g: Graph, cs: seq<Component>, index: map<string, string>, i: nat) returns (next: Graph)
    requires i < |cs| && IsIndex(index, cs) && Represents(cs, cs[..i], g)
    ensures Represents(cs, cs[..i + 1], next)
  {
    var dependsOn, unknown, missing := EdgesOf(cs, index, cs[i].dependencies);
    next := WithComponent(g, cs[i], dependsOn, unknown, missing);
    PrefixGrows(cs, i);
    AddComponent(cs, cs[..i], cs[i], cs[..i + 1], g, dependsOn, unknown, missing, next);
  }

  lemma PrefixGrows(cs: seq<Component>, i: nat)
    requires i < |cs|
    ensures cs[..i + 1] == cs[..i] + [cs[i]]
  {
  }

  lemma AddComponent(all: seq<Component>, cs: seq<Component>, c: Component, more: seq<Component>, g: Graph,
                     dependsOn: seq<string>, unknown: bool, missing: nat, next: Graph)
    requires Represents(all, cs, g) && more == cs + [c] && next == WithComponent(g, c, dependsOn, unknown, missing)
    requires ListsInOrder(dependsOn, References(all, c.dependencies)) && missing == CountMissing(all, c.dependencies)
    requires unknown <==> HasUnknown(c)
    ensures Represents(all, more, next)
  {
    AddEdges(all, cs, c, g.edges, dependsOn);
    AddTargets(all, cs, c, g, dependsOn, unknown, missing);
    AddGaps(all, cs, c, g, dependsOn, unknown, missing);
  }

  lemma AddEdges(all: seq<Component>, cs: seq<Component>, c: Component, edges: Edges, dependsOn: seq<string>)
    requires EdgesMatch(all, cs, edges) && ListsInOrder(dependsOn, References(all, c.dependencies))
    ensures EdgesMatch(all, cs + [c], edges[c.ref := dependsOn])
  {
    var ds, edges' := cs + [c], edges[c.ref := dependsOn];
    assert ds[|cs|] == c && forall j :: 0 <= j < |cs| ==> ds[j] == cs[j];
    forall ref | ref in edges' ensures exists i :: 0 <= i < |ds| && ds[i].ref == ref {
      if ref != c.ref {
        var i :| 0 <= i < |cs| && cs[i].ref == ref;
        assert ds[i].ref == ref;
      }
    }
    forall i | 0 <= i < |cs| && IsLast(ds, i) ensures ds[i].ref != c.ref && IsLast(cs, i) {
    }
  }

  lemma AddTargets(all: seq<Component>, cs: seq<Component>, c: Component, g: Graph, dependsOn: seq<string>, unknown: bool, missing: nat)
    requires TargetsMatch(all, cs, g) && SameElements(dependsOn, References(all, c.dependencies))
    ensures TargetsMatch(all, cs + [c], WithComponent(g, c, dependsOn, unknown, missing))
  {
    var ds, g' := cs + [c], WithComponent(g, c, dependsOn, unknown, missing);
    assert ds[|cs|] == c && forall j :: 0 <= j < |cs| ==> ds[j] == cs[j];
    forall a, b | Edge(g'.edges, a, b) ensures b in g'.dependedOn {
      assert a != c.ref ==> Edge(g.edges, a, b);
    }
    forall ref | exists i :: 0 <= i < |ds| && ref in References(all, ds[i].dependencies) ensures ref in g'.dependedOn {
      var i :| 0 <= i < |ds| && ref in References(all, ds[i].dependencies);
      assert i < |cs| ==> ref in References(all, cs[i].dependencies);
    }
    forall ref | ref in g'.dependedOn ensures exists i :: 0 <= i < |ds| && ref in References(all, ds[i].dependencies) {
      if ref in g.dependedOn {
        var i :| 0 <= i < |cs| && ref in References(all, cs[i].dependencies);
        assert ref in References(all, ds[i].dependencies);
      } else {
        assert ref in References(all, ds[|cs|].dependencies);
      }
    }
  }

  lemma AddGaps(all: seq<Component>, cs: seq<Component>, c: Component, g: Graph, dependsOn: seq<string>, unknown: bool, missing: nat)
    requires GapsMatch(all, cs, g) && missing == CountMissing(all, c.dependencies) && (unknown <==> HasUnknown(c))
    ensures GapsMatch(all, cs + [c], WithComponent(g, c, dependsOn, unknown, missing))
  {
    var ds, g' := cs + [c], WithComponent(g, c, dependsOn, unknown, missing);
    assert ds[|cs|] == c && ds[..|ds| - 1] == cs && forall j :: 0 <= j < |cs| ==> ds[j] == cs[j];
    forall ref ensures ref in g'.unknown <==> exists i :: 0 <= i < |ds| && ds[i].ref == ref && HasUnknown(ds[i]) {
      if ref in g.unknown {
        var i :| 0 <= i < |cs| && cs[i].ref == ref && HasUnknown(cs[i]);
        assert ds[i] == cs[i];
      }
    }
    forall ref ensures ref in g'.incomplete <==> exists i :: 0 <= i < |ds| && ds[i].ref == ref && CountMissing(all, ds[i].dependencies) > 0 {
      if ref in g.incomplete {
        var i :| 0 <= i < |cs| && cs[i].ref == ref && CountMissing(all, cs[i].dependencies) > 0;
        assert ds[i] == cs[i];
      }
    }
  }

  /** More seeds reach what fewer reach, and what the new one reaches. */
  lemma ReachesMore(edges: Edges, seeds: seq<string>, seed: string, ref: string)
    ensures Reaches(edges, seeds + [seed], ref) <==> Reaches(edges, seeds, ref) || Reaches(edges, [seed], ref)
  {
    if Reaches(edges, seeds + [seed], ref) {
      var p :| IsPath(edges, p) && p[0] in seeds + [seed] && p[|p| - 1] == ref;
      assert p[0] in seeds || p[0] in [seed];
    }
    if Reaches(edges, seeds, ref) {
      var p :| IsPath(edges, p) && p[0] in seeds && p[|p| - 1] == ref;
      assert p[0] in seeds + [seed];
    }
    if Reaches(edges, [seed], ref) {
      var p :| IsPath(edges, p) && p[0] in [seed] && p[|p| - 1] == ref;
      assert p[0] in seeds + [seed];
    }
  }

  predicate IsRef(cs: seq<Component>, ref: string) {
    exists i :: 0 <= i < |cs| && cs[i].ref == ref
  }

  /** Every root after the first `initial` ones is out of reach of those before it. */
  ghost predicate EachAddsSomething(edges: Edges, roots: seq<string>, initial: nat) {
    initial <= |roots| && forall k :: initial <= k < |roots| ==> Adds(edges, roots, k)
  }

  ghost predicate Adds(edges: Edges, roots: seq<string>, k: nat)
    requires k < |roots|
  {
    !Reaches(edges, roots[..k], roots[k])
  }

  ghost predicate ReachableFrom(edges: Edges, roots: seq<string>, reachable: set<string>) {
    forall ref {:trigger Reaches(edges, roots, ref)} :: ref in reachable <==> Reaches(edges, roots, ref)
  }

  /** One more root, and all that it reaches. */
  lemma AddRoot(edges: Edges, roots: seq<string>, initial: nat, ref: string, before: set<string>, after: set<string>)
    requires EachAddsSomething(edges, roots, initial) && ReachableFrom(edges, roots, before) && ref !in before
    requires forall r :: r in after <==> r in before || Reaches(edges, [ref], r)
    ensures EachAddsSomething(edges, roots + [ref], initial) && ReachableFrom(edges, roots + [ref], after)
    ensures before <= after && ref in after
  {
    var more := roots + [ref];
    forall k | initial <= k < |more| ensures Adds(edges, more, k) {
      if k < |roots| {
        assert Adds(edges, roots, k) && more[..k] == roots[..k];
      } else {
        assert more[..k] == roots;
      }
    }
    forall r ensures r in after <==> Reaches(edges, more, r) {
      ReachesMore(edges, roots, ref, r);
    }
    SeedsAreReached(edges, [ref], ref);
  }

  function RefsOf(cs: seq<Component>): seq<string> {
    seq(|cs|, i requires 0 <= i < |cs| => cs[i].ref)
  }

  /** The references that are not in `excluded`, in order. */
  function Beside(refs: seq<string>, excluded: set<string>): seq<string> {
    if refs == [] then []
    else Beside(refs[..|refs| - 1], excluded) + if refs[|refs| - 1] in excluded then [] else [refs[|refs| - 1]]
  }

  /** `first`, and in their order the references that those before them do not reach. */
  ghost function Covering(edges: Edges, first: seq<string>, refs: seq<string>): seq<string> {
    if refs == [] then first else WithRoot(edges, Covering(edges, first, refs[..|refs| - 1]), refs[|refs| - 1])
  }

  ghost function WithRoot(edges: Edges, roots: seq<string>, ref: string): seq<string> {
    if Reaches(edges, roots, ref) then roots else roots + [ref]
  }

  ghost predicate AreSteps(edges: Edges, refs: seq<string>, steps: seq<seq<string>>) {
    |steps| == |refs| + 1 && forall i {:trigger steps[i], refs[i]} :: 0 <= i < |refs| ==> steps[i + 1] == WithRoot(edges, steps[i], refs[i])
  }

  /** The roots after every reference. */
  lemma {:induction false} StepsOf(edges: Edges, first: seq<string>, refs: seq<string>) returns (steps: seq<seq<string>>)
    ensures AreSteps(edges, refs, steps) && steps[0] == first && steps[|refs|] == Covering(edges, first, refs)
  {
    if refs == [] {
      steps := [first];
    } else {
      var n := |refs| - 1;
      var before := StepsOf(edges, first, refs[..n]);
      steps := before + [WithRoot(edges, before[n], refs[n])];
      forall i | 0 <= i < |refs| ensures steps[i + 1] == WithRoot(edges, steps[i], refs[i]) {
        assert i < n ==> before[i + 1] == WithRoot(edges, before[i], refs[..n][i]);
      }
    }
  }

  /** The roots before they are sorted. */
  ghost function Chosen(cs: seq<Component>, g: Graph): seq<string> {
    var first := Beside(RefsOf(cs), g.dependedOn);
    if first == [] then RefsOf(cs) else Covering(g.edges, first, RefsOf(cs))
  }

  lemma {:induction false} BesideHolds(refs: seq<string>, excluded: set<string>, ref: string)
    ensures ref in Beside(refs, excluded) <==> ref in refs && ref !in excluded
  {
    if refs != [] {
      BesideHolds(refs[..|refs| - 1], excluded, ref);
      assert refs == refs[..|refs| - 1] + [refs[|refs| - 1]];
    }
  }

  /** When something depends on every component, every reference is a root, and otherwise at least one is that nothing
      depends on. */
  lemma AllAreChosenIf(cs: seq<Component>, g: Graph)
    ensures (forall ref :: IsRef(cs, ref) ==> ref in g.dependedOn) ==> Chosen(cs, g) == RefsOf(cs)
    ensures (exists ref :: IsRef(cs, ref) && ref !in g.dependedOn) ==> Beside(RefsOf(cs), g.dependedOn) != []
  {
    var first := Beside(RefsOf(cs), g.dependedOn);
    if ref :| IsRef(cs, ref) && ref !in g.dependedOn {
      RefsHold(cs);
      BesideHolds(RefsOf(cs), g.dependedOn, ref);
    } else if first != [] {
      BesideHolds(RefsOf(cs), g.dependedOn, first[0]);
      RefsHold(cs);
    }
  }

  lemma RefsHold(cs: seq<Component>)
    ensures forall i :: 0 <= i < |cs| ==> RefsOf(cs)[i] == cs[i].ref
    ensures forall ref :: ref in RefsOf(cs) <==> IsRef(cs, ref)
  {
  }

  /** The components that nothing depends on, in order. */
  method InitialRoots(cs: seq<Component>, dependedOn: set<string>) returns (roots: seq<string>)
    ensures roots == Beside(RefsOf(cs), dependedOn)
    ensures forall ref :: ref in roots <==> IsRef(cs, ref) && ref !in dependedOn
  {
    roots := [];
    for i := 0 to |cs|
      invariant roots == Beside(RefsOf(cs)[..i], dependedOn)
      invariant forall ref :: ref in roots <==> (exists j :: 0 <= j < i && cs[j].ref == ref) && ref !in dependedOn
    {
      assert RefsOf(cs)[..i + 1][..i] == RefsOf(cs)[..i];
      if cs[i].ref !in dependedOn {
        roots := roots + [cs[i].ref];
      }
    }
    assert RefsOf(cs)[..|cs|] == RefsOf(cs);
  }

  method AllReferences(cs: seq<Component>) returns (roots: seq<string>)
    ensures roots == RefsOf(cs)
    ensures forall ref :: ref in roots <==> IsRef(cs, ref)
  {
    roots := [];
    for i := 0 to |cs|
      invariant roots == RefsOf(cs)[..i]
      invariant forall ref :: ref in roots <==> exists j :: 0 <= j < i && cs[j].ref == ref
    {
      roots := roots + [cs[i].ref];
    }
  }

  /** The root references of `render_cyclonedx_sbom`, before they are sorted: `initial` components that nothing depends
      on, then one reference of every part of the graph that these do not reach; or all references, when something
      depends on every component. Every component is reachable. */
  method SelectRoots(cs: seq<Component>, g: Graph) returns (roots: seq<string>, initial: nat)
    ensures roots == Chosen(cs, g)
    ensures forall ref :: IsRef(cs, ref) ==> Reaches(g.edges, roots, ref)
    ensures EachAddsSomething(g.edges, roots, initial)
    ensures forall ref :: ref in roots ==> IsRef(cs, ref)
    ensures forall ref :: IsRef(cs, ref) && ref !in g.dependedOn ==> ref in roots[..initial]
    ensures forall ref :: ref in roots[..initial] && ref in g.dependedOn ==> initial == |roots| && forall r :: IsRef(cs, r) ==> r in g.dependedOn
  {
    roots := InitialRoots(cs, g.dependedOn);
    if roots == [] {
      roots := AllReferences(cs);
      forall ref | IsRef(cs, ref) ensures Reaches(g.edges, roots, ref) {
        SeedsAreReached(g.edges, roots, ref);
      }
      assert roots[..|roots|] == roots;
      return roots, |roots|;
    }
    initial := |roots|;
    ghost var reachable;
    RefsHold(cs);
    ghost var steps := StepsOf(g.edges, roots, RefsOf(cs));
    roots, reachable := CoverTheRest(cs, g.edges, roots, RefsOf(cs), steps);
  }

  /** Add a root for every component that is not reached yet. */
  method CoverTheRest(cs: seq<Component>, edges: Edges, first: seq<string>, ghost refs: seq<string>, ghost steps: seq<seq<string>>)
    returns (roots: seq<string>, ghost reachable: set<string>)
    requires |refs| == |cs| && forall j :: 0 <= j < |cs| ==> refs[j] == cs[j].ref
    requires forall ref :: ref in first ==> ref in refs
    requires AreSteps(edges, refs, steps) && steps[0] == first
    ensures roots == steps[|refs|]
    ensures ReachableFrom(edges, roots, reachable) && forall j :: 0 <= j < |cs| ==> cs[j].ref in reachable
    ensures EachAddsSomething(edges, roots, |first|) && first <= roots && forall ref :: ref in roots ==> ref in refs
  {
    roots := first;
    var found := AddReachable(edges, first, {});
    for i := 0 to |cs|
      invariant roots == steps[i]
      invariant EachAddsSomething(edges, roots, |first|) && ReachableFrom(edges, roots, found)
      invariant ClosedUnder(edges, found) && first <= roots && forall ref :: ref in roots ==> ref in refs
      invariant forall j :: 0 <= j < i ==> cs[j].ref in found
    {
      assert refs[i] == cs[i].ref;
      roots, found := CoverOne(edges, |first|, roots, found, cs[i].ref);
    }
    reachable := found;
  }

  /** Add `ref` to the roots unless it is reached already. */
  method CoverOne(edges: Edges, ghost initial: nat, roots: seq<string>, reachable: set<string>, ref: string)
    returns (more: seq<string>, reached: set<string>)
    requires EachAddsSomething(edges, roots, initial) && ReachableFrom(edges, roots, reachable) && ClosedUnder(edges, reachable)
    ensures EachAddsSomething(edges, more, initial) && ReachableFrom(edges, more, reached) && ClosedUnder(edges, reached)
    ensures more == WithRoot(edges, roots, ref) && more in {roots, roots + [ref]} && reachable <= reached && ref in reached
  {
    if ref in reachable { return roots, reachable; }
    reached := AddReachable(edges, [ref], reachable);
    AddRoot(edges, roots, initial, ref, reachable, reached);
    more := roots + [ref];
  }

  /** Nothing but itself reaches a component that nothing depends on, so that every complete list of roots has it. */
  lemma InitialRootsAreNeeded(cs: seq<Component>, g: Graph, seeds: seq<string>, ref: string)
    requires Represents(cs, cs, g) && ref !in g.dependedOn && Reaches(g.edges, seeds, ref)
    ensures ref in seeds
  {
    var p :| IsPath(g.edges, p) && p[0] in seeds && p[|p| - 1] == ref;
    if |p| > 1 {
      LastEdge(g.edges, p);
    }
  }

  lemma LastEdge(edges: Edges, p: seq<string>)
    requires IsPath(edges, p) && |p| > 1
    ensures Edge(edges, p[|p| - 2], p[|p| - 1])
  {
    assert StepAt(edges, p, |p| - 1);
  }

  function RefKey(c: Component): string {
    c.ref
  }

  lemma SameSeedsReach(edges: Edges, a: seq<string>, b: seq<string>, ref: string)
    requires Ordering.SameNames(a, b) && Reaches(edges, a, ref)
    ensures Reaches(edges, b, ref)
  {
    var p :| IsPath(edges, p) && p[0] in a && p[|p| - 1] == ref;
    assert p[0] in b;
  }

  ghost predicate Covers(cs: seq<Component>, edges: Edges, seeds: seq<string>) {
    forall ref :: IsRef(cs, ref) ==> Reaches(edges, seeds, ref)
  }

  /** What reaches a component that nothing depends on is that component. */
  ghost predicate InitialRootsNeeded(cs: seq<Component>, g: Graph) {
    forall seeds, ref {:trigger Reaches(g.edges, seeds, ref)} ::
      IsRef(cs, ref) && ref !in g.dependedOn && Reaches(g.edges, seeds, ref) ==> ref in seeds
  }

  lemma InitialRootsAreInAll(cs: seq<Component>, g: Graph, roots: seq<string>)
    requires Represents(cs, cs, g) && Covers(cs, g.edges, roots)
    ensures InitialRootsNeeded(cs, g) && forall ref :: IsRef(cs, ref) && ref !in g.dependedOn ==> ref in roots
  {
    forall seeds, ref | IsRef(cs, ref) && ref !in g.dependedOn && Reaches(g.edges, seeds, ref) ensures ref in seeds {
      InitialRootsAreNeeded(cs, g, seeds, ref);
    }
  }

  /** The roots of a graph, sorted. `chosen` are the roots in the order in which they were found. */
  method SortedRoots(cs: seq<Component>, g: Graph) returns (roots: seq<string>, ghost chosen: seq<string>, ghost initial: nat)
    ensures chosen == Chosen(cs, g)
    ensures Ordering.IsSortedFrom(chosen, roots, Ordering.Self) && EachAddsSomething(g.edges, chosen, initial)
    ensures Covers(cs, g.edges, roots) && forall ref :: ref in roots ==> IsRef(cs, ref)
  {
    var found;
    found, initial := SelectRoots(cs, g);
    chosen := found;
    roots := Ordering.SortBy(found, Ordering.Self);
    Ordering.SortedFromSameNames(found, roots);
    forall ref | IsRef(cs, ref) ensures Reaches(g.edges, roots, ref) {
      SameSeedsReach(g.edges, found, roots, ref);
    }
  }

  /** The graph and its roots, as `render_cyclonedx_sbom` combines them. */
  method RootDependencies(packages: seq<Component>)
    returns (cs: seq<Component>, g: Graph, roots: seq<string>, ghost chosen: seq<string>, ghost initial: nat)
    ensures Ordering.IsSortedFrom(packages, cs, RefKey) && Represents(cs, cs, g) && Ordering.IsSortedFrom(chosen, roots, Ordering.Self)
    ensures Covers(cs, g.edges, roots) && forall ref :: ref in roots ==> IsRef(cs, ref)
    ensures chosen == Chosen(cs, g) && EachAddsSomething(g.edges, chosen, initial)
    ensures (forall ref :: IsRef(cs, ref) ==> ref in g.dependedOn) ==> Ordering.IsSortedFrom(RefsOf(cs), roots, Ordering.Self)
    ensures InitialRootsNeeded(cs, g) && forall ref :: IsRef(cs, ref) && ref !in g.dependedOn ==> ref in roots
  {
    cs := Ordering.SortBy(packages, RefKey);
    g := BuildGraph(cs);
    roots, chosen, initial := SortedRoots(cs, g);
    InitialRootsAreInAll(cs, g, roots);
    AllAreChosenIf(cs, g);
  }

  // ---------------------------------------------------------------------
  // The order of the packages does not matter
  // ---------------------------------------------------------------------

  lemma {:induction false} LastWithRef(cs: seq<Component>, ref: string) returns (i: nat)
    requires IsRef(cs, ref)
    ensures i < |cs| && cs[i].ref == ref && IsLast(cs, i)
  {
    var n := |cs| - 1;
    if cs[n].ref == ref {
      i := n;
    } else {
      var k :| 0 <= k < |cs| && cs[k].ref == ref;
      assert cs[..n][k].ref == ref;
      i := LastWithRef(cs[..n], ref);
      assert forall j :: i < j < n ==> cs[..n][j] == cs[j];
    }
  }

  lemma SameEdgeList(all: seq<Component>, cs: seq<Component>, a: Edges, b: Edges, ref: string)
    requires EdgesMatch(all, cs, a) && EdgesMatch(all, cs, b) && IsRef(cs, ref)
    ensures ref in a && ref in b && a[ref] == b[ref]
  {
    var i := LastWithRef(cs, ref);
    Ordering.SortedNamesAreUnique(a[ref], b[ref]);
  }

  /** Components have one graph. */
  lemma GraphIsDetermined(all: seq<Component>, cs: seq<Component>, a: Graph, b: Graph)
    requires Represents(all, cs, a) && Represents(all, cs, b)
    ensures a == b
  {
    forall ref ensures (ref in a.edges <==> ref in b.edges) && (ref in a.edges ==> a.edges[ref] == b.edges[ref]) {
      if IsRef(cs, ref) {
        SameEdgeList(all, cs, a.edges, b.edges, ref);
      }
    }
    assert a.edges == b.edges;
    assert a.dependedOn == b.dependedOn && a.unknown == b.unknown && a.incomplete == b.incomplete;
  }

  /** The same packages in another order, with different references, are the same components. */
  lemma ComponentsAreDetermined(packages: seq<Component>, others: seq<Component>, cs: seq<Component>, ds: seq<Component>)
    requires multiset(packages) == multiset(others)
    requires forall x, y :: x in packages && y in packages && x.ref == y.ref ==> x == y
    requires Ordering.IsSortedFrom(packages, cs, RefKey) && Ordering.IsSortedFrom(others, ds, RefKey)
    ensures cs == ds
  {
    forall x ensures x in cs ==> x in packages {
      assert x in multiset(cs) ==> x in multiset(packages);
    }
    Ordering.SortedIsUnique(cs, ds, RefKey);
  }
}
