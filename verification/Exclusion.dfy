/** Removing excluded packages, and what only they needed, from a resolved package list (`filter_excluded` of
    `src/bin/cs/project.rs`). */
module Exclusion {
  import opened Wrappers
  import Ordering

  datatype Record = Record(name: string, depends: seq<string>)

  /** A package of a lockfile may be without its record. */
  datatype Package = Package(record: Option<Record>)

  // ---------------------------------------------------------------------
  // The least set that is closed under the two reasons for a removal
  // ---------------------------------------------------------------------

  predicate Within(ps: seq<Record>, all: set<nat>) {
    forall i :: i in all ==> i < |ps|
  }

  /** A name stands for the last of the packages that carry it. */
  predicate IsLast(ps: seq<Record>, all: set<nat>, d: nat)
    requires Within(ps, all)
  {
    d in all && forall e :: e in all && ps[e].name == ps[d].name ==> e <= d
  }

  /** Among the packages `all`, the package `i` depends on the package `d`. */
  predicate Depends(ps: seq<Record>, all: set<nat>, i: nat, d: nat)
    requires Within(ps, all)
  {
    i in all && IsLast(ps, all, d) && ps[d].name in ps[i].depends
  }

  /** Some removed package depends on `d`, and no other package does. */
  ghost predicate Orphan(ps: seq<Record>, all: set<nat>, d: nat, r: set<nat>)
    requires Within(ps, all)
  {
    && (exists i :: i in r && Depends(ps, all, i, d))
    && (forall i :: Depends(ps, all, i, d) ==> i in r)
  }

  ghost predicate Closed(ps: seq<Record>, all: set<nat>, excludes: set<string>, r: set<nat>)
    requires Within(ps, all)
  {
    && (forall i :: i in all && ps[i].name in excludes ==> i in r)
    && (forall d :: d in all && Orphan(ps, all, d, r) ==> d in r)
  }

  /** What belongs to every closed set. */
  ghost function Removed(ps: seq<Record>, all: set<nat>, excludes: set<string>): set<nat>
    requires Within(ps, all)
  {
    set i | i in all && InEveryClosed(ps, all, excludes, i)
  }

  ghost predicate InEveryClosed(ps: seq<Record>, all: set<nat>, excludes: set<string>, i: nat)
    requires Within(ps, all)
  {
    forall r :: Closed(ps, all, excludes, r) ==> i in r
  }

  lemma OrphanIsMonotone(ps: seq<Record>, all: set<nat>, d: nat, r: set<nat>, s: set<nat>)
    requires Within(ps, all) && r <= s && Orphan(ps, all, d, r)
    ensures Orphan(ps, all, d, s)
  {
    var i :| i in r && Depends(ps, all, i, d);
    assert i in s;
  }

  /** The set is closed itself, and so the least closed set. */
  lemma RemovedIsLeastClosed(ps: seq<Record>, all: set<nat>, excludes: set<string>)
    requires Within(ps, all)
    ensures Closed(ps, all, excludes, Removed(ps, all, excludes))
    ensures forall r :: Closed(ps, all, excludes, r) ==> Removed(ps, all, excludes) <= r
  {
    var least := Removed(ps, all, excludes);
    forall d | d in all && Orphan(ps, all, d, least) ensures d in least {
      forall r | Closed(ps, all, excludes, r) ensures d in r {
        assert least <= r;
        OrphanIsMonotone(ps, all, d, least, r);
      }
    }
  }

  /** Excluding more removes more. */
  lemma RemovedIsMonotone(ps: seq<Record>, all: set<nat>, excludes: set<string>, more: set<string>)
    requires Within(ps, all) && excludes <= more
    ensures Removed(ps, all, excludes) <= Removed(ps, all, more)
  {
    RemovedIsLeastClosed(ps, all, excludes);
    RemovedIsLeastClosed(ps, all, more);
    assert Closed(ps, all, excludes, Removed(ps, all, more));
  }

  /** Without a dependency of a kept package that is not excluded, the least closed set would still be closed. */
  lemma KeptNeeds(ps: seq<Record>, all: set<nat>, excludes: set<string>, i: nat, d: nat)
    requires Within(ps, all) && Depends(ps, all, i, d)
    requires i !in Removed(ps, all, excludes) && ps[d].name !in excludes
    ensures Closed(ps, all, excludes, Removed(ps, all, excludes) - {d})
  {
    var least := Removed(ps, all, excludes);
    var smaller := least - {d};
    RemovedIsLeastClosed(ps, all, excludes);
    forall e | e in all && Orphan(ps, all, e, smaller) ensures e in smaller {
      OrphanIsMonotone(ps, all, e, smaller, least);
    }
  }

  /** A package that is kept loses a dependency only if that was excluded by name. */
  lemma KeptLosesOnlyExcluded(ps: seq<Record>, all: set<nat>, excludes: set<string>, i: nat, d: nat)
    requires Within(ps, all) && Depends(ps, all, i, d)
    requires i !in Removed(ps, all, excludes) && d in Removed(ps, all, excludes)
    ensures ps[d].name in excludes
  {
    RemovedIsLeastClosed(ps, all, excludes);
    if ps[d].name !in excludes {
      KeptNeeds(ps, all, excludes, i, d);
    }
  }

  // ---------------------------------------------------------------------
  // The worklist
  // ---------------------------------------------------------------------

  function Indices(n: nat): (r: set<nat>)
    ensures forall i :: i in r <==> 0 <= i < n
  {
    if n == 0 then {} else Indices(n - 1) + {n - 1}
  }

  ghost predicate IsAll(ps: seq<Record>, all: set<nat>) {
    forall i: nat :: i in all <==> i < |ps|
  }

  /** Some package in the queue depends on `d`. */
  ghost predicate Awaited(ps: seq<Record>, all: set<nat>, queue: seq<nat>, d: nat)
    requires Within(ps, all)
  {
    exists i :: i in queue && Depends(ps, all, i, d)
  }

  /** Until the queue is empty, an orphan that is not removed yet has a dependent in the queue. */
  ghost predicate Pending(ps: seq<Record>, all: set<nat>, r: set<nat>, queue: seq<nat>)
    requires Within(ps, all)
  {
    forall d :: d in all && d !in r && Orphan(ps, all, d, r) ==> Awaited(ps, all, queue, d)
  }

  /** The dependencies of `ps[i]` from the `k`th on are still to be looked at. */
  ghost predicate PendingAt(ps: seq<Record>, all: set<nat>, r: set<nat>, queue: seq<nat>, i: nat, k: nat)
    requires Within(ps, all) && i < |ps| && k <= |ps[i].depends|
  {
    forall d :: d in all && d !in r && Orphan(ps, all, d, r) ==>
      Awaited(ps, all, queue, d) || (Depends(ps, all, i, d) && ps[d].name in ps[i].depends[k..])
  }

  ghost predicate Named(ps: seq<Record>, all: set<nat>, index: map<string, nat>)
    requires Within(ps, all)
  {
    && (forall i :: 0 <= i < |ps| ==> ps[i].name in index)
    && (forall n :: n in index ==> IsLast(ps, all, index[n]) && ps[index[n]].name == n)
  }

  ghost predicate Reversed(ps: seq<Record>, all: set<nat>, reverse: seq<set<nat>>)
    requires Within(ps, all)
  {
    |reverse| == |ps| && forall i: nat, d :: 0 <= d < |ps| ==> (i in reverse[d] <==> Depends(ps, all, i, d))
  }

  /** `name_to_idx`. */
  method IndexNames(ps: seq<Record>, ghost all: set<nat>) returns (index: map<string, nat>)
    requires IsAll(ps, all)
    ensures Named(ps, all, index)
  {
    index := map[];
    for i := 0 to |ps|
      invariant forall j :: 0 <= j < i ==> ps[j].name in index && j <= index[ps[j].name]
      invariant forall n :: n in index ==> index[n] < i && ps[index[n]].name == n
    {
      index := index[ps[i].name := i];
    }
  }

  /** `reverse_deps`. */
  method ReverseDependencies(ps: seq<Record>, ghost all: set<nat>, index: map<string, nat>) returns (reverse: seq<set<nat>>)
    requires IsAll(ps, all)
    requires Named(ps, all, index)
    ensures Reversed(ps, all, reverse)
  {
    reverse := seq(|ps|, i => {});
    for i := 0 to |ps|
      invariant |reverse| == |ps|
      invariant forall j: nat, d :: 0 <= d < |ps| ==> (j in reverse[d] <==> j < i && Depends(ps, all, j, d))
    {
      var before := reverse;
      for k := 0 to |ps[i].depends|
        invariant |reverse| == |ps|
        invariant forall j, d :: 0 <= d < |ps| && j != i ==> (j in reverse[d] <==> j in before[d])
        invariant forall d :: 0 <= d < |ps| ==>
          (i in reverse[d] <==> IsLast(ps, all, d) && ps[d].name in ps[i].depends[..k])
      {
        var name := ps[i].depends[k];
        if name in index {
          reverse := reverse[index[name] := reverse[index[name]] + {i}];
        }
      }
      assert ps[i].depends[..|ps[i].depends|] == ps[i].depends;
    }
  }

  /** Taking the last package off the queue leaves its dependencies to be looked at. */
  lemma PendingAfterPop(ps: seq<Record>, all: set<nat>, r: set<nat>, rest: seq<nat>, i: nat)
    requires IsAll(ps, all)
    requires i < |ps| && Pending(ps, all, r, rest + [i])
    ensures PendingAt(ps, all, r, rest, i, 0)
  {
    assert ps[i].depends[0..] == ps[i].depends;
    forall d | d in all && d !in r && Orphan(ps, all, d, r) && !Depends(ps, all, i, d) ensures Awaited(ps, all, rest, d) {
      var j :| j in rest + [i] && Depends(ps, all, j, d);
      assert j in rest;
    }
  }

  /** Removing one more package only makes orphans of its own dependencies. */
  lemma PendingAfterRemoval(ps: seq<Record>, all: set<nat>, r: set<nat>, queue: seq<nat>, i: nat, k: nat, d: nat)
    requires IsAll(ps, all)
    requires i < |ps| && k <= |ps[i].depends| && PendingAt(ps, all, r, queue, i, k)
    ensures PendingAt(ps, all, r + {d}, queue + [d], i, k)
  {
    var all := all;
    assert d in queue + [d];
    forall e | e in all && e !in r + {d} && Orphan(ps, all, e, r + {d}) && !Depends(ps, all, d, e)
      ensures Awaited(ps, all, queue + [d], e) || (Depends(ps, all, i, e) && ps[e].name in ps[i].depends[k..])
    {
      assert Orphan(ps, all, e, r);
      if Awaited(ps, all, queue, e) {
        var j :| j in queue && Depends(ps, all, j, e);
        assert j in queue + [d];
      }
    }
  }

  /** A dependency that is removed, or still has another dependent, needs no further look. */
  lemma PendingAfterLook(ps: seq<Record>, all: set<nat>, r: set<nat>, queue: seq<nat>, i: nat, k: nat)
    requires IsAll(ps, all)
    requires i < |ps| && k < |ps[i].depends| && PendingAt(ps, all, r, queue, i, k)
    requires forall d: nat :: IsLast(ps, all, d) && ps[d].name == ps[i].depends[k] ==>
               d in r || !Orphan(ps, all, d, r)
    ensures PendingAt(ps, all, r, queue, i, k + 1)
  {
    assert ps[i].depends[k..] == [ps[i].depends[k]] + ps[i].depends[k + 1..];
  }

  /** Look at one dependency of a removed package: it goes too if all its dependents are gone. */
  method LookAtOne(ps: seq<Record>, ghost all: set<nat>, index: map<string, nat>, reverse: seq<set<nat>>, i: nat, k: nat,
                   found: set<nat>, rest: seq<nat>)
    returns (removed: set<nat>, queue: seq<nat>)
    requires IsAll(ps, all)
    requires Named(ps, all, index) && Reversed(ps, all, reverse) && i < |ps| && k < |ps[i].depends|
    requires i in found && PendingAt(ps, all, found, rest, i, k)
    ensures PendingAt(ps, all, removed, queue, i, k + 1)
    ensures || (removed == found && queue == rest)
            || exists d :: d !in found && removed == found + {d} && queue == rest + [d] && Orphan(ps, all, d, found)
  {
    removed, queue := found, rest;
    var name := ps[i].depends[k];
    if name in index && index[name] !in removed {
      var d := index[name];
      if reverse[d] <= removed {
        assert Depends(ps, all, i, d);
        PendingAfterRemoval(ps, all, removed, queue, i, k, d);
        removed, queue := removed + {d}, queue + [d];
      } else {
        ghost var other :| other in reverse[d] && other !in removed;
        assert Depends(ps, all, other, d);
      }
    }
    PendingAfterLook(ps, all, removed, queue, i, k);
  }

  /** Look at the dependencies of the removed package `i`. */
  method LookAt(ps: seq<Record>, ghost all: set<nat>, index: map<string, nat>, reverse: seq<set<nat>>,
                ghost excludes: set<string>, ghost least: set<nat>, i: nat, found: set<nat>, rest: seq<nat>)
    returns (removed: set<nat>, queue: seq<nat>)
    requires IsAll(ps, all)
    requires Named(ps, all, index) && Reversed(ps, all, reverse) && i < |ps| && Closed(ps, all, excludes, least)
    requires i in found && found <= least && forall j :: j in rest ==> j in found
    requires PendingAt(ps, all, found, rest, i, 0)
    ensures found <= removed <= least && forall j :: j in queue ==> j in removed
    ensures Pending(ps, all, removed, queue)
    ensures removed == found ==> queue == rest
  {
    removed, queue := found, rest;
    for k := 0 to |ps[i].depends|
      invariant found <= removed <= least && forall j :: j in queue ==> j in removed
      invariant PendingAt(ps, all, removed, queue, i, k)
      invariant removed == found ==> queue == rest
    {
      ghost var before := removed;
      removed, queue := LookAtOne(ps, all, index, reverse, i, k, removed, queue);
      if removed != before {
        ghost var d :| d !in before && removed == before + {d} && Orphan(ps, all, d, before);
        OrphanIsMonotone(ps, all, d, before, least);
      }
    }
  }

  /** When nothing is pending any more, the removed packages are closed. */
  lemma NothingPending(ps: seq<Record>, all: set<nat>, excludes: set<string>, r: set<nat>)
    requires IsAll(ps, all) && Pending(ps, all, r, [])
    requires forall i :: 0 <= i < |ps| && ps[i].name in excludes ==> i in r
    ensures Closed(ps, all, excludes, r)
  {
    forall d | d in all && Orphan(ps, all, d, r) ensures d in r {
      assert !Awaited(ps, all, [], d);
    }
  }

  /** Take packages off the queue until none is left. */
  method Drain(ps: seq<Record>, ghost all: set<nat>, index: map<string, nat>, reverse: seq<set<nat>>,
               ghost excludes: set<string>, ghost least: set<nat>, found: set<nat>, initial: seq<nat>)
    returns (removed: set<nat>)
    requires IsAll(ps, all) && Named(ps, all, index) && Reversed(ps, all, reverse) && Closed(ps, all, excludes, least)
    requires found <= least <= all && (forall j :: j in initial ==> j in found) && Pending(ps, all, found, initial)
    ensures found <= removed <= least && Pending(ps, all, removed, [])
  {
    var queue;
    removed, queue := found, initial;
    while queue != []
      invariant found <= removed <= least && forall j :: j in queue ==> j in removed
      invariant Pending(ps, all, removed, queue)
      decreases least - removed, |queue|
    {
      var i, rest := queue[|queue| - 1], queue[..|queue| - 1];
      assert i in queue && queue == rest + [i];
      PendingAfterPop(ps, all, removed, rest, i);
      removed, queue := LookAt(ps, all, index, reverse, excludes, least, i, removed, rest);
    }
  }

  /** The removed packages are exactly the least closed set, so that the order of the queue does not matter. */
  method FindRemoved(ps: seq<Record>, ghost all: set<nat>, excludes: set<string>) returns (removed: set<nat>)
    requires IsAll(ps, all)
    ensures removed == Removed(ps, all, excludes)
  {
    var index := IndexNames(ps, all);
    var reverse := ReverseDependencies(ps, all, index);
    var excluded, queue := FindExcluded(ps, all, excludes);
    RemovedIsLeastClosed(ps, all, excludes);
    removed := Drain(ps, all, index, reverse, excludes, Removed(ps, all, excludes), excluded, queue);
    NothingPending(ps, all, excludes, removed);
  }

  /** The packages that are excluded by name. */
  method FindExcluded(ps: seq<Record>, ghost all: set<nat>, excludes: set<string>) returns (removed: set<nat>, queue: seq<nat>)
    requires IsAll(ps, all)
    ensures forall i :: i in removed <==> 0 <= i < |ps| && ps[i].name in excludes
    ensures forall i :: i in queue <==> i in removed
    ensures Pending(ps, all, removed, queue)
  {
    removed, queue := {}, [];
    for i := 0 to |ps|
      invariant forall j :: j in removed <==> 0 <= j < i && ps[j].name in excludes
      invariant forall j :: j in queue <==> j in removed
    {
      if ps[i].name in excludes {
        removed, queue := removed + {i}, queue + [i];
      }
    }
  }

  // ---------------------------------------------------------------------
  // The packages that are kept
  // ---------------------------------------------------------------------

  /** The positions below `n` that are not removed, in order. */
  function Positions(n: nat, removed: set<nat>): (r: seq<nat>)
    ensures forall i :: i in r <==> 0 <= i < n && i !in removed
    ensures Increasing(r)
  {
    if n == 0 then []
    else if n - 1 in removed then Positions(n - 1, removed)
    else
      var before := Positions(n - 1, removed);
      assert forall j :: 0 <= j < |before| ==> before[j] in before;
      before + [n - 1]
  }

  predicate Increasing(s: seq<nat>) {
    forall i, j :: 0 <= i < j < |s| ==> s[i] < s[j]
  }

  function Select<T>(xs: seq<T>, positions: seq<nat>): seq<T>
    requires forall j :: 0 <= j < |positions| ==> positions[j] < |xs|
  {
    seq(|positions|, j requires 0 <= j < |positions| => xs[positions[j]])
  }

  function Keep<T>(xs: seq<T>, removed: set<nat>): seq<T> {
    var positions := Positions(|xs|, removed);
    assert forall j :: 0 <= j < |positions| ==> positions[j] in positions;
    Select(xs, positions)
  }

  lemma KeepNext<T>(xs: seq<T>, i: nat, removed: set<nat>)
    requires i < |xs|
    ensures Keep(xs[..i + 1], removed) == Keep(xs[..i], removed) + if i in removed then [] else [xs[i]]
  {
    var before := Positions(i, removed);
    assert |xs[..i + 1]| == i + 1 && |xs[..i]| == i;
    assert Positions(i + 1, removed) == before + if i in removed then [] else [i];
    assert forall j :: 0 <= j < |before| ==> before[j] in before;
  }

  function Names(ps: seq<Record>): seq<string> {
    seq(|ps|, i requires 0 <= i < |ps| => ps[i].name)
  }

  datatype Failure = MissingRecord

  /** `package_record`, for every package. */
  method Records(packages: seq<Package>) returns (r: Option<seq<Record>>)
    ensures r.Some? <==> forall i :: 0 <= i < |packages| ==> packages[i].record.Some?
    ensures r.Some? ==> |r.value| == |packages| && forall i :: 0 <= i < |packages| ==> packages[i].record == Some(r.value[i])
  {
    var ps := [];
    for i := 0 to |packages|
      invariant |ps| == i && forall j :: 0 <= j < i ==> packages[j].record == Some(ps[j])
    {
      if packages[i].record.None? { return None; }
      ps := ps + [packages[i].record.value];
    }
    r := Some(ps);
  }

  /** The recorded packages. */
  function RecordsOf(packages: seq<Package>): seq<Record>
    requires forall i :: 0 <= i < |packages| ==> packages[i].record.Some?
  {
    seq(|packages|, i requires 0 <= i < |packages| => packages[i].record.value)
  }

  /** `filter_excluded`: the packages that are kept, in their order, and the names of the others, sorted. */
  method FilterExcluded(packages: seq<Package>, excludes: seq<string>)
    returns (r: Result<(seq<Package>, seq<string>), Failure>)
    ensures r.Ok? <==> forall i :: 0 <= i < |packages| ==> packages[i].record.Some?
    ensures r.Ok? ==>
      var ps := RecordsOf(packages);
      var removed := Removed(ps, Indices(|ps|), set n | n in excludes);
      && r.value.0 == Keep(packages, removed)
      && Ordering.IsSortedFrom(Keep(Names(ps), Indices(|ps|) - removed), r.value.1, Ordering.Self)
  {
    var records := Records(packages);
    if records.None? { return Err(MissingRecord); }
    var ps := records.value;
    assert ps == RecordsOf(packages);
    var removed := FindRemoved(ps, Indices(|ps|), set n | n in excludes);
    var kept, names := Divide(packages, Names(ps), removed);
    var sorted := Ordering.SortBy(names, Ordering.Self);
    r := Ok((kept, sorted));
  }

  /** What is kept, and the names of what is not. */
  method Divide<T>(xs: seq<T>, names: seq<string>, removed: set<nat>) returns (kept: seq<T>, removedNames: seq<string>)
    requires |names| == |xs|
    ensures kept == Keep(xs, removed) && removedNames == Keep(names, Indices(|xs|) - removed)
  {
    kept, removedNames := [], [];
    ghost var others := Indices(|xs|) - removed;
    for i := 0 to |xs|
      invariant kept == Keep(xs[..i], removed) && removedNames == Keep(names[..i], others)
    {
      KeepNext(xs, i, removed);
      KeepNext(names, i, others);
      if i in removed {
        removedNames := removedNames + [names[i]];
      } else {
        kept := kept + [xs[i]];
      }
    }
    assert xs[..|xs|] == xs && names[..|xs|] == names;
  }

  // ---------------------------------------------------------------------
  // Filtering twice
  // ---------------------------------------------------------------------

  /** The last package with the name of `d`. */
  lemma LastOf(ps: seq<Record>, all: set<nat>, d: nat) returns (e: nat)
    requires Within(ps, all) && d in all
    ensures IsLast(ps, all, e) && ps[e].name == ps[d].name && d <= e
    decreases |ps| - d
  {
    e := d;
    if !IsLast(ps, all, d) {
      var f :| f in all && ps[f].name == ps[d].name && f > d;
      e := LastOf(ps, all, f);
    }
  }

  /** Among the packages that are kept, a dependency means what it meant among all of them. */
  lemma KeptDependsAlike(ps: seq<Record>, all: set<nat>, excludes: set<string>, i: nat, d: nat)
    requires Within(ps, all) && i in all && d in all
    requires i !in Removed(ps, all, excludes) && d !in Removed(ps, all, excludes)
    ensures Depends(ps, all - Removed(ps, all, excludes), i, d) <==> Depends(ps, all, i, d)
  {
    var removed := Removed(ps, all, excludes);
    RemovedIsLeastClosed(ps, all, excludes);
    if Depends(ps, all - removed, i, d) {
      var e := LastOf(ps, all, d);
      if e in removed {
        assert Depends(ps, all, i, e);
        KeptLosesOnlyExcluded(ps, all, excludes, i, e);
      }
    }
  }

  /** Removing in two steps removes what one step removes. */
  lemma RemovedInSteps(ps: seq<Record>, all: set<nat>, first: set<string>, second: set<string>)
    requires Within(ps, all)
    ensures var kept := all - Removed(ps, all, first);
            Removed(ps, all, first + second) == Removed(ps, all, first) + Removed(ps, kept, second)
  {
    StepsAreEnough(ps, all, first, second);
    StepsAreNeeded(ps, all, first, second);
  }

  lemma StepsAreEnough(ps: seq<Record>, all: set<nat>, first: set<string>, second: set<string>)
    requires Within(ps, all)
    ensures Removed(ps, all, first + second) <= Removed(ps, all, first) + Removed(ps, all - Removed(ps, all, first), second)
  {
    var r1 := Removed(ps, all, first);
    var kept := all - r1;
    var r2 := Removed(ps, kept, second);
    RemovedIsLeastClosed(ps, all, first);
    RemovedIsLeastClosed(ps, kept, second);
    forall d | d in all && Orphan(ps, all, d, r1 + r2) ensures d in r1 + r2 {
      if d !in r1 {
        forall i | i in kept ensures Depends(ps, kept, i, d) <==> Depends(ps, all, i, d) {
          KeptDependsAlike(ps, all, first, i, d);
        }
        if i :| i in kept && Depends(ps, all, i, d) {
          assert Depends(ps, kept, i, d) && i in r2;
          assert Orphan(ps, kept, d, r2);
        } else {
          var i :| i in r1 + r2 && Depends(ps, all, i, d);
          assert i in r1;
          assert Orphan(ps, all, d, r1);
        }
      }
    }
    assert Closed(ps, all, first + second, r1 + r2);
    RemovedIsLeastClosed(ps, all, first + second);
  }

  lemma StepsAreNeeded(ps: seq<Record>, all: set<nat>, first: set<string>, second: set<string>)
    requires Within(ps, all)
    ensures Removed(ps, all, first) + Removed(ps, all - Removed(ps, all, first), second) <= Removed(ps, all, first + second)
  {
    var r1 := Removed(ps, all, first);
    var kept := all - r1;
    var r := Removed(ps, all, first + second);
    RemovedIsMonotone(ps, all, first, first + second);
    RemovedIsLeastClosed(ps, all, first + second);
    forall d | d in kept && Orphan(ps, kept, d, r) ensures d in r {
      forall i | i in kept ensures Depends(ps, kept, i, d) <==> Depends(ps, all, i, d) {
        KeptDependsAlike(ps, all, first, i, d);
      }
      var i :| i in r && Depends(ps, kept, i, d);
      assert Depends(ps, all, i, d);
      assert Orphan(ps, all, d, r);
    }
    assert Closed(ps, kept, second, r);
    RemovedIsLeastClosed(ps, kept, second);
  }

  // ---------------------------------------------------------------------
  // The kept packages, numbered anew
  // ---------------------------------------------------------------------

  ghost predicate Renumbers(pos: seq<nat>, all: set<nat>) {
    Increasing(pos) && forall i :: i in pos <==> i in all
  }

  lemma AlikeDepends(ps: seq<Record>, kept: set<nat>, pos: seq<nat>, qs: seq<Record>, all: set<nat>, i: nat, d: nat)
    requires Within(ps, kept) && Renumbers(pos, kept) && |qs| == |pos| && IsAll(qs, all)
    requires forall j :: 0 <= j < |pos| ==> pos[j] in pos && qs[j] == ps[pos[j]]
    requires i < |qs| && d < |qs|
    ensures Depends(qs, all, i, d) <==> Depends(ps, kept, pos[i], pos[d])
  {
    if IsLast(qs, all, d) {
      forall e | e in kept && ps[e].name == ps[pos[d]].name ensures e <= pos[d] {
        var j :| 0 <= j < |pos| && pos[j] == e;
        assert qs[j].name == qs[d].name;
      }
    }
    if IsLast(ps, kept, pos[d]) {
      forall j | j in all && qs[j].name == qs[d].name ensures j <= d {
        assert pos[j] in kept;
      }
    }
  }

  /** The same packages are removed, whether they carry their old or their new numbers. */
  lemma RemovedAlike(ps: seq<Record>, kept: set<nat>, pos: seq<nat>, qs: seq<Record>, all: set<nat>, excludes: set<string>, j: nat)
    requires Within(ps, kept) && Renumbers(pos, kept) && |qs| == |pos| && IsAll(qs, all)
    requires forall j :: 0 <= j < |pos| ==> pos[j] in pos && qs[j] == ps[pos[j]]
    requires j < |qs|
    ensures j in Removed(qs, all, excludes) <==> pos[j] in Removed(ps, kept, excludes)
  {
    RemovedIsLeastClosed(ps, kept, excludes);
    RemovedIsLeastClosed(qs, all, excludes);
    ClosedWhenRenumbered(ps, kept, pos, qs, all, excludes, Removed(ps, kept, excludes));
    ClosedBeforeRenumbering(ps, kept, pos, qs, all, excludes, Removed(qs, all, excludes));
    if pos[j] in Removed(ps, kept, excludes) {
      assert pos[j] in OldNumbers(pos, Removed(qs, all, excludes));
      var k :| k in Removed(qs, all, excludes) && k < |pos| && pos[k] == pos[j];
      assert k == j;
    }
  }

  function NewNumbers(pos: seq<nat>, r: set<nat>): set<nat> {
    set j | j in Indices(|pos|) && pos[j] in r
  }

  function OldNumbers(pos: seq<nat>, r: set<nat>): set<nat> {
    set j | j in r && j < |pos| :: pos[j]
  }

  lemma ClosedWhenRenumbered(ps: seq<Record>, kept: set<nat>, pos: seq<nat>, qs: seq<Record>, all: set<nat>,
                             excludes: set<string>, r: set<nat>)
    requires Within(ps, kept) && Renumbers(pos, kept) && |qs| == |pos| && IsAll(qs, all)
    requires forall j :: 0 <= j < |pos| ==> pos[j] in pos && qs[j] == ps[pos[j]]
    requires Closed(ps, kept, excludes, r)
    ensures Closed(qs, all, excludes, NewNumbers(pos, r))
  {
    forall d | d in all && Orphan(qs, all, d, NewNumbers(pos, r)) ensures d in NewNumbers(pos, r) {
      var i :| i in NewNumbers(pos, r) && Depends(qs, all, i, d);
      AlikeDepends(ps, kept, pos, qs, all, i, d);
      forall e | Depends(ps, kept, e, pos[d]) ensures e in r {
        var j :| 0 <= j < |pos| && pos[j] == e;
        AlikeDepends(ps, kept, pos, qs, all, j, d);
      }
      assert Orphan(ps, kept, pos[d], r);
    }
  }

  lemma ClosedBeforeRenumbering(ps: seq<Record>, kept: set<nat>, pos: seq<nat>, qs: seq<Record>, all: set<nat>,
                                excludes: set<string>, r: set<nat>)
    requires Within(ps, kept) && Renumbers(pos, kept) && |qs| == |pos| && IsAll(qs, all)
    requires forall j :: 0 <= j < |pos| ==> pos[j] in pos && qs[j] == ps[pos[j]]
    requires Closed(qs, all, excludes, r)
    ensures Closed(ps, kept, excludes, OldNumbers(pos, r))
  {
    forall e | e in kept && (ps[e].name in excludes || Orphan(ps, kept, e, OldNumbers(pos, r))) ensures e in OldNumbers(pos, r) {
      var d :| 0 <= d < |pos| && pos[d] == e;
      assert d in all;
      if qs[d].name !in excludes {
        var f :| f in OldNumbers(pos, r) && Depends(ps, kept, f, e);
        var i :| i in r && i < |pos| && pos[i] == f;
        AlikeDepends(ps, kept, pos, qs, all, i, d);
        forall j: nat | Depends(qs, all, j, d) ensures j in r {
          AlikeDepends(ps, kept, pos, qs, all, j, d);
          assert pos[j] in OldNumbers(pos, r);
          var k :| k in r && k < |pos| && pos[k] == pos[j];
          assert k == j;
        }
        assert Orphan(qs, all, d, r);
      }
      assert d in r;
    }
  }

  lemma WithoutLast(s: seq<nat>, i: nat)
    requires Increasing(s) && s != []
    ensures i in s[..|s| - 1] <==> i in s && i != s[|s| - 1]
    ensures i in s ==> i <= s[|s| - 1]
  {
  }

  /** An increasing sequence is determined by its elements. */
  lemma {:induction false} IncreasingIsUnique(s: seq<nat>, t: seq<nat>)
    requires Increasing(s) && Increasing(t) && forall i: nat :: i in s <==> i in t
    ensures s == t
  {
    assert t != [] ==> t[0] in t;
    if s != [] {
      assert s[0] in s;
      var x, y := s[|s| - 1], t[|t| - 1];
      WithoutLast(s, y);
      WithoutLast(t, x);
      assert x in s && y in t;
      var a, b := s[..|s| - 1], t[..|t| - 1];
      forall i: nat ensures i in a <==> i in b {
        WithoutLast(s, i);
        WithoutLast(t, i);
      }
      IncreasingIsUnique(a, b);
      assert s == a + [x] && t == b + [y];
    }
  }

  /** What is left of `pos` when the entries `r2` are taken out too. */
  lemma PositionsCompose(n: nat, r1: set<nat>, r2: set<nat>, r: set<nat>)
    requires var pos := Positions(n, r1);
             forall j :: 0 <= j < |pos| ==> (j in r2 <==> pos[j] in r)
    requires forall i :: i in r1 ==> i in r
    ensures Keep(Positions(n, r1), r2) == Positions(n, r)
  {
    var pos := Positions(n, r1);
    var inner := Positions(|pos|, r2);
    var both := Keep(pos, r2);
    assert forall j :: 0 <= j < |inner| ==> inner[j] in inner;
    forall i ensures i in both <==> i in Positions(n, r) {
      if i in Positions(n, r) {
        assert i in pos;
        var j :| 0 <= j < |pos| && pos[j] == i;
        assert j in inner;
        var k :| 0 <= k < |inner| && inner[k] == j;
        assert both[k] == i;
      }
      if i in both {
        var k :| 0 <= k < |both| && both[k] == i;
        assert inner[k] in inner && pos[inner[k]] in pos;
      }
    }
    IncreasingIsUnique(both, Positions(n, r));
  }

  /** A package that the first filter keeps is removed by the second one if it is removed by both lists together. */
  lemma SecondFilterAlike(ps: seq<Record>, first: set<string>, second: set<string>)
    ensures var r1 := Removed(ps, Indices(|ps|), first);
            var once, pos := Keep(ps, r1), Positions(|ps|, r1);
            |once| == |pos| && forall j :: 0 <= j < |pos| ==>
              (j in Removed(once, Indices(|once|), second) <==> pos[j] in Removed(ps, Indices(|ps|), first + second))
  {
    var all := Indices(|ps|);
    var r1 := Removed(ps, all, first);
    var once, pos := Keep(ps, r1), Positions(|ps|, r1);
    assert forall j :: 0 <= j < |pos| ==> pos[j] in pos;
    RemovedInSteps(ps, all, first, second);
    forall j | 0 <= j < |pos|
      ensures j in Removed(once, Indices(|once|), second) <==> pos[j] in Removed(ps, all, first + second)
    {
      RemovedAlike(ps, all - r1, pos, once, Indices(|once|), second, j);
    }
  }

  /** Filtering twice keeps what filtering once by both lists keeps, in the same order. Package names need not be
      distinct. */
  lemma FilteringComposes(ps: seq<Record>, first: set<string>, second: set<string>)
    ensures var once := Keep(ps, Removed(ps, Indices(|ps|), first));
            Keep(once, Removed(once, Indices(|once|), second)) == Keep(ps, Removed(ps, Indices(|ps|), first + second))
  {
    var all := Indices(|ps|);
    var r1, r := Removed(ps, all, first), Removed(ps, all, first + second);
    var once := Keep(ps, r1);
    var r2 := Removed(once, Indices(|once|), second);
    SecondFilterAlike(ps, first, second);
    RemovedIsMonotone(ps, all, first, first + second);
    PositionsCompose(|ps|, r1, r2, r);
    KeepTwice(ps, r1, r2, r);
  }

  lemma KeepTwice<T>(xs: seq<T>, r1: set<nat>, r2: set<nat>, r: set<nat>)
    requires Keep(Positions(|xs|, r1), r2) == Positions(|xs|, r)
    ensures Keep(Keep(xs, r1), r2) == Keep(xs, r)
  {
    var pos := Positions(|xs|, r1);
    var inner := Positions(|pos|, r2);
    assert forall j :: 0 <= j < |inner| ==> inner[j] in inner;
    assert forall j :: 0 <= j < |pos| ==> pos[j] in pos;
  }
}
