/** Sorting by names, as `sort`, `sort_by` and `dedup` do it on the lists of `src/bin/cs`. */
module Ordering {
  /** `a` does not come after `b`. */
  predicate Leq(a: string, b: string) {
    a == "" || (b != "" && (a[0] < b[0] || (a[0] == b[0] && Leq(a[1..], b[1..]))))
  }

  /** Names are compared at the first place where they differ; a name comes after its prefixes. */
  lemma {:induction false} LeqIff(a: string, b: string)
    ensures Leq(a, b) <==> a <= b || exists k :: 0 <= k < |a| && k < |b| && a[..k] == b[..k] && a[k] < b[k]
  {
    if a != "" && b != "" {
      if a[0] == b[0] {
        LeqIff(a[1..], b[1..]);
        PrefixIff(a, b);
        if k :| 0 <= k < |a[1..]| && k < |b[1..]| && a[1..][..k] == b[1..][..k] && a[1..][k] < b[1..][k] {
          assert a[..k + 1] == [a[0]] + a[1..][..k] && b[..k + 1] == [b[0]] + b[1..][..k];
          assert a[k + 1] < b[k + 1];
        }
        if k :| 0 <= k < |a| && k < |b| && a[..k] == b[..k] && a[k] < b[k] {
          assert a[1..][..k - 1] == a[..k][1..] == b[..k][1..] == b[1..][..k - 1];
          assert a[1..][k - 1] < b[1..][k - 1];
        }
      } else {
        assert a[..0] == b[..0];
        if k :| 0 <= k < |a| && k < |b| && a[..k] == b[..k] && a[k] < b[k] {
          assert k > 0 ==> a[..k][0] == b[..k][0];
        }
      }
    }
  }

  lemma PrefixIff(a: string, b: string)
    requires a != "" && b != "" && a[0] == b[0]
    ensures a <= b <==> a[1..] <= b[1..]
  {
    assert a == [a[0]] + a[1..] && b == [b[0]] + b[1..];
  }

  lemma {:induction false} LeqTotal(a: string, b: string)
    ensures Leq(a, b) || Leq(b, a)
  {
    if a != "" && b != "" && a[0] == b[0] {
      LeqTotal(a[1..], b[1..]);
    }
  }

  lemma {:induction false} LeqAntisymmetric(a: string, b: string)
    requires Leq(a, b) && Leq(b, a)
    ensures a == b
  {
    if a != "" && b != "" {
      LeqAntisymmetric(a[1..], b[1..]);
      assert a == [a[0]] + a[1..] && b == [b[0]] + b[1..];
    }
  }

  lemma {:induction false} LeqTransitive(a: string, b: string, c: string)
    requires Leq(a, b) && Leq(b, c)
    ensures Leq(a, c)
  {
    if a != "" && a[0] == b[0] == c[0] {
      LeqTransitive(a[1..], b[1..], c[1..]);
    }
  }

  predicate IsSorted<T>(s: seq<T>, key: T -> string) {
    forall i, j {:trigger s[i], s[j]} :: 0 <= i < j < |s| ==> Leq(key(s[i]), key(s[j]))
  }

  predicate IsLeast<T>(x: T, s: seq<T>, key: T -> string) {
    forall i :: 0 <= i < |s| ==> Leq(key(x), key(s[i]))
  }

  function Insert<T>(x: T, s: seq<T>, key: T -> string): (r: seq<T>)
    ensures multiset(r) == multiset(s) + multiset{x}
  {
    if s == [] then [x]
    else if Leq(key(x), key(s[0])) then [x] + s
    else
      assert s == [s[0]] + s[1..];
      [s[0]] + Insert(x, s[1..], key)
  }

  function Sort<T>(s: seq<T>, key: T -> string): (r: seq<T>)
    ensures multiset(r) == multiset(s)
  {
    if s == [] then []
    else
      assert s == [s[0]] + s[1..];
      Insert(s[0], Sort(s[1..], key), key)
  }

  lemma SortedTail<T>(s: seq<T>, key: T -> string)
    requires IsSorted(s, key) && s != []
    ensures IsSorted(s[1..], key) && IsLeast(s[0], s[1..], key)
  {
  }

  lemma SortedCons<T>(x: T, s: seq<T>, key: T -> string)
    requires IsSorted(s, key) && IsLeast(x, s, key)
    ensures IsSorted([x] + s, key)
  {
  }

  lemma LeastOfSorted<T>(x: T, s: seq<T>, key: T -> string)
    requires IsSorted(s, key) && s != [] && Leq(key(x), key(s[0]))
    ensures IsLeast(x, s, key)
  {
    forall i | 0 <= i < |s| ensures Leq(key(x), key(s[i])) {
      if i > 0 {
        LeqTransitive(key(x), key(s[0]), key(s[i]));
      }
    }
  }

  /** What is least depends on the elements only. */
  lemma LeastOfSame<T>(x: T, a: seq<T>, b: seq<T>, key: T -> string)
    requires IsLeast(x, a, key) && multiset(a) == multiset(b)
    ensures IsLeast(x, b, key)
  {
    forall i | 0 <= i < |b| ensures Leq(key(x), key(b[i])) {
      assert b[i] in multiset(b);
      assert b[i] in a;
    }
  }

  lemma {:induction false} InsertKeepsSorted<T>(x: T, s: seq<T>, key: T -> string)
    requires IsSorted(s, key)
    ensures IsSorted(Insert(x, s, key), key)
  {
    if s != [] {
      if Leq(key(x), key(s[0])) {
        LeastOfSorted(x, s, key);
        SortedCons(x, s, key);
      } else {
        LeqTotal(key(x), key(s[0]));
        SortedTail(s, key);
        InsertKeepsSorted(x, s[1..], key);
        LeastOfSame(s[0], s[1..] + [x], Insert(x, s[1..], key), key);
        SortedCons(s[0], Insert(x, s[1..], key), key);
      }
    }
  }

  lemma {:induction false} SortSorts<T>(s: seq<T>, key: T -> string)
    ensures IsSorted(Sort(s, key), key)
  {
    if s != [] {
      SortSorts(s[1..], key);
      InsertKeepsSorted(s[0], Sort(s[1..], key), key);
    }
  }

  /** A sorted list is determined by its elements, if no two of them have the same key. */
  lemma {:induction false} SortedIsUnique<T>(a: seq<T>, b: seq<T>, key: T -> string)
    requires IsSorted(a, key) && IsSorted(b, key) && multiset(a) == multiset(b)
    requires forall x, y :: x in a && y in a && key(x) == key(y) ==> x == y
    ensures a == b
  {
    if a != [] {
      assert |multiset(a)| == |multiset(b)|;
      FirstsAgree(a, b, key);
      TailLoses(a);
      TailLoses(b);
      SortedTail(a, key);
      SortedTail(b, key);
      SortedIsUnique(a[1..], b[1..], key);
    } else {
      assert |multiset(b)| == 0;
    }
  }

  lemma TailLoses<T>(s: seq<T>)
    requires s != []
    ensures multiset(s[1..]) == multiset(s) - multiset{s[0]}
  {
    assert s == [s[0]] + s[1..];
  }

  lemma FirstIsLeast<T>(s: seq<T>, key: T -> string)
    requires IsSorted(s, key) && s != []
    ensures IsLeast(s[0], s, key)
  {
    LeqTotal(key(s[0]), key(s[0]));
  }

  lemma FirstsAgree<T>(a: seq<T>, b: seq<T>, key: T -> string)
    requires IsSorted(a, key) && IsSorted(b, key) && multiset(a) == multiset(b) && a != [] && b != []
    requires forall x, y :: x in a && y in a && key(x) == key(y) ==> x == y
    ensures a[0] == b[0]
  {
    FirstIsLeast(a, key);
    FirstIsLeast(b, key);
    LeastOfSame(a[0], a, b, key);
    LeastOfSame(b[0], b, a, key);
    LeqAntisymmetric(key(a[0]), key(b[0]));
    assert b[0] in multiset(b);
  }

  /** The order of the input does not matter. */
  lemma SortIsDetermined<T>(a: seq<T>, b: seq<T>, key: T -> string)
    requires multiset(a) == multiset(b) && forall x, y :: x in a && y in a && key(x) == key(y) ==> x == y
    ensures Sort(a, key) == Sort(b, key)
  {
    SortSorts(a, key);
    SortSorts(b, key);
    forall x | x in Sort(a, key) ensures x in a {
      assert x in multiset(Sort(a, key));
    }
    SortedIsUnique(Sort(a, key), Sort(b, key), key);
  }

  /** `b` is `a` in order. */
  ghost predicate IsSortedFrom<T>(a: seq<T>, b: seq<T>, key: T -> string) {
    IsSorted(b, key) && multiset(a) == multiset(b)
  }

  /** `sort_by`, by a key. */
  method SortBy<T>(s: seq<T>, key: T -> string) returns (r: seq<T>)
    ensures IsSortedFrom(s, r, key)
  {
    SortSorts(s, key);
    r := Sort(s, key);
  }

  // ---------------------------------------------------------------------
  // Lists of names
  // ---------------------------------------------------------------------

  function Self(name: string): string {
    name
  }

  predicate Distinct(names: seq<string>) {
    forall i, j :: 0 <= i < j < |names| ==> names[i] != names[j]
  }

  predicate SameNames(a: seq<string>, b: seq<string>) {
    (forall x :: x in a ==> x in b) && (forall x :: x in b ==> x in a)
  }

  /** `dedup`: of equal neighbours the first is kept. */
  function Dedup(names: seq<string>): (r: seq<string>) {
    if |names| <= 1 then names
    else if names[0] == names[1] then Dedup(names[1..])
    else [names[0]] + Dedup(names[1..])
  }

  lemma {:induction false} DedupKeepsNames(names: seq<string>)
    ensures SameNames(Dedup(names), names) && (names != [] ==> Dedup(names) != [] && Dedup(names)[0] == names[0])
  {
    if |names| > 1 {
      DedupKeepsNames(names[1..]);
      assert names == [names[0]] + names[1..];
    }
  }

  /** In a sorted list it leaves every name once. */
  lemma {:induction false} DedupSorted(names: seq<string>)
    requires IsSorted(names, Self)
    ensures IsSorted(Dedup(names), Self) && Distinct(Dedup(names))
  {
    if |names| > 1 {
      SortedTail(names, Self);
      DedupSorted(names[1..]);
      DedupKeepsNames(names[1..]);
      if names[0] != names[1] {
        FirstIsNew(names);
        SortedCons(names[0], Dedup(names[1..]), Self);
      }
    }
  }

  /** What is smaller than its neighbour does not occur again. */
  lemma FirstIsNew(names: seq<string>)
    requires IsSorted(names, Self) && |names| > 1 && names[0] != names[1]
    ensures names[0] !in Dedup(names[1..]) && IsLeast(names[0], Dedup(names[1..]), Self)
  {
    DedupKeepsNames(names[1..]);
    var rest := Dedup(names[1..]);
    forall i | 0 <= i < |rest| ensures Leq(names[0], rest[i]) && rest[i] != names[0] {
      assert rest[i] in names[1..];
      var j :| 0 <= j < |names[1..]| && names[1..][j] == rest[i];
      assert names[j + 1] == rest[i];
      if rest[i] == names[0] {
        LeqTotal(names[1], names[1]);
        assert Leq(names[0], names[1]) && (j > 0 ==> Leq(names[1], names[j + 1]));
        LeqAntisymmetric(names[0], names[1]);
      }
    }
  }

  lemma SortedFromSameNames(a: seq<string>, b: seq<string>)
    requires IsSortedFrom(a, b, Self)
    ensures SameNames(a, b)
  {
    forall x ensures x in a <==> x in b {
      assert x in multiset(a) <==> x in multiset(b);
    }
  }

  lemma {:induction false} DistinctIsSet(a: seq<string>)
    requires Distinct(a)
    ensures multiset(a) == multiset(set x | x in a)
  {
    if a != [] {
      var rest := a[1..];
      DistinctIsSet(rest);
      assert a == [a[0]] + rest;
      assert (set x | x in a) == {a[0]} + set x | x in rest;
      assert a[0] !in rest;
    } else {
      assert (set x | x in a) == {};
    }
  }

  /** A sorted list without repetition is determined by its names. */
  lemma SortedNamesAreUnique(a: seq<string>, b: seq<string>)
    requires IsSorted(a, Self) && IsSorted(b, Self) && Distinct(a) && Distinct(b) && SameNames(a, b)
    ensures a == b
  {
    DistinctIsSet(a);
    DistinctIsSet(b);
    assert (set x | x in a) == set x | x in b;
    SortedIsUnique(a, b, Self);
  }

  /** `sort` and `dedup` of a list of names. */
  method SortNames(names: seq<string>) returns (r: seq<string>)
    ensures IsSorted(r, Self) && Distinct(r) && SameNames(r, names)
  {
    var sorted := SortBy(names, Self);
    SortedFromSameNames(names, sorted);
    DedupSorted(sorted);
    DedupKeepsNames(sorted);
    r := Dedup(sorted);
  }
}
