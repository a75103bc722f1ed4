/** The total preorders the scheduler sorts by, and the stable sort it calls. */
module Ordering {
  import Wrappers

  ghost predicate TotalPreorder<T(!new)>(le: (T, T) -> bool) {
    && (forall a, b :: le(a, b) || le(b, a))
    && (forall a, b, c :: le(a, b) && le(b, c) ==> le(a, c))
  }

  ghost predicate SortedBy<T(!new)>(s: seq<T>, le: (T, T) -> bool) {
    forall i, j :: 0 <= i < j < |s| ==> le(s[i], s[j])
  }

  ghost predicate Distinct<T(!new)>(s: seq<T>) {
    forall i, j :: 0 <= i < j < |s| ==> s[i] != s[j]
  }

  lemma DistinctSnoc<T(!new)>(s: seq<T>, x: T)
    requires Distinct(s) && x !in s
    ensures Distinct(s + [x])
  {
  }

  lemma DistinctConcat<T(!new)>(s: seq<T>, t: seq<T>)
    requires Distinct(s) && Distinct(t) && forall x :: x in s ==> x !in t
    ensures Distinct(s + t)
  {
    forall i, j | 0 <= i < j < |s + t| ensures (s + t)[i] != (s + t)[j] {
      if i < |s| <= j { assert s[i] in s && t[j - |s|] in t; }
    }
  }

  function Elements<T(!new)>(s: seq<T>): set<T> {
    set x | x in s
  }

  lemma {:induction false} DistinctCount<T(!new)>(s: seq<T>)
    requires Distinct(s)
    ensures |Elements(s)| == |s|
  {
    if s == [] {
    } else {
      DistinctCount(s[1..]);
      assert s[0] !in s[1..];
      assert Elements(s) == {s[0]} + Elements(s[1..]);
    }
  }

  lemma TakeNext<T>(s: seq<T>, k: nat)
    requires k < |s|
    ensures s[..k + 1] == s[..k] + [s[k]]
  {
  }

  // ----- the elements that pass a test

  /** The elements that pass, in their order. */
  function Passing<T>(s: seq<T>, pass: T -> bool): (r: seq<T>)
    ensures |r| <= |s| && forall k :: 0 <= k < |r| ==> pass(r[k])
  {
    if s == [] then []
    else
      var n := |s| - 1;
      Passing(s[..n], pass) + (if pass(s[n]) then [s[n]] else [])
  }

  /** Element m of those that pass stands at place at[m]. */
  ghost predicate PlacedAt<T(!new)>(s: seq<T>, pass: T -> bool, at: seq<nat>, m: nat)
    requires m < |at| == |Passing(s, pass)|
  {
    at[m] < |s| && Passing(s, pass)[m] == s[at[m]] && pass(s[at[m]])
  }

  ghost predicate Places<T(!new)>(s: seq<T>, pass: T -> bool, at: seq<nat>) {
    && |at| == |Passing(s, pass)|
    && (forall m {:trigger PlacedAt(s, pass, at, m)} :: 0 <= m < |at| ==> PlacedAt(s, pass, at, m))
    && forall m, n :: 0 <= m < n < |at| ==> at[m] < at[n]
  }

  ghost predicate PlacesAll<T(!new)>(s: seq<T>, pass: T -> bool, at: seq<nat>) {
    forall k: nat :: k < |s| && pass(s[k]) ==> k in at
  }

  lemma PlacesNext<T(!new)>(s: seq<T>, x: T, pass: T -> bool, at: seq<nat>)
    requires Places(s, pass, at) && PlacesAll(s, pass, at)
    ensures var more := if pass(x) then at + [|s|] else at;
            Places(s + [x], pass, more) && PlacesAll(s + [x], pass, more)
  {
    var all, more := s + [x], if pass(x) then at + [|s|] else at;
    assert all[..|s|] == s && all[|s|] == x;
    forall m | 0 <= m < |more| ensures PlacedAt(all, pass, more, m) {
      if m < |at| { assert PlacedAt(s, pass, at, m); }
    }
    forall m, n | 0 <= m < n < |more| ensures more[m] < more[n] {
      assert PlacedAt(s, pass, at, m);
    }
    forall k: nat | k < |all| && pass(all[k]) ensures k in more {
      if k < |s| { assert all[k] == s[k] && k in at; }
    }
  }

  lemma {:induction false} PassingExact<T(!new)>(s: seq<T>, pass: T -> bool) returns (at: seq<nat>)
    ensures Places(s, pass, at) && PlacesAll(s, pass, at)
  {
    if s == [] {
      at := [];
    } else {
      var front, last := s[..|s| - 1], s[|s| - 1];
      at := PassingExact(front, pass);
      PlacesNext(front, last, pass, at);
      assert s == front + [last];
      at := if pass(last) then at + [|front|] else at;
    }
  }

  lemma {:induction false} AllPass<T(!new)>(s: seq<T>, pass: T -> bool)
    requires forall k :: 0 <= k < |s| ==> pass(s[k])
    ensures Passing(s, pass) == s
  {
    if s == [] {
    } else {
      AllPass(s[..|s| - 1], pass);
      assert s == s[..|s| - 1] + [s[|s| - 1]];
    }
  }

  lemma {:induction false} PassAlike<T(!new)>(s: seq<T>, f: T -> bool, g: T -> bool)
    requires forall k :: 0 <= k < |s| ==> f(s[k]) == g(s[k])
    ensures Passing(s, f) == Passing(s, g)
  {
    if s == [] {
    } else {
      PassAlike(s[..|s| - 1], f, g);
    }
  }

  function Without<T>(s: seq<T>, k: nat): (r: seq<T>)
    requires k < |s|
    ensures |r| == |s| - 1
    ensures forall m :: 0 <= m < |r| ==> r[m] == s[if m < k then m else m + 1]
  {
    s[..k] + s[k + 1..]
  }

  lemma {:induction false} AllButOnePass<T(!new)>(s: seq<T>, pass: T -> bool, k: nat)
    requires k < |s| && forall n :: 0 <= n < |s| ==> (pass(s[n]) <==> n != k)
    ensures Passing(s, pass) == Without(s, k)
  {
    var last := |s| - 1;
    if k == last {
      AllPass(s[..last], pass);
    } else {
      AllButOnePass(s[..last], pass, k);
      assert Without(s, k) == Without(s[..last], k) + [s[last]];
    }
  }

  // ----- what a test picks, position by position

  /** r holds what pick gives at the places at, and at holds every place below n where it gives something. */
  ghost predicate PicksAt<T(!new)>(n: nat, pick: nat -> Wrappers.Option<T>, r: seq<T>, at: seq<nat>) {
    && |at| == |r| && (forall m, k :: 0 <= m < k < |at| ==> at[m] < at[k])
    && (forall m :: 0 <= m < |at| ==> at[m] < n && pick(at[m]) == Wrappers.Some(r[m]))
    && forall k: nat :: k < n && pick(k).Some? ==> k in at
  }

  /** r is what pick gives at the places below n where it gives something, in order. */
  ghost predicate Picks<T(!new)>(n: nat, pick: nat -> Wrappers.Option<T>, r: seq<T>) {
    exists at :: PicksAt(n, pick, r, at)
  }

  lemma PicksNothing<T(!new)>(pick: nat -> Wrappers.Option<T>)
    ensures Picks(0, pick, [])
  {
    var at: seq<nat> := [];
    assert PicksAt(0, pick, [], at);
  }

  /** One more place; the picks below it may be given by another test that agrees there. */
  lemma PicksNext<T(!new)>(n: nat, before: nat -> Wrappers.Option<T>, pick: nat -> Wrappers.Option<T>, r: seq<T>)
    requires Picks(n, before, r) && forall k: nat :: k < n ==> before(k) == pick(k)
    ensures Picks(n + 1, pick, r + (if pick(n).Some? then [pick(n).value] else []))
  {
    var at :| PicksAt(n, before, r, at);
    if pick(n).Some? {
      PicksMore(n, before, pick, r, at);
    } else {
      assert r + [] == r;
      assert PicksAt(n + 1, pick, r, at);
    }
  }

  lemma PicksMore<T(!new)>(n: nat, before: nat -> Wrappers.Option<T>, pick: nat -> Wrappers.Option<T>, r: seq<T>,
                           at: seq<nat>)
    requires PicksAt(n, before, r, at) && pick(n).Some? && forall k: nat :: k < n ==> before(k) == pick(k)
    ensures Picks(n + 1, pick, r + [pick(n).value])
  {
    var r', at' := r + [pick(n).value], at + [n];
    forall k: nat | k < n + 1 && pick(k).Some? ensures k in at' {
      if k < n { assert k in at; } else { assert at'[|at|] == n; }
    }
    forall m | 0 <= m < |at'| ensures at'[m] < n + 1 && pick(at'[m]) == Wrappers.Some(r'[m]) {
      if m < |at| { assert at'[m] == at[m] && r'[m] == r[m]; }
    }
    forall m, k | 0 <= m < k < |at'| ensures at'[m] < at'[k] {
      assert at'[m] == at[m] < n;
    }
    assert PicksAt(n + 1, pick, r', at');
  }

  /** Something is picked when some place gives something. */
  lemma PicksSome<T(!new)>(n: nat, pick: nat -> Wrappers.Option<T>, r: seq<T>)
    requires Picks(n, pick, r)
    ensures r != [] <==> exists k: nat :: k < n && pick(k).Some?
  {
    var at :| PicksAt(n, pick, r, at);
    if r != [] { assert at[0] < n && pick(at[0]).Some?; }
  }

  // ----- sorting

  /** Places x before the first element it does not exceed, so equal keys keep their order. */
  function Insert<T(!new)>(x: T, s: seq<T>, le: (T, T) -> bool): (r: seq<T>)
    ensures |r| == |s| + 1
    ensures forall y :: y in r <==> y == x || y in s
    ensures Distinct(s) && x !in s ==> Distinct(r)
  {
    if s == [] || le(x, s[0]) then [x] + s
    else
      var t := Insert(x, s[1..], le);
      assert s == [s[0]] + s[1..];
      assert Distinct(s) ==> s[0] !in s[1..] && Distinct(s[1..]);
      assert Distinct(s) && x !in s ==> s[0] !in t;
      [s[0]] + t
  }

  function Sort<T(!new)>(s: seq<T>, le: (T, T) -> bool): (r: seq<T>)
    ensures |r| == |s|
    ensures forall y :: y in r <==> y in s
    ensures Distinct(s) ==> Distinct(r)
  {
    if s == [] then []
    else
      assert s == [s[0]] + s[1..];
      Insert(s[0], Sort(s[1..], le), le)
  }

  lemma {:induction false} InsertSorted<T(!new)>(x: T, s: seq<T>, le: (T, T) -> bool)
    requires TotalPreorder(le) && SortedBy(s, le)
    ensures SortedBy(Insert(x, s, le), le)
  {
    if s == [] || le(x, s[0]) {
    } else {
      InsertSorted(x, s[1..], le);
      var t := Insert(x, s[1..], le);
      forall j | 0 <= j < |t| ensures le(s[0], t[j]) {
        assert t[j] in t;
        assert t[j] == x || t[j] in s[1..];
      }
    }
  }

  lemma {:induction false} SortSorts<T(!new)>(s: seq<T>, le: (T, T) -> bool)
    requires TotalPreorder(le)
    ensures SortedBy(Sort(s, le), le)
  {
    if s == [] {
    } else {
      SortSorts(s[1..], le);
      InsertSorted(s[0], Sort(s[1..], le), le);
    }
  }

  lemma {:induction false} InsertKeeps<T(!new)>(x: T, s: seq<T>, le: (T, T) -> bool)
    ensures multiset(Insert(x, s, le)) == multiset(s) + multiset{x}
  {
    if s == [] || le(x, s[0]) {
    } else {
      InsertKeeps(x, s[1..], le);
      assert s == [s[0]] + s[1..];
    }
  }

  /** Sorting loses and repeats nothing. */
  lemma {:induction false} SortKeeps<T(!new)>(s: seq<T>, le: (T, T) -> bool)
    ensures multiset(Sort(s, le)) == multiset(s)
  {
    if s == [] {
    } else {
      SortKeeps(s[1..], le);
      InsertKeeps(s[0], Sort(s[1..], le), le);
      assert s == [s[0]] + s[1..];
    }
  }

  /** Code-point order on strings, the order `sorted` uses on repository names. */
  predicate StrLe(a: string, b: string) {
    a == [] || (b != [] && (a[0] < b[0] || (a[0] == b[0] && StrLe(a[1..], b[1..]))))
  }

  /** a is smaller at place k, the first where the two differ. */
  ghost predicate DiffersAt(a: string, b: string, k: nat) {
    k < |a| && k < |b| && a[..k] == b[..k] && a[k] < b[k]
  }

  /** Code-point order: a starts b, or is smaller at the first place where they differ. */
  lemma {:induction false} StrLeExact(a: string, b: string)
    ensures StrLe(a, b) <==> a <= b || exists k: nat :: DiffersAt(a, b, k)
  {
    if a == [] || b == [] {
    } else if a[0] != b[0] {
      if a[0] < b[0] { assert DiffersAt(a, b, 0); }
    } else {
      StrLeExact(a[1..], b[1..]);
      assert a == [a[0]] + a[1..] && b == [b[0]] + b[1..];
      if k: nat :| DiffersAt(a, b, k) {
        assert a[1..][..k - 1] == a[..k][1..] && b[1..][..k - 1] == b[..k][1..];
        assert DiffersAt(a[1..], b[1..], k - 1);
      }
      if k: nat :| DiffersAt(a[1..], b[1..], k) {
        assert a[..k + 1] == [a[0]] + a[1..][..k] && b[..k + 1] == [b[0]] + b[1..][..k];
        assert DiffersAt(a, b, k + 1);
      }
    }
  }

  lemma {:induction false} StrLeTotal(a: string, b: string)
    ensures StrLe(a, b) || StrLe(b, a)
    ensures StrLe(a, b) && StrLe(b, a) ==> a == b
  {
    if a == [] || b == [] || a[0] != b[0] {
    } else {
      StrLeTotal(a[1..], b[1..]);
      assert a == [a[0]] + a[1..] && b == [b[0]] + b[1..];
    }
  }

  lemma {:induction false} StrLeTransitive(a: string, b: string, c: string)
    requires StrLe(a, b) && StrLe(b, c)
    ensures StrLe(a, c)
  {
    if a == [] || a[0] != b[0] || b[0] != c[0] {
    } else {
      StrLeTransitive(a[1..], b[1..], c[1..]);
    }
  }

  lemma StrLeIsTotalPreorder()
    ensures TotalPreorder(StrLe)
  {
    forall a, b ensures StrLe(a, b) || StrLe(b, a) { StrLeTotal(a, b); }
    forall a, b, c | StrLe(a, b) && StrLe(b, c) ensures StrLe(a, c) { StrLeTransitive(a, b, c); }
  }
}
