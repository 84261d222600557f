/** The two list shapes the scripts use again and again: a filtering list comprehension and a
    `for`/`break` search for the first element that satisfies a test. */
module Seqs {
  import opened Wrappers

  /** `[x for x in s if p(x)]`. */
  function Filter<T>(s: seq<T>, p: T -> bool): seq<T>
  {
    if s == [] then [] else (if p(s[0]) then [s[0]] else []) + Filter(s[1..], p)
  }

  /** What survives a filter satisfies the test and comes from the input. */
  lemma {:induction false} FilterSpec<T>(s: seq<T>, p: T -> bool)
    ensures var r := Filter(s, p);
      |r| <= |s| && forall i :: 0 <= i < |r| ==> r[i] in s && p(r[i])
  {
    if s != [] {
      FilterSpec(s[1..], p);
    }
  }

  /** Nothing that satisfies the test is lost. */
  lemma {:induction false} FilterKeeps<T>(s: seq<T>, p: T -> bool, i: nat)
    requires i < |s| && p(s[i])
    ensures s[i] in Filter(s, p)
  {
    if i > 0 {
      FilterKeeps(s[1..], p, i - 1);
    }
  }

  /** Filtering distributes over concatenation: the kept elements stay in their original order. */
  lemma {:induction false} FilterAppend<T>(a: seq<T>, b: seq<T>, p: T -> bool)
    ensures Filter(a + b, p) == Filter(a, p) + Filter(b, p)
  {
    if a == [] {
      assert a + b == b;
    } else {
      var head := if p(a[0]) then [a[0]] else [];
      assert (a + b)[0] == a[0];
      assert (a + b)[1..] == a[1..] + b;
      FilterAppend(a[1..], b, p);
      assert Filter(a + b, p) == head + Filter(a[1..] + b, p);
      assert Filter(a, p) == head + Filter(a[1..], p);
    }
  }

  /** The index of the first element satisfying `p`, or `None` when there is none. */
  function FirstIndex<T>(s: seq<T>, p: T -> bool): Option<nat>
  {
    if s == [] then None
    else if p(s[0]) then Some(0)
    else match FirstIndex(s[1..], p)
      case None => None
      case Some(i) => Some(i + 1)
  }

  /** `FirstIndex` finds the first element that satisfies `p`, and reports `None` only when none does. */
  lemma {:induction false} FirstIndexSpec<T>(s: seq<T>, p: T -> bool)
    ensures var r := FirstIndex(s, p);
      (r.Some? ==> r.value < |s| && p(s[r.value]) && forall j :: 0 <= j < r.value ==> !p(s[j])) &&
      (r.None? ==> forall j :: 0 <= j < |s| ==> !p(s[j]))
  {
    if s != [] && !p(s[0]) {
      FirstIndexSpec(s[1..], p);
    }
  }
}
