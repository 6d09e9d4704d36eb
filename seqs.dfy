/** Sequence primitives the octree is built on: Python's `sum` over numbers,
    `sum(list_of_lists, [])` (concatenation) and `filter` (selection). */
module Seqs {

  /** Sum of a sequence of naturals (Python's `sum`). */
  function Sum(xs: seq<nat>): (r: nat)
  {
    if xs == [] then 0 else xs[0] + Sum(xs[1..])
  }

  /** Concatenation of a sequence of sequences (Python's `sum(lists, [])`). */
  function Concat<T>(ss: seq<seq<T>>): (r: seq<T>)
  {
    if ss == [] then [] else ss[0] + Concat(ss[1..])
  }

  /** The subsequence of `s` that `keep` accepts, in order (Python's `filter`). */
  function Select<T>(s: seq<T>, keep: T -> bool): (r: seq<T>)
    ensures |r| <= |s|
    ensures forall i :: 0 <= i < |r| ==> r[i] in s && keep(r[i])
    ensures forall i :: 0 <= i < |s| && keep(s[i]) ==> s[i] in r
  {
    if s == [] then [] else (if keep(s[0]) then [s[0]] else []) + Select(s[1..], keep)
  }

  lemma {:induction false} SumAppend(a: seq<nat>, b: seq<nat>)
    ensures Sum(a + b) == Sum(a) + Sum(b)
  {
    if a == [] {
      assert a + b == b;
    } else {
      assert (a + b)[1..] == a[1..] + b;
      SumAppend(a[1..], b);
    }
  }

  /** A sum of naturals is zero exactly when every term is. */
  lemma {:induction false} SumZero(xs: seq<nat>)
    ensures Sum(xs) == 0 <==> forall i :: 0 <= i < |xs| ==> xs[i] == 0
  {
    if xs != [] {
      SumZero(xs[1..]);
      assert forall i :: 1 <= i < |xs| ==> xs[i] == xs[1..][i - 1];
    }
  }

  /** Sums are monotone in their terms. */
  lemma {:induction false} SumMono(xs: seq<nat>, ys: seq<nat>)
    requires |xs| == |ys|
    requires forall i :: 0 <= i < |xs| ==> xs[i] <= ys[i]
    ensures Sum(xs) <= Sum(ys)
  {
    if xs != [] {
      SumMono(xs[1..], ys[1..]);
    }
  }

  /** The sum of pointwise sums is the sum of the two sums. */
  lemma {:induction false} SumAdd(xs: seq<nat>, ys: seq<nat>, zs: seq<nat>)
    requires |xs| == |ys| == |zs|
    requires forall i :: 0 <= i < |zs| ==> zs[i] == xs[i] + ys[i]
    ensures Sum(zs) == Sum(xs) + Sum(ys)
  {
    if zs != [] {
      SumAdd(xs[1..], ys[1..], zs[1..]);
    }
  }

  /** A sum whose terms are all zero but the one at `k` equals that term. */
  lemma {:induction false} SumSingle(xs: seq<nat>, k: nat)
    requires k < |xs|
    requires forall i :: 0 <= i < |xs| && i != k ==> xs[i] == 0
    ensures Sum(xs) == xs[k]
  {
    if k == 0 {
      SumZero(xs[1..]);
    } else {
      SumSingle(xs[1..], k - 1);
    }
  }

  lemma {:induction false} ConcatAppend<T>(a: seq<seq<T>>, b: seq<seq<T>>)
    ensures Concat(a + b) == Concat(a) + Concat(b)
  {
    if a == [] {
      assert a + b == b;
    } else {
      assert (a + b)[1..] == a[1..] + b;
      ConcatAppend(a[1..], b);
    }
  }

  /** The length of a concatenation is the sum of the lengths. */
  lemma {:induction false} ConcatLength<T>(ss: seq<seq<T>>)
    ensures |Concat(ss)| == Sum(seq(|ss|, i requires 0 <= i < |ss| => |ss[i]|))
  {
    if ss != [] {
      ConcatLength(ss[1..]);
      assert seq(|ss|, i requires 0 <= i < |ss| => |ss[i]|)[1..]
          == seq(|ss[1..]|, i requires 0 <= i < |ss[1..]| => |ss[1..][i]|);
    }
  }

  /** Occurrences of `x` in a concatenation are the sum of its occurrences in the parts. */
  lemma {:induction false} ConcatCount<T>(ss: seq<seq<T>>, x: T)
    ensures multiset(Concat(ss))[x] == Sum(seq(|ss|, i requires 0 <= i < |ss| => multiset(ss[i])[x]))
  {
    if ss != [] {
      ConcatCount(ss[1..], x);
      assert seq(|ss|, i requires 0 <= i < |ss| => multiset(ss[i])[x])[1..]
          == seq(|ss[1..]|, i requires 0 <= i < |ss[1..]| => multiset(ss[1..][i])[x]);
    }
  }

  /** Selection commutes with concatenation of two sequences. */
  lemma {:induction false} SelectAppend<T>(a: seq<T>, b: seq<T>, keep: T -> bool)
    ensures Select(a + b, keep) == Select(a, keep) + Select(b, keep)
  {
    if a == [] {
      assert a + b == b;
    } else {
      assert (a + b)[1..] == a[1..] + b;
      SelectAppend(a[1..], b, keep);
    }
  }

  /** Selection commutes with concatenation of many sequences. */
  lemma {:induction false} SelectConcat<T>(ss: seq<seq<T>>, keep: T -> bool)
    ensures Select(Concat(ss), keep)
         == Concat(seq(|ss|, i requires 0 <= i < |ss| => Select(ss[i], keep)))
  {
    if ss != [] {
      SelectAppend(ss[0], Concat(ss[1..]), keep);
      SelectConcat(ss[1..], keep);
      assert seq(|ss|, i requires 0 <= i < |ss| => Select(ss[i], keep))[1..]
          == seq(|ss[1..]|, i requires 0 <= i < |ss[1..]| => Select(ss[1..][i], keep));
    }
  }

  /** Selection keeps every accepted element with its multiplicity and drops the rest. */
  lemma {:induction false} SelectCount<T>(s: seq<T>, keep: T -> bool, x: T)
    ensures multiset(Select(s, keep))[x] == if keep(x) then multiset(s)[x] else 0
  {
    if s != [] {
      SelectCount(s[1..], keep, x);
      assert s == [s[0]] + s[1..];
    }
  }

  /** Selecting with a predicate that accepts everything changes nothing. */
  lemma {:induction false} SelectAll<T>(s: seq<T>, keep: T -> bool)
    requires forall x :: x in s ==> keep(x)
    ensures Select(s, keep) == s
  {
    if s != [] {
      SelectAll(s[1..], keep);
      assert s == [s[0]] + s[1..];
    }
  }

  /** Selecting with a predicate that rejects everything leaves nothing. */
  lemma {:induction false} SelectNone<T>(s: seq<T>, keep: T -> bool)
    requires forall i :: 0 <= i < |s| ==> !keep(s[i])
    ensures Select(s, keep) == []
  {
    if s != [] {
      SelectNone(s[1..], keep);
    }
  }

  /** Selecting twice with the same predicate is selecting once. */
  lemma {:induction false} SelectTwice<T>(s: seq<T>, keep: T -> bool)
    ensures Select(Select(s, keep), keep) == Select(s, keep)
  {
    SelectAll(Select(s, keep), keep);
  }

  /** Concatenating concatenations is concatenating everything. */
  lemma {:induction false} ConcatConcat<T>(sss: seq<seq<seq<T>>>)
    ensures Concat(Concat(sss)) == Concat(seq(|sss|, i requires 0 <= i < |sss| => Concat(sss[i])))
  {
    if sss != [] {
      ConcatAppend(sss[0], Concat(sss[1..]));
      ConcatConcat(sss[1..]);
      assert seq(|sss|, i requires 0 <= i < |sss| => Concat(sss[i]))[1..]
          == seq(|sss[1..]|, i requires 0 <= i < |sss[1..]| => Concat(sss[1..][i]));
    }
  }

  /** Selections by two predicates commute. */
  lemma {:induction false} SelectCommute<T>(s: seq<T>, keep1: T -> bool, keep2: T -> bool)
    ensures Select(Select(s, keep1), keep2) == Select(Select(s, keep2), keep1)
  {
    if s != [] {
      SelectCommute(s[1..], keep1, keep2);
      SelectAppend(if keep1(s[0]) then [s[0]] else [], Select(s[1..], keep1), keep2);
      SelectAppend(if keep2(s[0]) then [s[0]] else [], Select(s[1..], keep2), keep1);
    }
  }

  /** Two tests that agree on every element select the same subsequence. */
  lemma {:induction false} SelectSame<T>(s: seq<T>, f: T -> bool, g: T -> bool)
    requires forall x :: f(x) == g(x)
    ensures Select(s, f) == Select(s, g)
  {
    if s != [] {
      SelectSame(s[1..], f, g);
    }
  }

  /** How many elements a selection keeps depends only on the multiset of its input. */
  lemma SelectLength<T>(a: seq<T>, b: seq<T>, keep: T -> bool)
    requires multiset(a) == multiset(b)
    ensures |Select(a, keep)| == |Select(b, keep)|
  {
    forall x ensures multiset(Select(a, keep))[x] == multiset(Select(b, keep))[x] {
      SelectCount(a, keep, x);
      SelectCount(b, keep, x);
    }
    MultisetExt(multiset(Select(a, keep)), multiset(Select(b, keep)));
    assert |multiset(Select(a, keep))| == |Select(a, keep)|;
    assert |multiset(Select(b, keep))| == |Select(b, keep)|;
  }

  /** Two multisets with the same multiplicities are equal. */
  lemma MultisetExt<T>(a: multiset<T>, b: multiset<T>)
    requires forall x :: a[x] == b[x]
    ensures a == b
  {
  }

  /** A multiset whose multiplicities are all at most another's is contained in it. */
  lemma MultisetSub<T>(a: multiset<T>, b: multiset<T>)
    requires forall x :: a[x] <= b[x]
    ensures a <= b
  {
  }
}
