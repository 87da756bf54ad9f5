/** Small generic building blocks shared by the rest of the model: the
    failure-carrying datatypes that stand in for Python's `None` returns and
    raised exceptions, Python's list repetition, and the ascending list of
    positions that a filter keeps. */
module Basics {

  /** `None` or a value, as Python's optional returns. */
  datatype Option<+T> = None | Some(value: T)

  /** A value, or the exception the Python code would raise instead. */
  datatype Result<+T, +E> = Success(value: T) | Failure(error: E)

  /** `[x] * n` in Python: `n` copies of one element. */
  function Copies<T>(x: T, n: nat): (r: seq<T>)
    ensures |r| == n
    ensures forall k :: 0 <= k < |r| ==> r[k] == x
  {
    if n == 0 then [] else [x] + Copies(x, n - 1)
  }

  lemma {:induction false} CopiesSplit<T>(x: T, n: nat)
    requires n >= 1
    ensures Copies(x, n) == [x] + Copies(x, n - 1)
  {
  }

  /** `xs * n` in Python: the list concatenated with itself `n` times. */
  function Repeat<T>(xs: seq<T>, n: nat): seq<T> {
    if n == 0 then [] else xs + Repeat(xs, n - 1)
  }

  /** The repetition has `n` times the length, and position `k` holds
      element `k mod |xs|`. */
  lemma {:induction false} RepeatSpec<T>(xs: seq<T>, n: nat)
    ensures |Repeat(xs, n)| == |xs| * n
    ensures forall k :: 0 <= k < |Repeat(xs, n)| ==> Repeat(xs, n)[k] == xs[k % |xs|]
  {
    if n > 0 {
      RepeatSpec(xs, n - 1);
      var rest := Repeat(xs, n - 1);
      var r := xs + rest;
      assert |r| == |xs| * n by {
        Distrib(n - 1, |xs|);
      }
      forall k | 0 <= k < |r|
        ensures r[k] == xs[k % |xs|]
      {
        if k < |xs| {
          assert r[k] == xs[k];
          UniqueMod(k, |xs|, 0, k);
        } else {
          assert r[k] == rest[k - |xs|];
          ModShift(k, |xs|);
        }
      }
    }
  }

  lemma ModShift(k: int, m: int)
    requires 0 < m <= k
    ensures k % m == (k - m) % m
  {
    var q := (k - m) / m;
    var r := (k - m) % m;
    DivMod(k - m, m);
    assert k == (q + 1) * m + r by { Distrib(q, m); }
    UniqueMod(k, m, q + 1, r);
  }

  // Nonlinear steps, one per lemma so that the solver sees each in isolation.
  lemma Distrib(q: int, m: int)
    ensures (q + 1) * m == q * m + m
  {
  }

  lemma DivMod(a: int, m: int)
    requires m > 0
    ensures a == (a / m) * m + a % m && 0 <= a % m < m
  {
  }

  lemma AtLeast(a: int, m: int)
    requires a >= 1 && m > 0
    ensures a * m >= m
  {
  }

  lemma SubMul(q: int, p: int, m: int)
    ensures q * m - p * m == (q - p) * m
  {
  }

  lemma UniqueMod(k: int, m: int, q: int, r: int)
    requires 0 < m && 0 <= r < m && k == q * m + r
    ensures k % m == r
  {
    var q' := k / m;
    DivMod(k, m);
    SubMul(q, q', m);
    if q > q' {
      AtLeast(q - q', m);
    } else if q < q' {
      SubMul(q', q, m);
      AtLeast(q' - q, m);
    }
  }

  /** The positions `k < n` for which `keep(k)` holds, in ascending order. */
  function Positions(n: nat, keep: nat -> bool): (ks: seq<nat>)
    ensures forall m :: 0 <= m < |ks| ==> ks[m] < n && keep(ks[m])
    ensures forall k: nat :: k < n && keep(k) ==> k in ks
    ensures forall a, b :: 0 <= a < b < |ks| ==> ks[a] < ks[b]
    ensures |ks| <= n
  {
    if n == 0 then []
    else Positions(n - 1, keep) + (if keep(n - 1) then [n - 1] else [])
  }

  /** Repeating `a + c` times is repeating `a` times, then `c` times. */
  lemma {:induction false} RepeatAdd<T>(xs: seq<T>, a: nat, c: nat)
    ensures Repeat(xs, a + c) == Repeat(xs, a) + Repeat(xs, c)
  {
    if a > 0 {
      calc {
        Repeat(xs, a + c);
        xs + Repeat(xs, (a - 1) + c);
        { RepeatAdd(xs, a - 1, c); }
        xs + (Repeat(xs, a - 1) + Repeat(xs, c));
        (xs + Repeat(xs, a - 1)) + Repeat(xs, c);
        Repeat(xs, a) + Repeat(xs, c);
      }
    }
  }

  /** `[f(x) for x in xs]`. */
  function Map<A, B>(f: A -> B, xs: seq<A>): (r: seq<B>)
    ensures |r| == |xs| && forall k :: 0 <= k < |xs| ==> r[k] == f(xs[k])
  {
    seq(|xs|, k requires 0 <= k < |xs| => f(xs[k]))
  }

  /** `Positions` only looks at `keep` below `n`. */
  lemma {:induction false} PositionsAgree(n: nat, keep: nat -> bool, keep': nat -> bool)
    requires forall k: nat :: k < n ==> keep(k) == keep'(k)
    ensures Positions(n, keep) == Positions(n, keep')
  {
    if n > 0 {
      PositionsAgree(n - 1, keep, keep');
    }
  }

  /** A Python comprehension `[g(x) for x in xs if cond(x)]`, with `f(x)`
      standing for `Some(g(x))` when `cond(x)` holds and `None` otherwise. */
  function FilterMap<T, S>(xs: seq<T>, f: T -> Option<S>): (r: seq<S>)
    ensures |r| <= |xs|
  {
    if xs == [] then []
    else
      var last := xs[|xs| - 1];
      FilterMap(xs[..|xs| - 1], f) + (if f(last).Some? then [f(last).value] else [])
  }

  /** The positions of `xs` that `f` keeps. */
  function Kept<T, S>(xs: seq<T>, f: T -> Option<S>): nat -> bool {
    (k: nat) => k < |xs| && f(xs[k]).Some?
  }

  /** The comprehension keeps exactly the elements `f` accepts, in their
      original order, each mapped through `f`. */
  lemma {:induction false} FilterMapSpec<T, S>(xs: seq<T>, f: T -> Option<S>)
    ensures var ks := Positions(|xs|, Kept(xs, f));
      && |FilterMap(xs, f)| == |ks|
      && forall m :: 0 <= m < |ks| ==> f(xs[ks[m]]) == Some(FilterMap(xs, f)[m])
  {
    if xs != [] {
      var n := |xs|;
      var init := xs[..n - 1];
      FilterMapSpec(init, f);
      var ks0 := Positions(n - 1, Kept(init, f));
      assert forall k: nat :: k < n - 1 ==> Kept(init, f)(k) == Kept(xs, f)(k);
      PositionsAgree(n - 1, Kept(init, f), Kept(xs, f));
      assert Kept(xs, f)(n - 1) == f(xs[n - 1]).Some?;
      FilterMapStep(xs, f, ks0, FilterMap(init, f));
    }
  }

  /** The last element extends the kept positions and the kept values
      together. */
  lemma FilterMapStep<T, S>(xs: seq<T>, f: T -> Option<S>, ks0: seq<nat>, r0: seq<S>)
    requires |xs| >= 1 && |r0| == |ks0|
    requires forall m :: 0 <= m < |ks0| ==> ks0[m] < |xs| - 1 && f(xs[..|xs| - 1][ks0[m]]) == Some(r0[m])
    ensures var last := xs[|xs| - 1];
      var ks := ks0 + (if f(last).Some? then [|xs| - 1] else []);
      var r := r0 + (if f(last).Some? then [f(last).value] else []);
      |r| == |ks| && forall m :: 0 <= m < |ks| ==> f(xs[ks[m]]) == Some(r[m])
  {
    var last := xs[|xs| - 1];
    var ks := ks0 + (if f(last).Some? then [|xs| - 1] else []);
    var r := r0 + (if f(last).Some? then [f(last).value] else []);
    forall m | 0 <= m < |ks|
      ensures f(xs[ks[m]]) == Some(r[m])
    {
      if m < |ks0| {
        assert ks[m] == ks0[m] && r[m] == r0[m];
        assert xs[..|xs| - 1][ks0[m]] == xs[ks0[m]];
      }
    }
  }

  /** `zip(a, b)` for lists of equal length. */
  function Zip<A, B>(a: seq<A>, b: seq<B>): (r: seq<(A, B)>)
    requires |a| == |b|
    ensures |r| == |a| && forall k :: 0 <= k < |a| ==> r[k] == (a[k], b[k])
  {
    seq(|a|, k requires 0 <= k < |a| => (a[k], b[k]))
  }

  /** The first position of `x` in `xs`, as Python's `list.index`. */
  function IndexOf<T(==)>(xs: seq<T>, x: T): (i: nat)
    requires x in xs
    ensures i < |xs| && xs[i] == x
    ensures forall j :: 0 <= j < i ==> xs[j] != x
  {
    if xs[0] == x then 0 else 1 + IndexOf(xs[1..], x)
  }

  /** `a` is `b` with some elements deleted: the elements of `a` occur in
      `b` in the same relative order. */
  predicate IsSubsequence<T(==)>(a: seq<T>, b: seq<T>)
    decreases |b|
  {
    a == [] || (b != [] && ((a[0] == b[0] && IsSubsequence(a[1..], b[1..])) || IsSubsequence(a, b[1..])))
  }

  lemma {:induction false} SubsequenceRefl<T>(a: seq<T>)
    ensures IsSubsequence(a, a)
    decreases |a|
  {
    if a != [] {
      SubsequenceRefl(a[1..]);
    }
  }

  lemma {:induction false} SubsequenceTrans<T>(a: seq<T>, b: seq<T>, c: seq<T>)
    requires IsSubsequence(a, b) && IsSubsequence(b, c)
    ensures IsSubsequence(a, c)
    decreases |c|
  {
    if a != [] {
      if b[0] == c[0] && IsSubsequence(b[1..], c[1..]) {
        if a[0] == b[0] && IsSubsequence(a[1..], b[1..]) {
          SubsequenceTrans(a[1..], b[1..], c[1..]);
        } else {
          SubsequenceTrans(a, b[1..], c[1..]);
        }
      } else {
        SubsequenceTrans(a, b, c[1..]);
      }
    }
  }

  /** Deleting one element leaves a subsequence. */
  lemma {:induction false} DropOneIsSubsequence<T>(a: seq<T>, x: T, b: seq<T>)
    ensures IsSubsequence(a + b, a + [x] + b)
    decreases |a|
  {
    if a == [] {
      SubsequenceRefl(b);
      assert a + b == b;
      assert (a + [x] + b)[1..] == b;
    } else {
      assert (a + b)[1..] == a[1..] + b;
      assert (a + [x] + b)[1..] == a[1..] + [x] + b;
      DropOneIsSubsequence(a[1..], x, b);
    }
  }
}
