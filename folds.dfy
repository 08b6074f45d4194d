/** Stock Option type used for JavaScript's NaN / "not found" results. */
module Wrappers {
  datatype Option<+T> = None | Some(value: T)
}

/**
 * The array combinators the application is written with (`reduce` with a
 * `+` accumulator, `filter`, `map`) as functions on sequences, with the
 * algebra the proofs about the ledger, the split form and the store use.
 */
module Folds {

  /** `s.reduce((sum, x) => sum + f(x), 0)`: a left fold, last element added last. */
  function Sum<T>(s: seq<T>, f: T -> int): int
  {
    if s == [] then 0 else Sum(s[..|s| - 1], f) + f(s[|s| - 1])
  }

  /** `s.filter(p)`: the elements satisfying `p`, in their original order. */
  function Filter<T>(s: seq<T>, p: T -> bool): seq<T>
  {
    if s == [] then [] else Filter(s[..|s| - 1], p) + (if p(s[|s| - 1]) then [s[|s| - 1]] else [])
  }

  /** `s.map(m)`. */
  function Map<T, U>(s: seq<T>, m: T -> U): (r: seq<U>)
    ensures |r| == |s|
    ensures forall i :: 0 <= i < |s| ==> r[i] == m(s[i])
  {
    if s == [] then [] else Map(s[..|s| - 1], m) + [m(s[|s| - 1])]
  }

  lemma {:induction false} SumAppend<T>(a: seq<T>, b: seq<T>, f: T -> int)
    ensures Sum(a + b, f) == Sum(a, f) + Sum(b, f)
  {
    if b == [] {
      assert a + b == a;
    } else {
      assert (a + b)[..|a + b| - 1] == a + b[..|b| - 1];
      SumAppend(a, b[..|b| - 1], f);
    }
  }

  lemma SumSingleton<T>(x: T, f: T -> int)
    ensures Sum([x], f) == f(x)
  {
    assert [x][..0] == [];
  }

  /** Sums are insensitive to the order of the elements. */
  lemma {:induction false} SumPermutation<T>(s: seq<T>, t: seq<T>, f: T -> int)
    requires multiset(s) == multiset(t)
    ensures Sum(s, f) == Sum(t, f)
  {
    if s != [] {
      var x := s[|s| - 1];
      var s' := s[..|s| - 1];
      SplitLast(s);
      assert multiset(s) == multiset(s') + multiset{x};
      assert x in multiset(t);
      var i :| 0 <= i < |t| && t[i] == x;
      MultisetRemoveAt(t, i);
      SumPermutation(s', t[..i] + t[i + 1..], f);
      SumRemoveAt(t, i, f);
    } else {
      assert |t| == |multiset(t)|;
    }
  }

  /** Taking out the element at `i` takes one copy of it out of the multiset. */
  lemma MultisetRemoveAt<T>(t: seq<T>, i: nat)
    requires i < |t|
    ensures multiset(t[..i] + t[i + 1..]) == multiset(t) - multiset{t[i]}
  {
    Around(t, i);
    assert multiset(t) == multiset(t[..i]) + multiset{t[i]} + multiset(t[i + 1..]);
  }

  /** Taking out the element at `i` takes its summand out of the sum. */
  lemma SumRemoveAt<T>(t: seq<T>, i: nat, f: T -> int)
    requires i < |t|
    ensures Sum(t, f) == Sum(t[..i] + t[i + 1..], f) + f(t[i])
  {
    var a, x, c := t[..i], t[i], t[i + 1..];
    Around(t, i);
    SumAppend(a + [x], c, f);
    SumAppend(a, [x], f);
    SumAppend(a, c, f);
    SumSingleton(x, f);
  }

  /** Sums depend only on the values of the summand on the sequence. */
  lemma {:induction false} SumCongruent<T>(s: seq<T>, f: T -> int, g: T -> int)
    requires forall x :: x in s ==> f(x) == g(x)
    ensures Sum(s, f) == Sum(s, g)
  {
    if s != [] {
      SumCongruent(s[..|s| - 1], f, g);
    }
  }

  /** Summing a pointwise sum is summing each part. */
  lemma {:induction false} SumAdd<T>(s: seq<T>, f: T -> int, g: T -> int, h: T -> int)
    requires forall x :: x in s ==> h(x) == f(x) + g(x)
    ensures Sum(s, h) == Sum(s, f) + Sum(s, g)
  {
    if s != [] {
      SumAdd(s[..|s| - 1], f, g, h);
    }
  }

  lemma {:induction false} SumNegate<T>(s: seq<T>, f: T -> int, g: T -> int)
    requires forall x :: x in s ==> g(x) == -f(x)
    ensures Sum(s, g) == -Sum(s, f)
  {
    if s != [] {
      SumNegate(s[..|s| - 1], f, g);
    }
  }

  lemma {:induction false} SumZero<T>(s: seq<T>, f: T -> int)
    requires forall x :: x in s ==> f(x) == 0
    ensures Sum(s, f) == 0
  {
    if s != [] {
      SumZero(s[..|s| - 1], f);
    }
  }

  /** Summing a filtered list is summing the whole list with the rejected elements counted as 0. */
  lemma {:induction false} SumFilter<T>(s: seq<T>, p: T -> bool, f: T -> int, g: T -> int)
    requires forall x :: x in s ==> g(x) == if p(x) then f(x) else 0
    ensures Sum(Filter(s, p), f) == Sum(s, g)
  {
    if s != [] {
      var x := s[|s| - 1];
      SumFilter(s[..|s| - 1], p, f, g);
      SumAppend(Filter(s[..|s| - 1], p), if p(x) then [x] else [], f);
      if p(x) { SumSingleton(x, f); }
    }
  }

  /** Summing `c` for each element satisfying `p` (and 0 for the others) is `c` times their number. */
  lemma {:induction false} SumCount<T>(s: seq<T>, p: T -> bool, c: int, g: T -> int)
    requires forall x :: x in s ==> g(x) == if p(x) then c else 0
    ensures Sum(s, g) == |Filter(s, p)| * c
  {
    if s != [] {
      var s' := s[..|s| - 1];
      SumCount(s', p, c, g);
      var k := |Filter(s', p)|;
      if p(s[|s| - 1]) {
        assert (k + 1) * c == k * c + c;
      }
    }
  }

  /** Summing over a mapped list is summing the composed function. */
  lemma {:induction false} SumMap<T, U>(s: seq<T>, m: T -> U, f: U -> int, g: T -> int)
    requires forall x :: x in s ==> g(x) == f(m(x))
    ensures Sum(Map(s, m), f) == Sum(s, g)
  {
    if s != [] {
      var s' := s[..|s| - 1];
      assert Map(s, m)[..|s| - 1] == Map(s', m);
      SumMap(s', m, f, g);
    }
  }

  /** Row `g` of a table `c`, as a summand over the columns. */
  function Row<S, T>(c: (S, T) -> int, g: S): T -> int
  {
    x => c(g, x)
  }

  /** Column `x` of a table `c`, as a summand over the rows. */
  function Column<S, T>(c: (S, T) -> int, x: T): S -> int
  {
    g => c(g, x)
  }

  /** A double sum can be taken in either order. */
  lemma {:induction false} SumSwap<S, T>(gs: seq<S>, xs: seq<T>, c: (S, T) -> int,
                                          rows: S -> int, cols: T -> int)
    requires forall g :: g in gs ==> rows(g) == Sum(xs, Row(c, g))
    requires forall x :: x in xs ==> cols(x) == Sum(gs, Column(c, x))
    ensures Sum(gs, rows) == Sum(xs, cols)
  {
    if xs == [] {
      SumZero(gs, rows);
    } else {
      var xs' := xs[..|xs| - 1];
      var last := xs[|xs| - 1];
      var rows' := g => Sum(xs', Row(c, g));
      forall x | x in xs'
        ensures cols(x) == Sum(gs, Column(c, x))
      {
        assert x in xs;
      }
      SumSwap(gs, xs', c, rows', cols);
      SumAdd(gs, rows', Column(c, last), rows);
    }
  }

  /**
   * When the keys of `gs` are pairwise distinct and `k` is one of them,
   * picking out the group with key `k` picks out exactly one value.
   */
  lemma {:induction false} SumPickOne<S>(gs: seq<S>, key: S -> int, k: int, v: int, f: S -> int)
    requires forall i, j :: 0 <= i < j < |gs| ==> key(gs[i]) != key(gs[j])
    requires forall g :: g in gs ==> f(g) == if key(g) == k then v else 0
    ensures Sum(gs, f) == (if exists g :: g in gs && key(g) == k then v else 0)
  {
    if gs != [] {
      var gs' := gs[..|gs| - 1];
      var last := gs[|gs| - 1];
      assert gs == gs' + [last];
      SumPickOne(gs', key, k, v, f);
      if key(last) == k {
        forall g | g in gs' ensures key(g) != k {
          var i :| 0 <= i < |gs'| && gs'[i] == g;
          assert key(gs[i]) != key(gs[|gs| - 1]);
        }
      }
    }
  }

  lemma {:induction false} FilterAppend<T>(a: seq<T>, b: seq<T>, p: T -> bool)
    ensures Filter(a + b, p) == Filter(a, p) + Filter(b, p)
  {
    if b == [] {
      assert a + b == a;
    } else {
      assert (a + b)[..|a + b| - 1] == a + b[..|b| - 1];
      FilterAppend(a, b[..|b| - 1], p);
    }
  }

  /** The filter keeps exactly the elements satisfying `p`, each as often as it occurs. */
  lemma {:induction false} FilterCount<T>(s: seq<T>, p: T -> bool, x: T)
    ensures multiset(Filter(s, p))[x] == if p(x) then multiset(s)[x] else 0
  {
    if s != [] {
      var s' := s[..|s| - 1];
      assert s == s' + [s[|s| - 1]];
      FilterCount(s', p, x);
    }
  }

  lemma FilterRemoveAt<T>(t: seq<T>, i: nat, p: T -> bool)
    requires i < |t|
    ensures multiset(Filter(t, p))
         == multiset(Filter(t[..i] + t[i + 1..], p)) + multiset(if p(t[i]) then [t[i]] else [])
  {
    var a, x, c := t[..i], t[i], t[i + 1..];
    Around(t, i);
    FilterAround(a, x, c, p);
    FilterSingleton(x, p);
    MultisetMiddle(Filter(a, p), Filter([x], p), Filter(c, p));
  }

  lemma FilterAround<T>(a: seq<T>, x: T, c: seq<T>, p: T -> bool)
    ensures Filter(a + [x] + c, p) == Filter(a, p) + Filter([x], p) + Filter(c, p)
    ensures Filter(a + c, p) == Filter(a, p) + Filter(c, p)
  {
    FilterAppend(a + [x], c, p);
    FilterAppend(a, [x], p);
    FilterAppend(a, c, p);
  }

  lemma MultisetMiddle<T>(a: seq<T>, b: seq<T>, c: seq<T>)
    ensures multiset(a + b + c) == multiset(a + c) + multiset(b)
  {
    assert multiset(a + b + c) == multiset(a) + multiset(b) + multiset(c);
    assert multiset(a + c) == multiset(a) + multiset(c);
  }

  lemma {:induction false} FilterPermutation<T>(s: seq<T>, t: seq<T>, p: T -> bool)
    requires multiset(s) == multiset(t)
    ensures multiset(Filter(s, p)) == multiset(Filter(t, p))
  {
    if s != [] {
      var x := s[|s| - 1];
      var s' := s[..|s| - 1];
      SplitLast(s);
      assert multiset(s) == multiset(s') + multiset{x};
      assert x in multiset(t);
      var i :| 0 <= i < |t| && t[i] == x;
      MultisetRemoveAt(t, i);
      FilterPermutation(s', t[..i] + t[i + 1..], p);
      FilterRemoveAt(t, i, p);
      var fs' := Filter(s', p);
      assert multiset(fs' + if p(x) then [x] else []) == multiset(fs') + multiset(if p(x) then [x] else []);
    } else {
      assert |t| == |multiset(t)|;
    }
  }

  /** Every element of the filter satisfies `p` and came from `s`. */
  lemma {:induction false} FilterSound<T>(s: seq<T>, p: T -> bool)
    ensures forall x :: x in Filter(s, p) ==> x in s && p(x)
  {
    if s != [] {
      FilterSound(s[..|s| - 1], p);
    }
  }

  lemma {:induction false} FilterAll<T>(s: seq<T>, p: T -> bool)
    requires forall x :: x in s ==> p(x)
    ensures Filter(s, p) == s
  {
    if s != [] {
      var s' := s[..|s| - 1];
      assert forall j :: 0 <= j < |s'| ==> s'[j] == s[j];
      FilterAll(s', p);
      SplitLast(s);
    }
  }

  /** Filters by predicates that agree everywhere are the same. */
  lemma {:induction false} FilterSame<T>(s: seq<T>, p: T -> bool, q: T -> bool)
    requires forall x :: p(x) == q(x)
    ensures Filter(s, p) == Filter(s, q)
  {
    if s != [] {
      FilterSame(s[..|s| - 1], p, q);
    }
  }

  /** A filter that rejects every element is empty. */
  lemma {:induction false} FilterNone<T>(s: seq<T>, p: T -> bool)
    requires forall i :: 0 <= i < |s| ==> !p(s[i])
    ensures Filter(s, p) == []
  {
    if s != [] {
      FilterNone(s[..|s| - 1], p);
    }
  }

  /** Dropping a prefix the filter rejects entirely does not change the filter. */
  lemma FilterDropRejected<T>(s: seq<T>, k: nat, p: T -> bool)
    requires k <= |s| && forall i :: 0 <= i < k ==> !p(s[i])
    ensures Filter(s, p) == Filter(s[k..], p)
  {
    var run, rest := s[..k], s[k..];
    TakeDrop(s, k);
    FilterAppend(run, rest, p);
    FilterNone(run, p);
  }

  // ---------------------------------------------------------------------
  // Sequence identities used as single steps by the proofs

  lemma TakeDrop<T>(s: seq<T>, i: nat)
    requires i <= |s|
    ensures s == s[..i] + s[i..]
  {
  }

  lemma AppendAssoc<T>(x: seq<T>, y: seq<T>, z: seq<T>)
    ensures x + (y + z) == (x + y) + z
  {
  }

  lemma DropCons<T>(s: seq<T>, i: nat)
    requires i < |s|
    ensures s[i..] == [s[i]] + s[i + 1..]
  {
  }

  lemma UpdateHead<T>(x: T, rest: seq<T>, h: T)
    ensures ([x] + rest)[0 := h] == [h] + rest
  {
  }

  lemma TakeAppend<T>(x: seq<T>, y: seq<T>)
    ensures (x + y)[..|x|] == x
  {
  }

  lemma DropConcat<T>(u: seq<T>, w: seq<T>, v: seq<T>, k: nat)
    requires k <= |u|
    ensures (u + w + v)[k..] == u[k..] + w + v
  {
  }

  lemma SplitLast<T>(s: seq<T>)
    requires |s| > 0
    ensures s == s[..|s| - 1] + [s[|s| - 1]]
  {
  }

  lemma Around<T>(t: seq<T>, i: nat)
    requires i < |t|
    ensures t == t[..i] + [t[i]] + t[i + 1..]
  {
  }

  lemma FilterSingleton<T>(x: T, p: T -> bool)
    ensures Filter([x], p) == if p(x) then [x] else []
  {
    assert [x][..0] == [];
  }
}
