/** The combinatorial toolkit the analyses share: subsets enumerated in the order of
    Python's itertools.combinations, factorials and binomial coefficients, and real sums. */
module Combinatorics {

  /** No element occurs twice (the columns of a frame, the features of a graph). */
  predicate Distinct<T(==)>(s: seq<T>) {
    forall i, j :: 0 <= i < j < |s| ==> s[i] != s[j]
  }

  /** The elements of a sequence, as a set. */
  function Elems<T>(s: seq<T>): set<T> {
    set x | x in s
  }

  /** x put in front of every sequence of cs. */
  function PrependAll<T>(x: T, cs: seq<seq<T>>): (r: seq<seq<T>>)
    ensures |r| == |cs|
  {
    if cs == [] then [] else [[x] + cs[0]] + PrependAll(x, cs[1..])
  }

  /** itertools.combinations(s, k): the k-element subsequences of s, in lexicographic
      order of positions (the first element's choices come first). */
  function Combinations<T>(s: seq<T>, k: nat): seq<seq<T>>
    decreases |s|
  {
    if k == 0 then [[]]
    else if |s| == 0 then []
    else PrependAll(s[0], Combinations(s[1..], k - 1)) + Combinations(s[1..], k)
  }

  function Factorial(n: nat): (r: nat)
    ensures r >= 1
  {
    if n == 0 then 1 else n * Factorial(n - 1)
  }

  /** Pascal's rule, independent of factorials. */
  function Binom(n: nat, k: nat): nat {
    if k == 0 then 1 else if n == 0 then 0 else Binom(n - 1, k - 1) + Binom(n - 1, k)
  }

  /** (-1) ** e, as Python computes it for integers. */
  function MinusOnePow(e: nat): int {
    if e == 0 then 1 else -MinusOnePow(e - 1)
  }

  /** Sum of a sequence of reals, left to right. */
  function Sum(s: seq<real>): real {
    if s == [] then 0.0 else s[0] + Sum(s[1..])
  }

  // ---------------------------------------------------------------------------
  // Sums

  lemma {:induction false} SumAppend(a: seq<real>, b: seq<real>)
    ensures Sum(a + b) == Sum(a) + Sum(b)
  {
    if a != [] {
      assert (a + b)[1..] == a[1..] + b;
      SumAppend(a[1..], b);
    } else {
      assert a + b == b;
    }
  }

  lemma SumLast(s: seq<real>)
    requires s != []
    ensures Sum(s) == Sum(s[..|s| - 1]) + s[|s| - 1]
  {
    assert s == s[..|s| - 1] + [s[|s| - 1]];
    SumAppend(s[..|s| - 1], [s[|s| - 1]]);
  }

  lemma {:induction false} SumNonNegative(s: seq<real>)
    requires forall i :: 0 <= i < |s| ==> s[i] >= 0.0
    ensures Sum(s) >= 0.0
  {
    if s != [] {
      SumNonNegative(s[1..]);
    }
  }

  /** A suffix sum of non-negative terms shrinks as the suffix starts later. */
  lemma {:induction false} SuffixSumMonotone(s: seq<real>, i: nat, j: nat)
    requires i <= j <= |s|
    requires forall k :: 0 <= k < |s| ==> s[k] >= 0.0
    ensures Sum(s[j..]) <= Sum(s[i..])
    decreases j - i
  {
    if i < j {
      assert s[i..][1..] == s[i + 1..];
      SuffixSumMonotone(s, i + 1, j);
    }
  }

  // ---------------------------------------------------------------------------
  // Factorials and binomials

  lemma {:induction false} BinomAbove(n: nat, k: nat)
    requires k > n
    ensures Binom(n, k) == 0
  {
    if n > 0 {
      BinomAbove(n - 1, k - 1);
      BinomAbove(n - 1, k);
    }
  }

  lemma {:induction false} BinomAll(n: nat)
    ensures Binom(n, n) == 1
  {
    if n > 0 {
      BinomAll(n - 1);
      BinomAbove(n - 1, n);
    }
  }

  lemma PascalStep(b1: int, b2: int, fk: int, fk1: int, fnk: int, fnk1: int, f: int, k: int, n: int)
    requires b1 * fk1 * fnk == f && b2 * fk * fnk1 == f
    requires fk == k * fk1 && fnk == (n - k) * fnk1
    ensures (b1 + b2) * fk * fnk == n * f
  {
    calc {
      (b1 + b2) * fk * fnk;
      b1 * fk * fnk + b2 * fk * fnk;
      { assert b1 * fk * fnk == b1 * (k * fk1) * fnk == k * (b1 * fk1 * fnk); }
      k * f + b2 * fk * fnk;
      { assert b2 * fk * fnk == b2 * fk * ((n - k) * fnk1) == (n - k) * (b2 * fk * fnk1); }
      k * f + (n - k) * f;
      n * f;
    }
  }

  /** C(n, k) * k! * (n - k)! == n!: Pascal's rule agrees with the factorial formula. */
  lemma {:induction false} BinomFactorial(n: nat, k: nat)
    requires k <= n
    ensures Binom(n, k) * Factorial(k) * Factorial(n - k) == Factorial(n)
  {
    if k == 0 {
    } else if k == n {
      BinomAll(n);
    } else {
      BinomFactorial(n - 1, k - 1);
      BinomFactorial(n - 1, k);
      assert n - 1 - (k - 1) == n - k;
      PascalStep(Binom(n - 1, k - 1), Binom(n - 1, k), Factorial(k), Factorial(k - 1),
                 Factorial(n - k), Factorial(n - 1 - k), Factorial(n - 1), k, n);
    }
  }

  // ---------------------------------------------------------------------------
  // Combinations

  /** There are C(|s|, k) combinations. */
  lemma {:induction false} CombinationsCount<T>(s: seq<T>, k: nat)
    ensures |Combinations(s, k)| == Binom(|s|, k)
    decreases |s|
  {
    if k > 0 && |s| > 0 {
      CombinationsCount(s[1..], k - 1);
      CombinationsCount(s[1..], k);
    }
  }

  lemma {:induction false} PrependAllMember<T>(x: T, cs: seq<seq<T>>, c: seq<T>)
    requires c in PrependAll(x, cs)
    ensures |c| > 0 && c[0] == x && c[1..] in cs
  {
    if c == [x] + cs[0] {
      assert c[1..] == cs[0];
    } else {
      PrependAllMember(x, cs[1..], c);
      assert c[1..] in cs[1..];
    }
  }

  /** One step of the enumeration: a combination either starts with s[0], followed by a
      combination of the rest, or is a combination of the rest. */
  lemma CombinationsUnfold<T>(s: seq<T>, k: nat, c: seq<T>)
      returns (head: bool, rest: seq<T>, k': nat, tail: seq<T>)
    requires k > 0 && |s| > 0 && c in Combinations(s, k)
    ensures rest == s[1..] && k' == k - 1
    ensures head ==> |c| > 0 && c[0] == s[0] && tail == c[1..] && tail in Combinations(rest, k')
    ensures !head ==> c in Combinations(rest, k)
  {
    rest, k' := s[1..], k - 1;
    var front := PrependAll(s[0], Combinations(rest, k'));
    assert Combinations(s, k) == front + Combinations(rest, k);
    head := c in front;
    tail := c;
    if head {
      PrependAllMember(s[0], Combinations(rest, k'), c);
      tail := c[1..];
    }
  }

  /** Every combination has k elements, all drawn from s. */
  lemma {:induction false} CombinationsShape<T>(s: seq<T>, k: nat, c: seq<T>)
    requires c in Combinations(s, k)
    ensures |c| == k && Elems(c) <= Elems(s)
    decreases |s|
  {
    if k > 0 && |s| > 0 {
      var head, rest, k', tail := CombinationsUnfold(s, k, c);
      ElemsCons(s);
      if head {
        CombinationsShape(rest, k', tail);
        ElemsCons(c);
      } else {
        CombinationsShape(rest, k, c);
      }
    }
  }

  /** A head drawn from outside a duplicate-free tail keeps the sequence duplicate-free. */
  lemma DistinctCons<T>(c: seq<T>, outside: set<T>)
    requires |c| > 0 && Distinct(c[1..]) && Elems(c[1..]) <= outside && c[0] !in outside
    ensures Distinct(c)
  {
    forall i, j | 0 <= i < j < |c| ensures c[i] != c[j] {
      assert c[j] == c[1..][j - 1];
      if i > 0 {
        assert c[i] == c[1..][i - 1];
      } else {
        assert c[j] in Elems(c[1..]);
      }
    }
  }

  lemma DistinctTail<T>(s: seq<T>)
    requires Distinct(s) && s != []
    ensures Distinct(s[1..]) && s[0] !in Elems(s[1..])
  {
    forall j | 0 <= j < |s| - 1 ensures s[1..][j] != s[0] {
      assert s[1..][j] == s[j + 1];
    }
  }

  /** Appending x keeps a sequence duplicate-free exactly when x is new. */
  lemma DistinctSnoc<T>(s: seq<T>, x: T)
    ensures Distinct(s + [x]) <==> Distinct(s) && x !in s
  {
    var sx := s + [x];
    if Distinct(sx) {
      forall a, b | 0 <= a < b < |s| ensures s[a] != s[b] {
        assert s[a] == sx[a] && s[b] == sx[b];
      }
      forall a | 0 <= a < |s| ensures s[a] != x {
        assert s[a] == sx[a] && sx[|s|] == x;
      }
    }
  }

  /** f applied to every element of s, in order. */
  function Project<T, U>(s: seq<T>, f: T -> U): (r: seq<U>)
    ensures |r| == |s| && forall i :: 0 <= i < |s| ==> r[i] == f(s[i])
  {
    if s == [] then [] else Project(s[..|s| - 1], f) + [f(s[|s| - 1])]
  }

  lemma ProjectAgree<T, U>(a: seq<T>, b: seq<T>, f: T -> U)
    requires |a| == |b| && forall i :: 0 <= i < |a| ==> f(a[i]) == f(b[i])
    ensures Project(a, f) == Project(b, f)
  {
  }

  lemma ProjectAppend<T, U>(a: seq<T>, b: seq<T>, f: T -> U)
    ensures Project(a + b, f) == Project(a, f) + Project(b, f)
  {
  }

  /** Reordering a sequence reorders its image. */
  lemma {:induction false} ProjectPermutation<T, U>(a: seq<T>, b: seq<T>, f: T -> U)
    requires multiset(a) == multiset(b)
    ensures multiset(Project(a, f)) == multiset(Project(b, f))
    decreases |a|
  {
    if a != [] {
      var a', x := a[..|a| - 1], a[|a| - 1];
      assert a == a' + [x];
      assert x in multiset(b);
      var j :| 0 <= j < |b| && b[j] == x;
      var b' := b[..j] + b[j + 1..];
      assert b == b[..j] + [x] + b[j + 1..];
      assert multiset(b') == multiset(b) - multiset{x};
      ProjectPermutation(a', b', f);
      ProjectAppend(a', [x], f);
      ProjectAppend(b[..j] + [x], b[j + 1..], f);
      ProjectAppend(b[..j], [x], f);
      ProjectAppend(b[..j], b[j + 1..], f);
    }
  }

  /** Taking one more element of s appends it. */
  lemma TakeSnoc<T>(s: seq<T>, i: nat)
    requires i < |s|
    ensures s[..i + 1] == s[..i] + [s[i]]
  {
  }

  lemma ElemsAppend<T>(a: seq<T>, b: seq<T>)
    ensures Elems(a + b) == Elems(a) + Elems(b)
  {
    assert forall x :: x in a + b <==> x in a || x in b;
  }

  /** A two-element sequence with the elements x != y lists them in one order or the other. */
  lemma PairOfSet<T>(c: seq<T>, x: T, y: T)
    requires |c| == 2 && Elems(c) == {x, y} && x != y
    ensures (c[0] == x && c[1] == y) || (c[0] == y && c[1] == x)
  {
    assert c[0] in Elems(c) && c[1] in Elems(c);
    assert x in Elems(c) && y in Elems(c);
    assert forall z :: z in c ==> z == c[0] || z == c[1];
  }

  lemma DistinctAppend<T>(a: seq<T>, b: seq<T>)
    requires Distinct(a) && Distinct(b) && Elems(a) * Elems(b) == {}
    ensures Distinct(a + b)
  {
    var ab := a + b;
    forall i, j | 0 <= i < j < |ab| ensures ab[i] != ab[j] {
      if j < |a| {
        assert ab[i] == a[i] && ab[j] == a[j];
      } else if i >= |a| {
        assert ab[i] == b[i - |a|] && ab[j] == b[j - |a|];
      } else {
        assert ab[i] == a[i] && ab[j] == b[j - |a|];
        assert ab[i] in Elems(a) && ab[j] in Elems(b);
        assert ab[j] !in Elems(a) * Elems(b);
        assert ab[j] !in Elems(a);
      }
    }
  }

  /** Duplicate-freedom stated head first, one element at a time. */
  predicate NoDup<T(==)>(s: seq<T>) {
    s == [] || (s[0] !in Elems(s[1..]) && NoDup(s[1..]))
  }

  lemma {:induction false} DistinctNoDup<T>(s: seq<T>)
    requires Distinct(s)
    ensures NoDup(s)
  {
    if s != [] {
      DistinctTail(s);
      DistinctNoDup(s[1..]);
    }
  }

  lemma {:induction false} NoDupDistinct<T>(s: seq<T>)
    requires NoDup(s)
    ensures Distinct(s)
  {
    if s != [] {
      NoDupDistinct(s[1..]);
      DistinctCons(s, Elems(s[1..]));
    }
  }

  /** A combination of a duplicate-free sequence repeats nothing. */
  lemma CombinationsDistinct<T>(s: seq<T>, k: nat, c: seq<T>)
    requires c in Combinations(s, k) && Distinct(s)
    ensures Distinct(c)
  {
    DistinctNoDup(s);
    CombinationsNoDup(s, k, c);
    NoDupDistinct(c);
  }

  lemma {:induction false} CombinationsNoDup<T>(s: seq<T>, k: nat, c: seq<T>)
    requires c in Combinations(s, k) && NoDup(s)
    ensures NoDup(c)
    decreases |s|
  {
    if k > 0 && |s| > 0 {
      var head, rest, k', tail := CombinationsUnfold(s, k, c);
      assert NoDup(rest);
      if head {
        CombinationsNoDup(rest, k', tail);
        CombinationsShape(rest, k', tail);
      } else {
        CombinationsNoDup(rest, k, c);
      }
    }
  }

  lemma {:induction false} PrependAllContains<T>(x: T, cs: seq<seq<T>>, c: seq<T>)
    requires c in cs
    ensures [x] + c in PrependAll(x, cs)
  {
    if c != cs[0] {
      assert c in cs[1..];
      PrependAllContains(x, cs[1..], c);
    }
  }

  lemma ElemsCons<T>(s: seq<T>)
    requires s != []
    ensures Elems(s) == {s[0]} + Elems(s[1..])
  {
    assert s == [s[0]] + s[1..];
  }

  /** Every k-element subset of a duplicate-free s is enumerated by some combination. */
  lemma CombinationsComplete<T>(s: seq<T>, k: nat, t: set<T>)
    requires Distinct(s) && t <= Elems(s) && |t| == k
    ensures exists c :: c in Combinations(s, k) && Elems(c) == t
  {
    DistinctNoDup(s);
    NoDupComplete(s, k, t);
  }

  /** The converse of CombinationsUnfold. */
  lemma CombinationsFold<T>(s: seq<T>, k: nat, c: seq<T>)
    requires k > 0 && |s| > 0
    requires (|c| > 0 && c[0] == s[0] && c[1..] in Combinations(s[1..], k - 1))
          || c in Combinations(s[1..], k)
    ensures c in Combinations(s, k)
  {
    var front := PrependAll(s[0], Combinations(s[1..], k - 1));
    assert Combinations(s, k) == front + Combinations(s[1..], k);
    if c !in Combinations(s[1..], k) {
      PrependAllContains(s[0], Combinations(s[1..], k - 1), c[1..]);
      assert c == [s[0]] + c[1..];
    }
  }

  /** A non-empty set of elements of s either holds s[0] and, without it, one element
      fewer of the tail, or lies wholly in the tail. */
  lemma SubsetSplit<T>(s: seq<T>, t: set<T>, k: nat)
    requires t <= Elems(s) && |t| == k && k > 0
    ensures |s| > 0
    ensures s[0] in t ==> t - {s[0]} <= Elems(s[1..]) && |t - {s[0]}| == k - 1
    ensures s[0] !in t ==> t <= Elems(s[1..])
  {
    var x :| x in t;
    assert x in Elems(s);
    ElemsCons(s);
  }

  /** Putting x back in front of a combination of t - {x} gives one of t. */
  lemma ElemsJoin<T>(x: T, c: seq<T>, t: set<T>)
    requires x in t && Elems(c) == t - {x}
    ensures Elems([x] + c) == t && ([x] + c)[1..] == c
  {
    ElemsCons([x] + c);
    assert ([x] + c)[1..] == c;
  }

  lemma {:induction false} NoDupComplete<T>(s: seq<T>, k: nat, t: set<T>)
    requires NoDup(s) && t <= Elems(s) && |t| == k
    ensures exists c :: c in Combinations(s, k) && Elems(c) == t
    decreases |s|
  {
    if k == 0 {
      assert t == {};
      assert [] in Combinations(s, k) && Elems<T>([]) == t;
    } else {
      SubsetSplit(s, t, k);
      var rest := s[1..];
      assert NoDup(rest);
      var c: seq<T>;
      if s[0] in t {
        var k', t' := k - 1, t - {s[0]};
        NoDupComplete(rest, k', t');
        var c' :| c' in Combinations(rest, k') && Elems(c') == t';
        ElemsJoin(s[0], c', t);
        c := [s[0]] + c';
        assert c[1..] in Combinations(rest, k');
      } else {
        NoDupComplete(rest, k, t);
        c :| c in Combinations(rest, k) && Elems(c) == t;
      }
      CombinationsFold(s, k, c);
      assert c in Combinations(s, k) && Elems(c) == t;
    }
  }
}
