/** Orderings used by the analyses' output tables: pandas sort_values and
    Counter.most_common become a sort by a total preorder, and Python's string
    comparison becomes lexicographic order on code points. */
module Ordering {

  /** le is total and transitive: a sort key or a lexicographic combination of keys. */
  ghost predicate TotalPreorder<T(!new)>(le: (T, T) -> bool) {
    && (forall a, b :: le(a, b) || le(b, a))
    && (forall a, b, c :: le(a, b) && le(b, c) ==> le(a, c))
  }

  predicate SortedBy<T>(s: seq<T>, le: (T, T) -> bool) {
    forall i, j :: 0 <= i < j < |s| ==> le(s[i], s[j])
  }

  /** A head no greater than any element of a sorted tail keeps the sequence sorted. */
  lemma ConsSorted<T>(h: T, r: seq<T>, le: (T, T) -> bool)
    requires SortedBy(r, le) && forall j :: 0 <= j < |r| ==> le(h, r[j])
    ensures SortedBy([h] + r, le)
  {
    var hr := [h] + r;
    forall a, b | 0 <= a < b < |hr| ensures le(hr[a], hr[b]) {
      assert hr[b] == r[b - 1];
      if a > 0 {
        assert hr[a] == r[a - 1];
      }
    }
  }

  /** In a sorted sequence, x no greater than the head is no greater than anything. */
  lemma HeadBound<T(!new)>(x: T, s: seq<T>, le: (T, T) -> bool)
    requires TotalPreorder(le) && SortedBy(s, le) && (s == [] || le(x, s[0]))
    ensures forall j :: 0 <= j < |s| ==> le(x, s[j])
  {
    forall j | 0 <= j < |s| ensures le(x, s[j]) {
      if j > 0 {
        assert le(s[0], s[j]);
      }
    }
  }

  /** The head of s bounds everything that x was inserted among in the tail. */
  lemma TailBound<T(!new)>(x: T, s: seq<T>, r: seq<T>, le: (T, T) -> bool)
    requires TotalPreorder(le) && SortedBy(s, le) && s != [] && !le(x, s[0])
    requires multiset(r) == multiset(s[1..]) + multiset{x}
    ensures forall j :: 0 <= j < |r| ==> le(s[0], r[j])
  {
    forall j | 0 <= j < |r| ensures le(s[0], r[j]) {
      var y := r[j];
      assert y in multiset(r);
      if y != x {
        assert y in multiset(s[1..]);
        var i :| 0 <= i < |s[1..]| && s[1..][i] == y;
        assert s[i + 1] == y;
      }
    }
  }

  /** Inserts x into a sorted sequence, keeping it sorted. */
  function Insert<T(!new)>(x: T, s: seq<T>, le: (T, T) -> bool): (r: seq<T>)
    requires TotalPreorder(le) && SortedBy(s, le)
    ensures multiset(r) == multiset(s) + multiset{x}
    ensures SortedBy(r, le)
  {
    if s == [] || le(x, s[0]) then
      HeadBound(x, s, le);
      ConsSorted(x, s, le);
      [x] + s
    else
      var rest := s[1..];
      assert SortedBy(rest, le);
      var r' := Insert(x, rest, le);
      TailBound(x, s, r', le);
      ConsSorted(s[0], r', le);
      assert s == [s[0]] + rest;
      [s[0]] + r'
  }

  /** Insertion sort: a permutation of s that is sorted by le. */
  function SortBy<T(!new)>(s: seq<T>, le: (T, T) -> bool): (r: seq<T>)
    requires TotalPreorder(le)
    ensures multiset(r) == multiset(s)
    ensures SortedBy(r, le)
  {
    if s == [] then []
    else
      assert s == [s[0]] + s[1..];
      Insert(s[0], SortBy(s[1..], le), le)
  }

  /** a and b tie under le: each sorts no later than the other. */
  predicate Tie<T>(a: T, b: T, le: (T, T) -> bool) {
    le(a, b) && le(b, a)
  }

  /** The elements of s that tie with z, in their order in s. */
  function Tied<T>(s: seq<T>, z: T, le: (T, T) -> bool): (r: seq<T>)
    ensures |r| <= |s|
  {
    if s == [] then []
    else (if Tie(s[0], z, le) then [s[0]] else []) + Tied(s[1..], z, le)
  }

  /** x goes in front of every element it ties with. */
  lemma {:induction false} InsertTied<T(!new)>(x: T, s: seq<T>, z: T, le: (T, T) -> bool)
    requires TotalPreorder(le) && SortedBy(s, le)
    ensures Tied(Insert(x, s, le), z, le) == (if Tie(x, z, le) then [x] else []) + Tied(s, z, le)
  {
    if s == [] || le(x, s[0]) {
      assert ([x] + s)[1..] == s;
    } else {
      var rest := s[1..];
      assert SortedBy(rest, le);
      InsertTied(x, rest, z, le);
      var r := [s[0]] + Insert(x, rest, le);
      assert Insert(x, s, le) == r && r[1..] == Insert(x, rest, le);
    }
  }

  /** SortBy is stable: the elements that tie with any z come out in their input order. */
  lemma {:induction false} SortByStable<T(!new)>(s: seq<T>, le: (T, T) -> bool, z: T)
    requires TotalPreorder(le)
    ensures Tied(SortBy(s, le), z, le) == Tied(s, z, le)
  {
    if s != [] {
      SortByStable(s[1..], le, z);
      InsertTied(s[0], SortBy(s[1..], le), z, le);
    }
  }

  /** In a sorted sequence, whatever is in the first k elements sorts no later than
      whatever is not. */
  lemma SortedPrefixFirst<T>(s: seq<T>, k: nat, x: T, y: T, le: (T, T) -> bool)
    requires SortedBy(s, le) && k <= |s| && x in s[..k] && y in s && y !in s[..k]
    ensures le(x, y)
  {
    var i :| 0 <= i < k && s[..k][i] == x;
    var j :| 0 <= j < |s| && s[j] == y;
    PrefixIndex(s, k, j);
  }

  lemma PrefixIndex<T>(s: seq<T>, k: nat, j: nat)
    requires k <= |s| && j < |s|
    ensures j < k ==> s[j] in s[..k]
  {
    if j < k {
      assert s[..k][j] == s[j];
    }
  }

  // ---------------------------------------------------------------------------
  // Python string comparison

  /** a <= b in Python's ordering of str: lexicographic by code point. */
  predicate StrLe(a: string, b: string) {
    a == [] || (b != [] && (a[0] < b[0] || (a[0] == b[0] && StrLe(a[1..], b[1..]))))
  }

  lemma {:induction false} StrLeTotal(a: string, b: string)
    ensures StrLe(a, b) || StrLe(b, a)
  {
    if a != [] && b != [] && a[0] == b[0] {
      StrLeTotal(a[1..], b[1..]);
    }
  }

  lemma {:induction false} StrLeTransitive(a: string, b: string, c: string)
    requires StrLe(a, b) && StrLe(b, c)
    ensures StrLe(a, c)
  {
    if a != [] && a[0] == b[0] && b[0] == c[0] {
      StrLeTransitive(a[1..], b[1..], c[1..]);
    }
  }

  lemma {:induction false} StrLeAntisymmetric(a: string, b: string)
    requires StrLe(a, b) && StrLe(b, a)
    ensures a == b
  {
    if a != [] {
      StrLeAntisymmetric(a[1..], b[1..]);
      assert a == [a[0]] + a[1..] && b == [b[0]] + b[1..];
    }
  }

  lemma StrLeIsTotalPreorder()
    ensures TotalPreorder(StrLe)
  {
    forall a, b ensures StrLe(a, b) || StrLe(b, a) {
      StrLeTotal(a, b);
    }
    forall a, b, c | StrLe(a, b) && StrLe(b, c) ensures StrLe(a, c) {
      StrLeTransitive(a, b, c);
    }
  }

  /** sorted(set(xs)): the distinct strings of xs in increasing order. */
  method SortedUnique(xs: seq<string>) returns (r: seq<string>)
    ensures forall i, j :: 0 <= i < j < |r| ==> StrLe(r[i], r[j]) && r[i] != r[j]
    ensures forall x :: x in r <==> x in xs
  {
    var pending := set x | x in xs;
    var items: seq<string> := [];
    while pending != {}
      invariant forall x :: x in items || x in pending <==> x in xs
      invariant forall x :: x in items ==> x !in pending
      invariant forall i, j :: 0 <= i < j < |items| ==> items[i] != items[j]
      decreases |pending|
    {
      var x :| x in pending;
      items := items + [x];
      pending := pending - {x};
    }
    StrLeIsTotalPreorder();
    r := SortBy(items, StrLe);
    PermutationKeepsUnique(items, r);
  }

  lemma PermutationKeepsUnique<T>(s: seq<T>, r: seq<T>)
    requires forall i, j :: 0 <= i < j < |s| ==> s[i] != s[j]
    requires multiset(r) == multiset(s)
    ensures forall i, j :: 0 <= i < j < |r| ==> r[i] != r[j]
    ensures forall x :: x in r <==> x in s
  {
    forall x ensures multiset(r)[x] <= 1 {
      UniqueMultiplicity(s, x);
    }
    MultiplicityUnique(r);
    forall x ensures x in r <==> x in s {
      assert x in r <==> x in multiset(r);
      assert x in s <==> x in multiset(s);
    }
  }

  lemma UniqueMultiplicity<T>(s: seq<T>, x: T)
    requires forall i, j :: 0 <= i < j < |s| ==> s[i] != s[j]
    ensures multiset(s)[x] <= 1
  {
    if s != [] {
      assert s == [s[0]] + s[1..];
      UniqueMultiplicity(s[1..], x);
      if s[0] == x {
        assert x !in s[1..];
      }
    }
  }

  lemma MultiplicityUnique<T>(s: seq<T>)
    requires forall x :: multiset(s)[x] <= 1
    ensures forall i, j :: 0 <= i < j < |s| ==> s[i] != s[j]
  {
    if s != [] {
      assert s == [s[0]] + s[1..];
      assert multiset(s) == multiset{s[0]} + multiset(s[1..]);
      forall x ensures multiset(s[1..])[x] <= 1 {
        assert multiset(s)[x] <= 1;
      }
      MultiplicityUnique(s[1..]);
      assert multiset(s)[s[0]] <= 1;
      assert multiset(s[1..])[s[0]] == 0;
      assert s[0] !in s[1..];
      forall i, j | 0 <= i < j < |s| ensures s[i] != s[j] {
        if i > 0 {
          assert s[i] == s[1..][i - 1] && s[j] == s[1..][j - 1];
        } else {
          assert s[j] in s[1..];
        }
      }
    }
  }
}
