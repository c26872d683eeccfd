/** Multi-drug resistance patterns as a hypergraph: the distinct sets of resistant classes
    as hyperedges with their support, and the centrality of each class in that hypergraph. */
module Hypergraph {
  import opened Wrappers
  import opened Combinatorics
  import opened Ordering
  import opened Counter
  import opened Classification

  // ---------------------------------------------------------------------------
  // extract_hyperedges

  /** The classes an isolate is resistant to: the columns whose call is 1. Susceptible and
      missing calls are both left out. This is the corrected reading of the row loop; the
      loop as written raises on a missing call when there are two or more class columns
      (PatternAsWritten below). */
  function Pattern(classes: seq<string>, row: seq<Call>): (fs: set<string>)
    requires |row| == |classes|
  {
    set k | 0 <= k < |classes| && row[k] == Some(true) :: classes[k]
  }

  /** The pattern of every isolate, in row order. */
  function RowPatterns(t: ClassTable): (ps: seq<set<string>>)
    requires ClassTableValid(t)
    ensures |ps| == |t.rows|
  {
    seq(|t.rows|, i requires 0 <= i < |t.rows| => Pattern(t.classes, t.rows[i]))
  }

  predicate SizeInRange(p: set<string>, minSize: int, maxSize: int) {
    minSize <= |p| <= maxSize
  }

  /** The patterns whose size is within bounds, in order. */
  function Sized(ps: seq<set<string>>, minSize: int, maxSize: int): (r: seq<set<string>>)
    ensures forall p :: multiset(r)[p] == if SizeInRange(p, minSize, maxSize) then multiset(ps)[p] else 0
  {
    if ps == [] then []
    else
      var init, p := ps[..|ps| - 1], ps[|ps| - 1];
      assert ps == init + [p];
      Sized(init, minSize, maxSize) + (if SizeInRange(p, minSize, maxSize) then [p] else [])
  }

  /** A row of the hyperedge table: the pattern, its size, how many isolates show exactly
      that pattern, and that count as a fraction of all isolates. The display column
      joining the sorted class names is not modelled. */
  datatype HyperRow = HyperRow(members: set<string>, size: nat, count: nat, support: real)

  /** A count as a fraction of the n isolates. */
  function Share(count: nat, n: nat): real
    requires n > 0
  {
    count as real / n as real
  }

  /** rows holds, in order, the entries among the first j of most_common() whose share
      reaches min_support; src[i] is the entry row i came from. */
  ghost predicate Kept(counts: seq<Counted<set<string>>>, j: nat, n: nat, minSupport: real,
                       rows: seq<HyperRow>, src: seq<nat>) {
    && j <= |counts| && |src| == |rows| && (n > 0 || rows == [])
    && (forall i :: 0 <= i < |rows| ==>
          && src[i] < j && n > 0
          && rows[i] == HyperRow(counts[src[i]].key, |counts[src[i]].key|, counts[src[i]].count,
                                 Share(counts[src[i]].count, n))
          && rows[i].support >= minSupport)
    && (forall i, i' :: 0 <= i < i' < |rows| ==> src[i] < src[i'])
    && (forall k :: 0 <= k < j && n > 0 && Share(counts[k].count, n) >= minSupport ==>
          exists i :: 0 <= i < |rows| && src[i] == k)
  }

  lemma KeptStep(counts: seq<Counted<set<string>>>, j: nat, n: nat, minSupport: real,
                 rows: seq<HyperRow>, src: seq<nat>)
    requires Kept(counts, j, n, minSupport, rows, src) && j < |counts| && n > 0
    ensures var sup := Share(counts[j].count, n);
      if sup >= minSupport then
        Kept(counts, j + 1, n, minSupport,
             rows + [HyperRow(counts[j].key, |counts[j].key|, counts[j].count, sup)], src + [j])
      else Kept(counts, j + 1, n, minSupport, rows, src)
  {
    if Share(counts[j].count, n) >= minSupport {
      KeptTake(counts, j, n, minSupport, rows, src);
    }
  }

  lemma KeptTake(counts: seq<Counted<set<string>>>, j: nat, n: nat, minSupport: real,
                 rows: seq<HyperRow>, src: seq<nat>)
    requires Kept(counts, j, n, minSupport, rows, src) && j < |counts| && n > 0
    requires Share(counts[j].count, n) >= minSupport
    ensures Kept(counts, j + 1, n, minSupport,
                 rows + [HyperRow(counts[j].key, |counts[j].key|, counts[j].count, Share(counts[j].count, n))],
                 src + [j])
  {
    var rows' := rows + [HyperRow(counts[j].key, |counts[j].key|, counts[j].count, Share(counts[j].count, n))];
    var src' := src + [j];
    forall k | 0 <= k < j + 1 && Share(counts[k].count, n) >= minSupport
      ensures exists i :: 0 <= i < |rows'| && src'[i] == k
    {
      if k == j {
        assert src'[|rows|] == k;
      } else {
        var i :| 0 <= i < |rows| && src[i] == k;
        assert src'[i] == k;
      }
    }
  }

  /** r is a hyperedge of the table: a pattern within the size bounds, shown by exactly
      count isolates, whose share of all isolates reaches min_support. */
  predicate HyperedgeOf(t: ClassTable, r: HyperRow, minSize: int, maxSize: int, minSupport: real)
    requires ClassTableValid(t)
  {
    && |t.rows| > 0
    && r.size == |r.members| && minSize <= r.size <= maxSize
    && r.count == multiset(RowPatterns(t))[r.members]
    && r.support == r.count as real / |t.rows| as real && r.support >= minSupport
  }

  /** extract_hyperedges: one row per distinct pattern within the size bounds whose support
      reaches min_support, the most frequent first. A missing class call counts as not
      resistant (ExtractHyperedgesAsWritten is the code as written, which raises on one when there are
      two or more class columns). */
  method ExtractHyperedges(t: ClassTable, minSize: int, maxSize: int, minSupport: real)
      returns (rows: seq<HyperRow>)
    requires ClassTableValid(t)
    ensures forall i :: 0 <= i < |rows| ==> HyperedgeOf(t, rows[i], minSize, maxSize, minSupport)
    ensures forall p :: p in RowPatterns(t) && SizeInRange(p, minSize, maxSize)
                        && multiset(RowPatterns(t))[p] as real / |t.rows| as real >= minSupport ==>
      exists i :: 0 <= i < |rows| && rows[i].members == p
    ensures forall i, j :: 0 <= i < j < |rows| ==> rows[i].members != rows[j].members
    ensures forall i, j :: 0 <= i < j < |rows| ==> rows[i].count >= rows[j].count
  {
    var pats := SizedPatterns(t, minSize, maxSize);
    var counts := MostCommon(pats);
    assert |t.rows| == 0 ==> pats == [];
    assert |counts| > 0 ==> counts[0].key in pats;
    ghost var src;
    rows, src := KeepSupported(counts, |t.rows|, minSupport);
    RowsAreHyperedges(t, minSize, maxSize, minSupport, pats, counts, rows, src);
    RowsComplete(t, minSize, maxSize, minSupport, pats, counts, rows, src);
    RowsOrdered(counts, |t.rows|, minSupport, rows, src);
  }

  /** The loop over isolates: the pattern of each, when its size is within bounds. */
  method SizedPatterns(t: ClassTable, minSize: int, maxSize: int) returns (pats: seq<set<string>>)
    requires ClassTableValid(t)
    ensures pats == Sized(RowPatterns(t), minSize, maxSize)
  {
    ghost var ps := RowPatterns(t);
    pats := [];
    for i := 0 to |t.rows|
      invariant pats == Sized(ps[..i], minSize, maxSize)
    {
      var fs := Pattern(t.classes, t.rows[i]);
      assert fs == ps[i];
      SizedStep(ps, i, minSize, maxSize);
      if minSize <= |fs| <= maxSize {
        pats := pats + [fs];
      }
    }
    assert ps[..|t.rows|] == ps;
  }

  lemma SizedStep(ps: seq<set<string>>, i: nat, minSize: int, maxSize: int)
    requires i < |ps|
    ensures Sized(ps[..i + 1], minSize, maxSize)
         == Sized(ps[..i], minSize, maxSize) + (if SizeInRange(ps[i], minSize, maxSize) then [ps[i]] else [])
  {
    var q := ps[..i + 1];
    assert q[..|q| - 1] == ps[..i] && q[|q| - 1] == ps[i];
  }

  /** The loop over most_common(): the entries whose share of the n isolates reaches
      min_support. There are no entries when there are no isolates. */
  method KeepSupported(counts: seq<Counted<set<string>>>, n: nat, minSupport: real)
      returns (rows: seq<HyperRow>, ghost src: seq<nat>)
    requires n > 0 || counts == []
    ensures Kept(counts, |counts|, n, minSupport, rows, src)
  {
    rows, src := [], [];
    for j: nat := 0 to |counts|
      invariant Kept(counts, j, n, minSupport, rows, src)
    {
      var pat, cnt := counts[j].key, counts[j].count;
      var sup := cnt as real / n as real;
      KeptStep(counts, j, n, minSupport, rows, src);
      if sup >= minSupport {
        rows := rows + [HyperRow(pat, |pat|, cnt, sup)];
        src := src + [j];
      }
    }
  }

  lemma RowsAreHyperedges(t: ClassTable, minSize: int, maxSize: int, minSupport: real,
                          pats: seq<set<string>>, counts: seq<Counted<set<string>>>,
                          rows: seq<HyperRow>, src: seq<nat>)
    requires ClassTableValid(t)
    requires pats == Sized(RowPatterns(t), minSize, maxSize)
    requires MostCommonOf(counts, pats)
    requires Kept(counts, |counts|, |t.rows|, minSupport, rows, src)
    ensures forall i :: 0 <= i < |rows| ==> HyperedgeOf(t, rows[i], minSize, maxSize, minSupport)
  {
    forall i | 0 <= i < |rows| ensures HyperedgeOf(t, rows[i], minSize, maxSize, minSupport) {
      var c := counts[src[i]];
      assert c.key in pats;
      assert multiset(pats)[c.key] > 0;
    }
  }

  lemma RowsComplete(t: ClassTable, minSize: int, maxSize: int, minSupport: real,
                     pats: seq<set<string>>, counts: seq<Counted<set<string>>>,
                     rows: seq<HyperRow>, src: seq<nat>)
    requires ClassTableValid(t)
    requires pats == Sized(RowPatterns(t), minSize, maxSize)
    requires MostCommonOf(counts, pats)
    requires Kept(counts, |counts|, |t.rows|, minSupport, rows, src)
    ensures forall p :: p in RowPatterns(t) && SizeInRange(p, minSize, maxSize)
                        && multiset(RowPatterns(t))[p] as real / |t.rows| as real >= minSupport ==>
      exists i :: 0 <= i < |rows| && rows[i].members == p
  {
    var all := RowPatterns(t);
    forall p | p in all && SizeInRange(p, minSize, maxSize)
               && multiset(all)[p] as real / |t.rows| as real >= minSupport
      ensures exists i :: 0 <= i < |rows| && rows[i].members == p
    {
      assert multiset(pats)[p] == multiset(all)[p] > 0;
      assert p in pats;
      var k :| 0 <= k < |counts| && counts[k].key == p;
      assert Share(counts[k].count, |t.rows|) >= minSupport;
      var i :| 0 <= i < |rows| && src[i] == k;
      assert rows[i].members == p;
    }
  }

  lemma RowsOrdered(counts: seq<Counted<set<string>>>, n: nat, minSupport: real,
                    rows: seq<HyperRow>, src: seq<nat>)
    requires forall i, j :: 0 <= i < j < |counts| ==> counts[i].key != counts[j].key
    requires SortedBy(counts, CountGe)
    requires Kept(counts, |counts|, n, minSupport, rows, src)
    ensures forall i, j :: 0 <= i < j < |rows| ==> rows[i].members != rows[j].members
    ensures forall i, j :: 0 <= i < j < |rows| ==> rows[i].count >= rows[j].count
  {
    forall i, j | 0 <= i < j < |rows|
      ensures rows[i].members != rows[j].members && rows[i].count >= rows[j].count
    {
      assert src[i] < src[j];
      assert CountGe(counts[src[i]], counts[src[j]]);
    }
  }

  // ---------------------------------------------------------------------------
  // extract_hyperedges as written, on a class table with missing calls

  /** Every class call of the row is present. */
  predicate AllCalled(row: seq<Call>) {
    forall k :: 0 <= k < |row| ==> row[k].Some?
  }

  /** Some isolate has a missing class call (pandas NA in an Int8 column). */
  predicate HasMissing(t: ClassTable) {
    exists i :: 0 <= i < |t.rows| && !AllCalled(t.rows[i])
  }

  /** The pattern of a row that holds NA, as the generator computes it: it tests
      `row[c] == 1` for every column, and on a missing call that comparison is NA, whose
      truth value raises a TypeError. So such a row has a pattern only when none of its
      calls is missing, and then it is the corrected one. */
  function ObjectRowPattern(classes: seq<string>, row: seq<Call>): (r: Option<set<string>>)
    requires |row| == |classes|
    ensures r.None? <==> !AllCalled(row)
    ensures r.Some? ==> r.value == Pattern(classes, row)
  {
    if row == [] then Some({})
    else
      var n := |row| - 1;
      var init := ObjectRowPattern(classes[..n], row[..n]);
      PatternSnoc(classes, row);
      assert forall k :: 0 <= k < n ==> row[..n][k] == row[k];
      if init.None? || row[n].None? then None
      else if row[n] == Some(true) then Some(init.value + {classes[n]})
      else Some(init.value)
  }

  /** The pattern of one row as the loop as written computes it. iterrows builds each row
      from DataFrame.values. With two or more Int8 class columns that is an object array that
      keeps NA, and a missing call raises. With one class column it is that column's
      to_numpy(), which from pandas 2.2 on is float64 with NaN; NaN == 1 is False, so a
      missing call is simply not resistant. */
  function PatternAsWritten(classes: seq<string>, row: seq<Call>): (r: Option<set<string>>)
    requires |row| == |classes|
    ensures r.None? <==> |classes| >= 2 && !AllCalled(row)
    ensures r.Some? ==> r.value == Pattern(classes, row)
  {
    if |classes| >= 2 then ObjectRowPattern(classes, row) else Some(Pattern(classes, row))
  }

  lemma PatternSnoc(classes: seq<string>, row: seq<Call>)
    requires |row| == |classes| > 0
    ensures var n := |row| - 1;
      Pattern(classes, row)
        == Pattern(classes[..n], row[..n]) + (if row[n] == Some(true) then {classes[n]} else {})
  {
    var n := |row| - 1;
    var head := Pattern(classes[..n], row[..n]);
    forall c | c in Pattern(classes, row)
      ensures c in head + (if row[n] == Some(true) then {classes[n]} else {})
    {
      var k :| 0 <= k < |classes| && row[k] == Some(true) && classes[k] == c;
      if k < n {
        assert classes[..n][k] == c && row[..n][k] == Some(true);
      }
    }
    forall c | c in head ensures c in Pattern(classes, row) {
      var k :| 0 <= k < n && row[..n][k] == Some(true) && classes[..n][k] == c;
      assert row[k] == Some(true) && classes[k] == c;
    }
  }

  /** The row loop as written: with two or more class columns it stops with the TypeError
      at the first isolate with a missing call; otherwise it collects the same patterns as
      the corrected loop. */
  method SizedPatternsAsWritten(t: ClassTable, minSize: int, maxSize: int) returns (r: Result<seq<set<string>>>)
    requires ClassTableValid(t)
    ensures r.Err? <==> |t.classes| >= 2 && HasMissing(t)
    ensures r.Ok? ==> r.value == Sized(RowPatterns(t), minSize, maxSize)
  {
    ghost var ps := RowPatterns(t);
    var pats := [];
    for i := 0 to |t.rows|
      invariant pats == Sized(ps[..i], minSize, maxSize)
      invariant |t.classes| >= 2 ==> forall i' :: 0 <= i' < i ==> AllCalled(t.rows[i'])
    {
      var fs := PatternAsWritten(t.classes, t.rows[i]);
      if fs.None? {
        assert |t.classes| >= 2 && !AllCalled(t.rows[i]);
        return Err("TypeError: boolean value of NA is ambiguous");
      }
      assert fs.value == ps[i] && (|t.classes| >= 2 ==> AllCalled(t.rows[i]));
      SizedStep(ps, i, minSize, maxSize);
      if minSize <= |fs.value| <= maxSize {
        pats := pats + [fs.value];
      }
      assert |t.classes| >= 2 ==> forall i' :: 0 <= i' < i + 1 ==> AllCalled(t.rows[i']);
    }
    assert ps[..|t.rows|] == ps;
    assert |t.classes| >= 2 ==> !HasMissing(t);
    r := Ok(pats);
  }

  /** The hyperedge table of extract_hyperedges: every row a supported pattern within the
      bounds, every such pattern a row, distinct patterns, counts descending. */
  ghost predicate HyperedgeTable(t: ClassTable, rows: seq<HyperRow>, minSize: int, maxSize: int, minSupport: real)
    requires ClassTableValid(t)
  {
    && (forall i :: 0 <= i < |rows| ==> HyperedgeOf(t, rows[i], minSize, maxSize, minSupport))
    && (forall p :: p in RowPatterns(t) && SizeInRange(p, minSize, maxSize)
                    && multiset(RowPatterns(t))[p] as real / |t.rows| as real >= minSupport ==>
          exists i :: 0 <= i < |rows| && rows[i].members == p)
    && (forall i, j :: 0 <= i < j < |rows| ==> rows[i].members != rows[j].members)
    && (forall i, j :: 0 <= i < j < |rows| ==> rows[i].count >= rows[j].count)
  }

  /** extract_hyperedges as written: it raises exactly when there are two or more class
      columns and some isolate has a missing class call, and otherwise returns the table of
      ExtractHyperedges. */
  method ExtractHyperedgesAsWritten(t: ClassTable, minSize: int, maxSize: int, minSupport: real)
      returns (r: Result<seq<HyperRow>>)
    requires ClassTableValid(t)
    ensures r.Err? <==> |t.classes| >= 2 && HasMissing(t)
    ensures r.Ok? ==> HyperedgeTable(t, r.value, minSize, maxSize, minSupport)
  {
    var pats := SizedPatternsAsWritten(t, minSize, maxSize);
    if pats.Err? {
      return Err(pats.message);
    }
    var rows := ExtractHyperedges(t, minSize, maxSize, minSupport);
    r := Ok(rows);
  }

  /** One isolate, two classes, the first call missing and the second resistant: the code as
      written raises, while the corrected reading gives the isolate the pattern of its
      resistant class. */
  lemma MissingCallRaises()
    ensures var t := ClassTable(["Carbapenems", "Aminoglycosides"], [[None, Some(true)]]);
      && ClassTableValid(t) && HasMissing(t)
      && PatternAsWritten(t.classes, t.rows[0]) == None
      && RowPatterns(t) == [{"Aminoglycosides"}]
  {
    var t := ClassTable(["Carbapenems", "Aminoglycosides"], [[None, Some(true)]]);
    assert t.rows[0][0].None?;
    assert Pattern(t.classes, t.rows[0]) == {"Aminoglycosides"} by {
      assert t.classes[1] == "Aminoglycosides" && t.rows[0][1] == Some(true);
    }
  }

  /** One isolate, one class, its call missing: with a single class column the code as
      written reads NaN, does not raise, and agrees with the corrected reading. */
  lemma SingleClassMissingKept()
    ensures var t := ClassTable(["Carbapenems"], [[None]]);
      && ClassTableValid(t) && HasMissing(t)
      && PatternAsWritten(t.classes, t.rows[0]) == Some({})
  {
    var t := ClassTable(["Carbapenems"], [[None]]);
    assert t.rows[0][0].None?;
    assert Pattern(t.classes, t.rows[0]) == {};
  }

  /** The hyperedge table's (pattern, count) pairs. */
  function Counts(rows: seq<HyperRow>): (cs: seq<Counted<set<string>>>)
    ensures |cs| == |rows|
  {
    seq(|rows|, i requires 0 <= i < |rows| => Counted(rows[i].members, rows[i].count))
  }

  /** Distinct patterns counted against the table account for at most every isolate. */
  lemma HyperedgeCountsWithin(t: ClassTable, rows: seq<HyperRow>, minSize: int, maxSize: int, minSupport: real)
    requires ClassTableValid(t)
    requires forall i :: 0 <= i < |rows| ==> HyperedgeOf(t, rows[i], minSize, maxSize, minSupport)
    requires forall i, j :: 0 <= i < j < |rows| ==> rows[i].members != rows[j].members
    ensures TotalCount(Counts(rows)) <= |t.rows|
  {
    var cs := Counts(rows);
    TotalCountWithin(cs, multiset(RowPatterns(t)));
  }

  // ---------------------------------------------------------------------------
  // hypergraph_centrality

  /** How many hyperedges hold class c. */
  function ClassDegree(hs: seq<HyperRow>, c: string): nat {
    if hs == [] then 0
    else ClassDegree(hs[..|hs| - 1], c) + (if c in hs[|hs| - 1].members then 1 else 0)
  }

  /** The total support of the hyperedges holding class c. */
  function ClassWeight(hs: seq<HyperRow>, c: string): real {
    if hs == [] then 0.0
    else
      var h := hs[|hs| - 1];
      ClassWeight(hs[..|hs| - 1], c) + (if c in h.members then h.support else 0.0)
  }

  /** A hyperedge's contribution to size-weighted degree: its support times its size. */
  function SizeWeight(h: HyperRow): real {
    h.support * h.size as real
  }

  /** The total of support times size over the hyperedges holding class c. */
  function ClassSizeWeight(hs: seq<HyperRow>, c: string): real {
    if hs == [] then 0.0
    else
      var h := hs[|hs| - 1];
      ClassSizeWeight(hs[..|hs| - 1], c) + (if c in h.members then SizeWeight(h) else 0.0)
  }

  /** The three per-class tallies, keyed by class. */
  datatype Tallies = Tallies(deg: map<string, nat>, wd: map<string, real>, swd: map<string, real>)

  /** The tallies hold, for every class of classes, its centralities over hs. */
  predicate TalliesOver(tl: Tallies, classes: set<string>, hs: seq<HyperRow>) {
    && tl.deg.Keys == classes && tl.wd.Keys == classes && tl.swd.Keys == classes
    && forall c :: c in classes ==>
         && tl.deg[c] == ClassDegree(hs, c)
         && tl.wd[c] == ClassWeight(hs, c)
         && tl.swd[c] == ClassSizeWeight(hs, c)
  }

  /** tl' is tl after the members of h outside rest were added. */
  predicate AddedBut(tl: Tallies, tl': Tallies, h: HyperRow, rest: set<string>) {
    && tl.deg.Keys == tl.wd.Keys == tl.swd.Keys
    && tl'.deg.Keys == tl.deg.Keys && tl'.wd.Keys == tl.wd.Keys && tl'.swd.Keys == tl.swd.Keys
    && forall c :: c in tl.deg ==>
      var done := c in h.members && c !in rest;
      && tl'.deg[c] == tl.deg[c] + (if done then 1 else 0)
      && tl'.wd[c] == tl.wd[c] + (if done then h.support else 0.0)
      && tl'.swd[c] == tl.swd[c] + (if done then SizeWeight(h) else 0.0)
  }

  /** The inner loop over a hyperedge's members, in the set's own order: each tracked
      class it holds gains one degree, the hyperedge's support, and its support times its
      size. */
  method AddHyperedge(h: HyperRow, tl: Tallies) returns (tl': Tallies)
    requires tl.deg.Keys == tl.wd.Keys == tl.swd.Keys
    ensures AddedBut(tl, tl', h, {})
  {
    tl' := tl;
    var rest := h.members;
    while rest != {}
      invariant rest <= h.members && AddedBut(tl, tl', h, rest)
      decreases |rest|
    {
      var m :| m in rest;
      var next := tl';
      if m in tl'.deg {
        next := Tallies(tl'.deg[m := tl'.deg[m] + 1], tl'.wd[m := tl'.wd[m] + h.support],
                        tl'.swd[m := tl'.swd[m] + SizeWeight(h)]);
      }
      AddedStep(tl, tl', next, h, rest, m);
      tl', rest := next, rest - {m};
    }
  }

  lemma AddedStep(tl: Tallies, tl': Tallies, next: Tallies, h: HyperRow, rest: set<string>, m: string)
    requires tl.deg.Keys == tl.wd.Keys == tl.swd.Keys && m in rest && rest <= h.members
    requires AddedBut(tl, tl', h, rest)
    requires next == if m in tl'.deg then
        Tallies(tl'.deg[m := tl'.deg[m] + 1], tl'.wd[m := tl'.wd[m] + h.support],
                tl'.swd[m := tl'.swd[m] + SizeWeight(h)])
      else tl'
    ensures AddedBut(tl, next, h, rest - {m})
  {
  }

  /** The loop over hyperedges, from zero tallies for every class. */
  method TallyHyperedges(hs: seq<HyperRow>, classes: seq<string>) returns (tl: Tallies)
    ensures TalliesOver(tl, Elems(classes), hs)
  {
    tl := Tallies(map c | c in classes :: 0, map c | c in classes :: 0.0, map c | c in classes :: 0.0);
    for i := 0 to |hs|
      invariant TalliesOver(tl, Elems(classes), hs[..i])
    {
      var tl' := AddHyperedge(hs[i], tl);
      TalliesStep(tl, tl', Elems(classes), hs, i);
      tl := tl';
    }
    assert hs[..|hs|] == hs;
  }

  lemma TalliesStep(tl: Tallies, tl': Tallies, classes: set<string>, hs: seq<HyperRow>, i: nat)
    requires i < |hs| && TalliesOver(tl, classes, hs[..i])
    requires AddedBut(tl, tl', hs[i], {})
    ensures TalliesOver(tl', classes, hs[..i + 1])
  {
    var hs' := hs[..i + 1];
    assert hs'[..i] == hs[..i] && hs'[i] == hs[i];
    forall c | c in classes
      ensures tl'.deg[c] == ClassDegree(hs', c)
      ensures tl'.wd[c] == ClassWeight(hs', c)
      ensures tl'.swd[c] == ClassSizeWeight(hs', c)
    {
    }
  }

  /** A row of the centrality table. A normalised value is absent when its column's
      maximum is not positive, as the column itself is then not added. */
  datatype CentralityRow = CentralityRow(cls: string, degree: nat, weighted: real, sizeWeighted: real,
                                         degreeNorm: Option<real>, weightedNorm: Option<real>,
                                         sizeWeightedNorm: Option<real>)

  function DegreeValue(r: CentralityRow): real {
    r.degree as real
  }

  function WeightedValue(r: CentralityRow): real {
    r.weighted
  }

  function SizeWeightedValue(r: CentralityRow): real {
    r.sizeWeighted
  }

  function ClassOf(r: CentralityRow): string {
    r.cls
  }

  /** df[col].max() */
  function Max(vs: seq<real>): (m: real)
    requires vs != []
    ensures forall i :: 0 <= i < |vs| ==> vs[i] <= m
    ensures m in vs
  {
    if |vs| == 1 then vs[0]
    else
      var m' := Max(vs[1..]);
      assert forall i :: 1 <= i < |vs| ==> vs[i] == vs[1..][i - 1];
      if vs[0] >= m' then vs[0] else m'
  }

  /** A value's normalised companion, (value / max), present only when the max is positive. */
  function NormOf(v: real, mx: real): Option<real> {
    if mx > 0.0 then Some(v / mx) else None
  }

  /** A value no greater than its column's maximum normalises to at most 1, and to at least
      0 when it is not negative. */
  lemma NormOfBounds(v: real, mx: real)
    requires v <= mx
    ensures NormOf(v, mx).Some? <==> mx > 0.0
    ensures NormOf(v, mx).Some? ==> NormOf(v, mx).value <= 1.0 && (v >= 0.0 ==> NormOf(v, mx).value >= 0.0)
  {
  }

  predicate SizeWeightedGe(a: CentralityRow, b: CentralityRow) {
    a.sizeWeighted >= b.sizeWeighted
  }

  lemma SizeWeightedGeIsTotalPreorder()
    ensures TotalPreorder(SizeWeightedGe)
  {
  }

  /** r holds the centralities of its class over hs. */
  predicate CentralitiesOf(r: CentralityRow, hs: seq<HyperRow>) {
    && r.degree == ClassDegree(hs, r.cls)
    && r.weighted == ClassWeight(hs, r.cls)
    && r.sizeWeighted == ClassSizeWeight(hs, r.cls)
  }

  /** Every row's companions are its values normalised by their columns' maxima. */
  predicate Normalised(rows: seq<CentralityRow>)
    requires rows != []
  {
    var dmax, wmax, smax := Max(Project(rows, DegreeValue)), Max(Project(rows, WeightedValue)),
                            Max(Project(rows, SizeWeightedValue));
    forall i :: 0 <= i < |rows| ==>
      && rows[i].degreeNorm == NormOf(DegreeValue(rows[i]), dmax)
      && rows[i].weightedNorm == NormOf(WeightedValue(rows[i]), wmax)
      && rows[i].sizeWeightedNorm == NormOf(SizeWeightedValue(rows[i]), smax)
  }

  /** hypergraph_centrality: one row per entry of all_classes with its degree, weighted
      degree and size-weighted degree over the hyperedges, sorted by size-weighted degree
      in decreasing order, each with its normalised companions. */
  method HypergraphCentrality(hs: seq<HyperRow>, allClasses: seq<string>) returns (rows: seq<CentralityRow>)
    ensures |rows| == |allClasses|
    ensures multiset(Project(rows, ClassOf)) == multiset(allClasses)
    ensures forall i :: 0 <= i < |rows| ==> CentralitiesOf(rows[i], hs)
    ensures forall i, j :: 0 <= i < j < |rows| ==> rows[i].sizeWeighted >= rows[j].sizeWeighted
    ensures rows != [] ==> Normalised(rows)
  {
    if allClasses == [] {
      return [];
    }
    var tl := TallyHyperedges(hs, allClasses);
    var table := seq(|allClasses|, k requires 0 <= k < |allClasses| =>
      var c := allClasses[k];
      CentralityRow(c, tl.deg[c], tl.wd[c], tl.swd[c], None, None, None));
    assert Project(table, ClassOf) == allClasses;
    SizeWeightedGeIsTotalPreorder();
    var sorted := SortBy(table, SizeWeightedGe);
    SortedRows(hs, table, sorted);
    rows := Normalise(sorted);
    NormalisedKeeps(hs, sorted, rows);
  }

  lemma SortedRows(hs: seq<HyperRow>, table: seq<CentralityRow>, sorted: seq<CentralityRow>)
    requires forall k :: 0 <= k < |table| ==> CentralitiesOf(table[k], hs)
    requires multiset(sorted) == multiset(table)
    ensures |sorted| == |table|
    ensures multiset(Project(sorted, ClassOf)) == multiset(Project(table, ClassOf))
    ensures forall i :: 0 <= i < |sorted| ==> CentralitiesOf(sorted[i], hs)
  {
    assert |sorted| == |multiset(sorted)| == |table|;
    forall i | 0 <= i < |sorted| ensures CentralitiesOf(sorted[i], hs) {
      assert sorted[i] in multiset(table);
    }
    ProjectPermutation(sorted, table, ClassOf);
  }

  /** r and r' agree on the class and the three centralities. */
  predicate SameValues(r: CentralityRow, r': CentralityRow) {
    r.cls == r'.cls && r.degree == r'.degree && r.weighted == r'.weighted && r.sizeWeighted == r'.sizeWeighted
  }

  function WithNorms(r: CentralityRow, dmax: real, wmax: real, smax: real): (r': CentralityRow)
    ensures SameValues(r', r)
  {
    r.(degreeNorm := NormOf(DegreeValue(r), dmax), weightedNorm := NormOf(WeightedValue(r), wmax),
       sizeWeightedNorm := NormOf(SizeWeightedValue(r), smax))
  }

  /** The loop over the three columns: each gets its normalised companion. */
  method Normalise(sorted: seq<CentralityRow>) returns (rows: seq<CentralityRow>)
    requires sorted != []
    ensures |rows| == |sorted|
    ensures forall i :: 0 <= i < |rows| ==> SameValues(rows[i], sorted[i])
    ensures Normalised(rows)
  {
    var dmax := Max(Project(sorted, DegreeValue));
    var wmax := Max(Project(sorted, WeightedValue));
    var smax := Max(Project(sorted, SizeWeightedValue));
    rows := seq(|sorted|, i requires 0 <= i < |sorted| => WithNorms(sorted[i], dmax, wmax, smax));
    NormalisedRows(sorted, rows, dmax, wmax, smax);
  }

  lemma NormalisedRows(sorted: seq<CentralityRow>, rows: seq<CentralityRow>, dmax: real, wmax: real, smax: real)
    requires sorted != [] && |rows| == |sorted|
    requires forall i :: 0 <= i < |rows| ==> rows[i] == WithNorms(sorted[i], dmax, wmax, smax)
    requires dmax == Max(Project(sorted, DegreeValue))
    requires wmax == Max(Project(sorted, WeightedValue))
    requires smax == Max(Project(sorted, SizeWeightedValue))
    ensures forall i :: 0 <= i < |rows| ==> SameValues(rows[i], sorted[i])
    ensures Normalised(rows)
  {
    ProjectAgree(rows, sorted, DegreeValue);
    ProjectAgree(rows, sorted, WeightedValue);
    ProjectAgree(rows, sorted, SizeWeightedValue);
  }

  /** Adding the companions keeps what the sort established. */
  lemma NormalisedKeeps(hs: seq<HyperRow>, sorted: seq<CentralityRow>, rows: seq<CentralityRow>)
    requires |rows| == |sorted| && forall i :: 0 <= i < |rows| ==> SameValues(rows[i], sorted[i])
    requires forall i :: 0 <= i < |sorted| ==> CentralitiesOf(sorted[i], hs)
    requires SortedBy(sorted, SizeWeightedGe)
    ensures Project(rows, ClassOf) == Project(sorted, ClassOf)
    ensures forall i :: 0 <= i < |rows| ==> CentralitiesOf(rows[i], hs)
    ensures forall i, j :: 0 <= i < j < |rows| ==> rows[i].sizeWeighted >= rows[j].sizeWeighted
  {
    ProjectAgree(rows, sorted, ClassOf);
    forall i, j | 0 <= i < j < |rows| ensures rows[i].sizeWeighted >= rows[j].sizeWeighted {
      assert SizeWeightedGe(sorted[i], sorted[j]);
    }
  }

  /** Each normalised companion present is at most 1, not negative when its value is not,
      and present exactly when its column's maximum is positive. */
  lemma NormalisedBounds(rows: seq<CentralityRow>, i: nat)
    requires rows != [] && Normalised(rows) && i < |rows|
    ensures var dmax := Max(Project(rows, DegreeValue));
      && (rows[i].degreeNorm.Some? <==> dmax > 0.0)
      && (rows[i].degreeNorm.Some? ==> 0.0 <= rows[i].degreeNorm.value <= 1.0)
    ensures var wmax := Max(Project(rows, WeightedValue));
      && (rows[i].weightedNorm.Some? <==> wmax > 0.0)
      && (rows[i].weightedNorm.Some? ==> rows[i].weightedNorm.value <= 1.0)
      && (rows[i].weightedNorm.Some? && rows[i].weighted >= 0.0 ==> rows[i].weightedNorm.value >= 0.0)
    ensures var smax := Max(Project(rows, SizeWeightedValue));
      && (rows[i].sizeWeightedNorm.Some? <==> smax > 0.0)
      && (rows[i].sizeWeightedNorm.Some? ==> rows[i].sizeWeightedNorm.value <= 1.0)
      && (rows[i].sizeWeightedNorm.Some? && rows[i].sizeWeighted >= 0.0 ==> rows[i].sizeWeightedNorm.value >= 0.0)
  {
    NormOfBounds(DegreeValue(rows[i]), Max(Project(rows, DegreeValue)));
    NormOfBounds(WeightedValue(rows[i]), Max(Project(rows, WeightedValue)));
    NormOfBounds(SizeWeightedValue(rows[i]), Max(Project(rows, SizeWeightedValue)));
  }

  /** A class in no hyperedge has degree 0 and weights 0. */
  lemma {:induction false} ClassAbsent(hs: seq<HyperRow>, c: string)
    requires forall i :: 0 <= i < |hs| ==> c !in hs[i].members
    ensures ClassDegree(hs, c) == 0 && ClassWeight(hs, c) == 0.0 && ClassSizeWeight(hs, c) == 0.0
  {
    if hs != [] {
      ClassAbsent(hs[..|hs| - 1], c);
    }
  }

  /** The degrees of the classes of cs, added up. */
  function DegreeTotal(hs: seq<HyperRow>, cs: seq<string>): nat {
    if cs == [] then 0 else DegreeTotal(hs, cs[..|cs| - 1]) + ClassDegree(hs, cs[|cs| - 1])
  }

  /** The sizes of the hyperedges, added up. */
  function SizeTotal(hs: seq<HyperRow>): nat {
    if hs == [] then 0 else SizeTotal(hs[..|hs| - 1]) + |hs[|hs| - 1].members|
  }

  /** How many entries of cs lie in s. */
  function MemberCount(cs: seq<string>, s: set<string>): nat {
    if cs == [] then 0 else MemberCount(cs[..|cs| - 1], s) + (if cs[|cs| - 1] in s then 1 else 0)
  }

  lemma {:induction false} MemberCountIsSize(cs: seq<string>, s: set<string>)
    requires Distinct(cs)
    ensures MemberCount(cs, s) == |s * Elems(cs)|
  {
    if cs != [] {
      var init, x := cs[..|cs| - 1], cs[|cs| - 1];
      assert cs == init + [x];
      DistinctSnoc(init, x);
      MemberCountIsSize(init, s);
      if x in s {
        assert s * Elems(cs) == s * Elems(init) + {x};
      } else {
        assert s * Elems(cs) == s * Elems(init);
      }
    }
  }

  lemma {:induction false} DegreeTotalSnoc(hs: seq<HyperRow>, h: HyperRow, cs: seq<string>)
    ensures DegreeTotal(hs + [h], cs) == DegreeTotal(hs, cs) + MemberCount(cs, h.members)
  {
    if cs != [] {
      DegreeTotalSnoc(hs, h, cs[..|cs| - 1]);
      assert (hs + [h])[..|hs|] == hs;
    }
  }

  /** The hypergraph handshake: over distinct classes that cover every hyperedge, the
      degrees add up to the total size of the hyperedges. */
  lemma {:induction false} DegreeHandshake(hs: seq<HyperRow>, cs: seq<string>)
    requires Distinct(cs)
    requires forall i :: 0 <= i < |hs| ==> hs[i].members <= Elems(cs)
    ensures DegreeTotal(hs, cs) == SizeTotal(hs)
  {
    if hs == [] {
      DegreeTotalEmpty(cs);
    } else {
      var init, h := hs[..|hs| - 1], hs[|hs| - 1];
      assert hs == init + [h];
      DegreeHandshake(init, cs);
      DegreeTotalSnoc(init, h, cs);
      MemberCountIsSize(cs, h.members);
      assert h.members * Elems(cs) == h.members;
    }
  }

  lemma {:induction false} DegreeTotalEmpty(cs: seq<string>)
    ensures DegreeTotal([], cs) == 0
  {
    if cs != [] {
      DegreeTotalEmpty(cs[..|cs| - 1]);
    }
  }
}
