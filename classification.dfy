/** Drug-level phenotypes to class-level calls, the MDR indicator and spectrum, Bayesian
    prevalence and the probability of MDR under missing class calls
    (src/bactmdrprofiler/mdr/classification.py). A call is Some(true) for resistant (1),
    Some(false) for susceptible (0) and None for NA: missingness is never susceptibility. */
module Classification {
  import opened Wrappers
  import opened Combinatorics
  import opened Bernoulli

  type Call = Option<bool>

  /** A phenotype cell as read: empty, a number (a bool column reads as 1/0), or text that
      is not a number. */
  datatype RawCell = Blank | Number(value: real) | Text(text: string)

  /** Drug phenotype table: one column per drug, one row per isolate. */
  datatype DrugTable = DrugTable(drugs: seq<string>, rows: seq<seq<RawCell>>)

  /** Class phenotype table: one column per antibiotic class, one row per isolate. */
  datatype ClassTable = ClassTable(classes: seq<string>, rows: seq<seq<Call>>)

  predicate DrugTableValid(t: DrugTable) {
    Distinct(t.drugs) && forall i :: 0 <= i < |t.rows| ==> |t.rows[i]| == |t.drugs|
  }

  predicate ClassTableValid(t: ClassTable) {
    forall i :: 0 <= i < |t.rows| ==> |t.rows[i]| == |t.classes|
  }

  // ---------------------------------------------------------------------------
  // Counting calls

  /** How many cells of s hold v ((vals == 1).sum(), (vals == 0).sum(), isna().sum()). */
  function Count(s: seq<Call>, v: Call): nat {
    if s == [] then 0 else (if s[0] == v then 1 else 0) + Count(s[1..], v)
  }

  lemma {:induction false} CountPositive(s: seq<Call>, v: Call)
    ensures Count(s, v) > 0 <==> v in s
  {
    if s != [] {
      CountPositive(s[1..], v);
      assert v in s <==> s[0] == v || v in s[1..];
    }
  }

  lemma {:induction false} CountFull(s: seq<Call>, v: Call)
    ensures Count(s, v) == |s| <==> forall i :: 0 <= i < |s| ==> s[i] == v
  {
    if s != [] {
      CountFull(s[1..], v);
      CountBound(s[1..], v);
      if forall i :: 0 <= i < |s| ==> s[i] == v {
        assert forall i :: 0 <= i < |s[1..]| ==> s[1..][i] == v by {
          forall i | 0 <= i < |s[1..]| ensures s[1..][i] == v {
            assert s[1..][i] == s[i + 1];
          }
        }
      }
      if Count(s, v) == |s| {
        forall i | 0 <= i < |s| ensures s[i] == v {
          if i > 0 { assert s[i] == s[1..][i - 1]; }
        }
      }
    }
  }

  /** Every cell is resistant, susceptible or NA. */
  lemma {:induction false} CountPartition(s: seq<Call>)
    ensures Count(s, Some(true)) + Count(s, Some(false)) + Count(s, None) == |s|
  {
    if s != [] {
      CountPartition(s[1..]);
      CallCases(s[0]);
    }
  }

  lemma CallCases(c: Call)
    ensures c == Some(true) || c == Some(false) || c == None
  {
    if c.Some? {
      if c.value {
        assert c == Some(true);
      } else {
        assert c == Some(false);
      }
    }
  }

  lemma {:induction false} CountBound(s: seq<Call>, v: Call)
    ensures Count(s, v) <= |s|
  {
    if s != [] {
      CountBound(s[1..], v);
    }
  }

  /** full fills in every NA of vals with a definite call and keeps the others. */
  predicate Completes(full: seq<Call>, vals: seq<Call>) {
    && |full| == |vals|
    && (forall i :: 0 <= i < |full| ==> full[i].Some?)
    && (forall i :: 0 <= i < |full| ==> vals[i].Some? ==> full[i] == vals[i])
  }

  /** Every NA of vals replaced by Some(b). */
  function Fill(vals: seq<Call>, b: bool): (full: seq<Call>)
    ensures Completes(full, vals)
  {
    seq(|vals|, i requires 0 <= i < |vals| => if vals[i].None? then Some(b) else vals[i])
  }

  lemma {:induction false} CompletionCounts(full: seq<Call>, vals: seq<Call>)
    requires Completes(full, vals)
    ensures Count(vals, Some(true)) <= Count(full, Some(true)) <= Count(vals, Some(true)) + Count(vals, None)
    ensures Count(full, None) == 0
  {
    if vals != [] {
      assert Completes(full[1..], vals[1..]) by {
        forall i | 0 <= i < |full[1..]| ensures full[1..][i].Some? && (vals[1..][i].Some? ==> full[1..][i] == vals[1..][i]) {
          assert full[1..][i] == full[i + 1] && vals[1..][i] == vals[i + 1];
        }
      }
      CompletionCounts(full[1..], vals[1..]);
      assert full[0].Some?;
    }
  }

  lemma {:induction false} FillCounts(vals: seq<Call>, b: bool)
    ensures Count(Fill(vals, b), Some(b)) == Count(vals, Some(b)) + Count(vals, None)
    ensures Count(Fill(vals, b), Some(!b)) == Count(vals, Some(!b))
  {
    if vals != [] {
      assert Fill(vals, b)[1..] == Fill(vals[1..], b);
      FillCounts(vals[1..], b);
    }
  }

  /** A vector without NA is its own only completion. */
  lemma CompleteIsFixed(full: seq<Call>, vals: seq<Call>)
    requires Completes(full, vals) && None !in vals
    ensures full == vals
  {
    forall i | 0 <= i < |vals| ensures full[i] == vals[i] {
      assert vals[i] in vals;
    }
  }

  // ---------------------------------------------------------------------------
  // _to_binary

  /** A number is resistant when positive and susceptible otherwise; an empty cell stays NA;
      a non-numeric text cell is neither 1 nor 0 after coercion, which the class rules treat
      exactly like NA. */
  function ToBinary(c: RawCell): (r: Call)
    ensures r == Some(true) <==> c.Number? && c.value > 0.0
    ensures r == Some(false) <==> c.Number? && c.value <= 0.0
    ensures r.None? <==> !c.Number?
  {
    match c
    case Number(v) => Some(v > 0.0)
    case _ => None
  }

  // ---------------------------------------------------------------------------
  // Class rules

  datatype Rule = Any | All | Majority

  /** class_rule validation: one of "any", "all", "majority"; anything else is an error. */
  function ParseRule(name: string): (r: Result<Rule>)
    ensures r.Ok? <==> name == "any" || name == "all" || name == "majority"
    ensures r.Ok? ==> (r.value == Any <==> name == "any") && (r.value == All <==> name == "all")
  {
    if name == "any" then Ok(Any)
    else if name == "all" then Ok(All)
    else if name == "majority" then Ok(Majority)
    else Err("class_rule must be one of ('any', 'all', 'majority'), got '" + name + "'")
  }

  /** The class call for one isolate from the calls of the class's drugs present in the table. */
  function ClassCall(rule: Rule, vals: seq<Call>): Call {
    var nRes := Count(vals, Some(true));
    var nSus := Count(vals, Some(false));
    var nTested := nRes + nSus;
    var allTested := nTested == |vals|;
    match rule
    case Any =>
      var anyPos := nRes >= 1;
      var allNeg := allTested && nRes == 0;
      if anyPos then Some(true) else if allNeg then Some(false) else None
    case All =>
      var allPos := allTested && nRes == |vals|;
      var anyNeg := allTested && nSus >= 1;
      if allPos then Some(true) else if anyNeg then Some(false) else None
    case Majority =>
      var majorityPos := nTested > 0 && nRes as real > nTested as real / 2.0;
      var majorityNeg := allTested && nRes as real <= nTested as real / 2.0;
      if majorityPos then Some(true) else if majorityNeg then Some(false) else None
  }

  /** "any": resistant iff some drug is resistant; susceptible iff every drug was tested
      and found susceptible. */
  lemma AnyRule(vals: seq<Call>)
    ensures ClassCall(Any, vals) == Some(true) <==> Some(true) in vals
    ensures ClassCall(Any, vals) == Some(false) <==> forall i :: 0 <= i < |vals| ==> vals[i] == Some(false)
  {
    CountPositive(vals, Some(true));
    CountFull(vals, Some(false));
    CountPartition(vals);
  }

  /** "all": resistant iff every drug was tested resistant; NA exactly when some drug is
      untested, even when a tested susceptible drug already settles the call. */
  lemma AllRule(vals: seq<Call>)
    ensures ClassCall(All, vals) == Some(true) <==> forall i :: 0 <= i < |vals| ==> vals[i] == Some(true)
    ensures ClassCall(All, vals) == Some(false) <==> None !in vals && Some(false) in vals
    ensures ClassCall(All, vals).None? <==> None in vals
  {
    CountFull(vals, Some(true));
    CountPositive(vals, Some(false));
    CountPositive(vals, None);
    CountPartition(vals);
  }

  /** "majority": resistant iff more than half of the tested drugs are resistant;
      susceptible iff all were tested and at most half are resistant. */
  lemma MajorityRule(vals: seq<Call>)
    ensures ClassCall(Majority, vals) == Some(true)
        <==> 2 * Count(vals, Some(true)) > Count(vals, Some(true)) + Count(vals, Some(false))
    ensures ClassCall(Majority, vals) == Some(false)
        <==> None !in vals && 2 * Count(vals, Some(true)) <= |vals|
  {
    CountPositive(vals, None);
    CountPartition(vals);
  }

  /** The majority rule sits between "any" and "all", as documented. */
  lemma RulesNested(vals: seq<Call>)
    requires vals != []
    ensures ClassCall(All, vals) == Some(true) ==> ClassCall(Majority, vals) == Some(true)
    ensures ClassCall(Majority, vals) == Some(true) ==> ClassCall(Any, vals) == Some(true)
    ensures ClassCall(Any, vals) == Some(false) ==> ClassCall(Majority, vals) == Some(false)
    ensures ClassCall(Majority, vals) == Some(false) ==> ClassCall(All, vals) == Some(false)
  {
    AnyRule(vals);
    AllRule(vals);
    MajorityRule(vals);
    CountPositive(vals, Some(true));
    CountPositive(vals, Some(false));
    CountPartition(vals);
    CountFull(vals, Some(true));
    CountFull(vals, Some(false));
    if ClassCall(All, vals) == Some(true) {
      assert vals[0] == Some(true);
    }
  }

  /** "any" calls are never overturned by testing the untested drugs. */
  lemma AnyCallSound(vals: seq<Call>, full: seq<Call>)
    requires Completes(full, vals) && ClassCall(Any, vals).Some?
    ensures ClassCall(Any, full) == ClassCall(Any, vals)
  {
    AnyRule(vals);
    AnyRule(full);
    if ClassCall(Any, vals) == Some(true) {
      var i :| 0 <= i < |vals| && vals[i] == Some(true);
      assert full[i] == Some(true);
    } else {
      CompleteIsFixed(full, vals);
    }
  }

  /** An "any" NA is genuinely open: one completion calls resistant, another susceptible. */
  lemma AnyNaUndecided(vals: seq<Call>)
    requires ClassCall(Any, vals).None?
    ensures ClassCall(Any, Fill(vals, true)) == Some(true)
    ensures ClassCall(Any, Fill(vals, false)) == Some(false)
  {
    AnyRule(vals);
    AnyRule(Fill(vals, true));
    var i :| 0 <= i < |vals| && vals[i] != Some(false);
    assert vals[i] in vals;
    CallCases(vals[i]);
    assert Fill(vals, true)[i] == Some(true);
    forall q | 0 <= q < |vals| ensures Fill(vals, false)[q] == Some(false) {
      assert vals[q] in vals;
      CallCases(vals[q]);
    }
    AnyRule(Fill(vals, false));
  }

  /** "all" calls are never overturned by testing the untested drugs. */
  lemma AllCallSound(vals: seq<Call>, full: seq<Call>)
    requires Completes(full, vals) && ClassCall(All, vals).Some?
    ensures ClassCall(All, full) == ClassCall(All, vals)
  {
    AllRule(vals);
    CompleteIsFixed(full, vals);
  }

  /** "all" answers NA for [susceptible, untested] although every completion is susceptible. */
  lemma AllNaWhenDecided()
    ensures ClassCall(All, [Some(false), None]).None?
    ensures forall full :: Completes(full, [Some(false), None]) ==> ClassCall(All, full) == Some(false)
  {
    AllRule([Some(false), None]);
    forall full | Completes(full, [Some(false), None]) ensures ClassCall(All, full) == Some(false) {
      AllRule(full);
      assert full[0] == Some(false);
      assert None !in full by {
        forall i | 0 <= i < |full| ensures full[i] != None { }
      }
    }
  }

  /** A "majority" susceptible call is never overturned by testing the untested drugs. */
  lemma MajorityNegativeSound(vals: seq<Call>, full: seq<Call>)
    requires Completes(full, vals) && ClassCall(Majority, vals) == Some(false)
    ensures ClassCall(Majority, full) == Some(false)
  {
    MajorityRule(vals);
    CompleteIsFixed(full, vals);
  }

  /** A "majority" resistant call counts only tested drugs, so untested drugs can overturn it:
      [resistant, untested, untested] is called resistant, its completion
      [resistant, susceptible, susceptible] susceptible. */
  lemma MajorityPositiveOverturned()
    ensures ClassCall(Majority, [Some(true), None, None]) == Some(true)
    ensures Completes([Some(true), Some(false), Some(false)], [Some(true), None, None])
    ensures ClassCall(Majority, [Some(true), Some(false), Some(false)]) == Some(false)
  {
    MajorityRule([Some(true), None, None]);
    MajorityRule([Some(true), Some(false), Some(false)]);
  }

  // ---------------------------------------------------------------------------
  // build_class_matrix

  /** [d for d in drugs if d in columns]: order and repetitions of drugs kept. */
  function Present(drugs: seq<string>, columns: seq<string>): (r: seq<string>)
    ensures |r| <= |drugs|
  {
    if drugs == [] then []
    else (if drugs[0] in columns then [drugs[0]] else []) + Present(drugs[1..], columns)
  }

  /** A drug is kept iff it is in the class and is a column of the table. */
  lemma {:induction false} PresentMeaning(drugs: seq<string>, columns: seq<string>)
    ensures forall d :: d in Present(drugs, columns) <==> d in drugs && d in columns
  {
    if drugs != [] {
      PresentMeaning(drugs[1..], columns);
      assert drugs == [drugs[0]] + drugs[1..];
    }
  }

  /** Position of a column name. */
  function IndexOf(columns: seq<string>, d: string): (i: nat)
    requires d in columns
    ensures i < |columns| && columns[i] == d
  {
    if columns[0] == d then 0 else 1 + IndexOf(columns[1..], d)
  }

  /** The binary calls of isolate i on the given drugs (ph[present] for one row). */
  function DrugCalls(t: DrugTable, i: nat, present: seq<string>): (r: seq<Call>)
    requires DrugTableValid(t) && i < |t.rows|
    requires forall d :: d in present ==> d in t.drugs
    ensures |r| == |present|
  {
    seq(|present|, k requires 0 <= k < |present| => ToBinary(t.rows[i][IndexOf(t.drugs, present[k])]))
  }

  /** The classes that keep a column, each with its drugs present in the table, in the
      order of the class map. */
  function Matched(classMap: seq<(string, seq<string>)>, columns: seq<string>): (m: seq<(string, seq<string>)>)
    ensures forall k :: 0 <= k < |m| ==> forall d :: d in m[k].1 ==> d in columns
  {
    if classMap == [] then []
    else
      var init := Matched(classMap[..|classMap| - 1], columns);
      var last := classMap[|classMap| - 1];
      var present := Present(last.1, columns);
      PresentMeaning(last.1, columns);
      if present == [] then init else init + [(last.0, present)]
  }

  /** A class gets a column iff at least one of its drugs is a column of the table, and the
      column aggregates exactly those drugs. */
  lemma {:induction false} MatchedMeaning(classMap: seq<(string, seq<string>)>, columns: seq<string>)
    ensures var m := Matched(classMap, columns);
      && (forall k :: 0 <= k < |m| ==> m[k].1 != [] && exists j :: 0 <= j < |classMap| && m[k] == (classMap[j].0, Present(classMap[j].1, columns)))
      && (forall j :: 0 <= j < |classMap| && Present(classMap[j].1, columns) != [] ==> (classMap[j].0, Present(classMap[j].1, columns)) in m)
  {
    if classMap != [] {
      var init := classMap[..|classMap| - 1];
      MatchedMeaning(init, columns);
      var m := Matched(classMap, columns);
      var mi := Matched(init, columns);
      assert forall j :: 0 <= j < |init| ==> init[j] == classMap[j];
      forall k | 0 <= k < |m| ensures m[k].1 != [] && exists j :: 0 <= j < |classMap| && m[k] == (classMap[j].0, Present(classMap[j].1, columns)) {
        if k < |mi| {
          assert m[k] == mi[k];
          var j :| 0 <= j < |init| && mi[k] == (init[j].0, Present(init[j].1, columns));
          assert m[k] == (classMap[j].0, Present(classMap[j].1, columns));
        } else {
          assert m[k] == (classMap[|classMap| - 1].0, Present(classMap[|classMap| - 1].1, columns));
        }
      }
      forall j | 0 <= j < |classMap| && Present(classMap[j].1, columns) != [] ensures (classMap[j].0, Present(classMap[j].1, columns)) in m {
        if j < |init| {
          assert (init[j].0, Present(init[j].1, columns)) in mi;
        }
      }
    }
  }

  function Names(m: seq<(string, seq<string>)>): (r: seq<string>)
    ensures |r| == |m| && forall k :: 0 <= k < |m| ==> r[k] == m[k].0
  {
    seq(|m|, k requires 0 <= k < |m| => m[k].0)
  }

  /** Matched grows by at most one class per entry of the class map. */
  lemma MatchedStep(classMap: seq<(string, seq<string>)>, j: nat, columns: seq<string>)
    requires j < |classMap|
    ensures var present := Present(classMap[j].1, columns);
      Matched(classMap[..j + 1], columns)
        == if present == [] then Matched(classMap[..j], columns)
           else Matched(classMap[..j], columns) + [(classMap[j].0, present)]
  {
    assert classMap[..j + 1][..j] == classMap[..j];
  }

  /** Every cell of the partial matrix is the rule applied to the class's drug calls. */
  ghost predicate CellsAgree(t: DrugTable, cr: Rule, rows: seq<seq<Call>>, done: seq<(string, seq<string>)>)
    requires DrugTableValid(t)
  {
    && |rows| == |t.rows|
    && (forall k :: 0 <= k < |done| ==> forall d :: d in done[k].1 ==> d in t.drugs)
    && (forall i :: 0 <= i < |rows| ==> |rows[i]| == |done|)
    && (forall i, k :: 0 <= i < |rows| && 0 <= k < |done| ==> rows[i][k] == ClassCall(cr, DrugCalls(t, i, done[k].1)))
  }

  /** One new column: each isolate's row gets the rule applied to its calls on `present`. */
  method AddClassColumn(t: DrugTable, cr: Rule, rows: seq<seq<Call>>, ghost done: seq<(string, seq<string>)>,
                        cls: string, present: seq<string>) returns (rows': seq<seq<Call>>)
    requires DrugTableValid(t) && CellsAgree(t, cr, rows, done)
    requires forall d :: d in present ==> d in t.drugs
    ensures CellsAgree(t, cr, rows', done + [(cls, present)])
  {
    rows' := seq(|rows|, i requires 0 <= i < |rows| => rows[i] + [ClassCall(cr, DrugCalls(t, i, present))]);
    var done' := done + [(cls, present)];
    forall i, k | 0 <= i < |rows'| && 0 <= k < |done'|
      ensures rows'[i][k] == ClassCall(cr, DrugCalls(t, i, done'[k].1))
    {
      if k < |done| {
        assert rows'[i][k] == rows[i][k];
      }
    }
  }

  lemma NamesSnoc(m: seq<(string, seq<string>)>, e: (string, seq<string>))
    ensures Names(m + [e]) == Names(m) + [e.0]
  {
  }

  /** Class names are keys of a dict, so the matrix's columns never repeat: every matched
      name comes from the class map, in the class map's order. */
  lemma {:induction false} MatchedNamesDistinct(classMap: seq<(string, seq<string>)>, columns: seq<string>)
    requires Distinct(Names(classMap))
    ensures Distinct(Names(Matched(classMap, columns)))
    ensures forall x :: x in Names(Matched(classMap, columns)) ==> x in Names(classMap)
  {
    if classMap != [] {
      var n := |classMap| - 1;
      var init, last := classMap[..n], classMap[n];
      assert classMap == init + [last];
      NamesSnoc(init, last);
      DistinctSnoc(Names(init), last.0);
      MatchedNamesDistinct(init, columns);
      var mi := Matched(init, columns);
      var present := Present(last.1, columns);
      if present != [] {
        NamesSnoc(mi, (last.0, present));
        DistinctSnoc(Names(mi), last.0);
      }
    }
  }

  /** The loop of build_class_matrix over the class map, for a parsed rule. */
  method AggregateClasses(t: DrugTable, cr: Rule, classMap: seq<(string, seq<string>)>)
    returns (classes: seq<string>, rows: seq<seq<Call>>)
    requires DrugTableValid(t)
    ensures classes == Names(Matched(classMap, t.drugs))
    ensures CellsAgree(t, cr, rows, Matched(classMap, t.drugs))
  {
    classes := [];
    rows := seq(|t.rows|, i => []);
    ghost var done: seq<(string, seq<string>)> := [];
    var j := 0;
    while j < |classMap|
      invariant 0 <= j <= |classMap|
      invariant done == Matched(classMap[..j], t.drugs)
      invariant classes == Names(done)
      invariant CellsAgree(t, cr, rows, done)
    {
      MatchedStep(classMap, j, t.drugs);
      var (cls, drugs) := classMap[j];
      var present := Present(drugs, t.drugs);
      PresentMeaning(drugs, t.drugs);
      if present != [] {
        rows := AddClassColumn(t, cr, rows, done, cls, present);
        classes := classes + [cls];
        done := done + [(cls, present)];
      }
      j := j + 1;
    }
    assert classMap[..j] == classMap;
  }

  /** build_class_matrix: an unknown rule is an error; otherwise one column per class with
      at least one drug in the table, and every cell is the rule applied to that isolate's
      calls on the class's present drugs. Isolates (rows) are kept as they are. */
  method BuildClassMatrix(t: DrugTable, classMap: seq<(string, seq<string>)>, rule: string)
    returns (r: Result<ClassTable>)
    requires DrugTableValid(t)
    requires Distinct(Names(classMap))
    ensures ParseRule(rule).Err? <==> r.Err?
    ensures r.Ok? ==>
      var m := Matched(classMap, t.drugs);
      && r.value.classes == Names(m)
      && Distinct(r.value.classes)
      && |r.value.rows| == |t.rows|
      && ClassTableValid(r.value)
      && forall i, k :: 0 <= i < |t.rows| && 0 <= k < |m| ==>
           r.value.rows[i][k] == ClassCall(ParseRule(rule).value, DrugCalls(t, i, m[k].1))
  {
    var parsed := ParseRule(rule);
    if parsed.Err? {
      return Err(parsed.message);
    }
    var classes, rows := AggregateClasses(t, parsed.value, classMap);
    MatchedNamesDistinct(classMap, t.drugs);
    r := Ok(ClassTable(classes, rows));
  }

  // ---------------------------------------------------------------------------
  // identify_mdr

  /** The three masked assignments of identify_mdr on one isolate. */
  function MdrCall(row: seq<Call>, threshold: int): Call {
    var minRes := Count(row, Some(true));
    var maxRes := minRes + Count(row, None);
    var out: Call := Some(false);
    var out := if minRes >= threshold then Some(true) else out;
    var out := if maxRes < threshold then Some(false) else out;
    if minRes < threshold && maxRes >= threshold then None else out
  }

  lemma MdrCallMeaning(row: seq<Call>, threshold: int)
    ensures MdrCall(row, threshold) == Some(true) <==> Count(row, Some(true)) >= threshold
    ensures MdrCall(row, threshold) == Some(false) <==> Count(row, Some(true)) + Count(row, None) < threshold
  {
  }

  /** A definite MDR call agrees with every way of filling in the missing class calls. */
  lemma MdrCallSound(row: seq<Call>, full: seq<Call>, threshold: int)
    requires Completes(full, row) && MdrCall(row, threshold).Some?
    ensures MdrCall(full, threshold) == MdrCall(row, threshold)
  {
    CompletionCounts(full, row);
  }

  /** An NA is genuinely open: filling the gaps with resistant makes the isolate MDR,
      filling them with susceptible does not. */
  lemma MdrCallNaUndecided(row: seq<Call>, threshold: int)
    requires MdrCall(row, threshold).None?
    ensures MdrCall(Fill(row, true), threshold) == Some(true)
    ensures MdrCall(Fill(row, false), threshold) == Some(false)
  {
    FillCounts(row, true);
    FillCounts(row, false);
    CompletionCounts(Fill(row, true), row);
    CompletionCounts(Fill(row, false), row);
  }

  /** identify_mdr: True iff at least threshold classes are known resistant, False iff
      even counting every missing class as resistant stays below threshold, NA otherwise. */
  function IdentifyMdr(t: ClassTable, threshold: int): (r: seq<Call>)
    ensures |r| == |t.rows|
    ensures forall i :: 0 <= i < |r| ==>
      && (r[i] == Some(true) <==> Count(t.rows[i], Some(true)) >= threshold)
      && (r[i] == Some(false) <==> Count(t.rows[i], Some(true)) + Count(t.rows[i], None) < threshold)
  {
    MdrCallsMeaning(t.rows, threshold);
    seq(|t.rows|, i requires 0 <= i < |t.rows| => MdrCall(t.rows[i], threshold))
  }

  lemma MdrCallsMeaning(rows: seq<seq<Call>>, threshold: int)
    ensures forall i :: 0 <= i < |rows| ==>
      && (MdrCall(rows[i], threshold) == Some(true) <==> Count(rows[i], Some(true)) >= threshold)
      && (MdrCall(rows[i], threshold) == Some(false) <==> Count(rows[i], Some(true)) + Count(rows[i], None) < threshold)
  {
    forall i | 0 <= i < |rows| {
      MdrCallMeaning(rows[i], threshold);
    }
  }

  // ---------------------------------------------------------------------------
  // mdr_spectrum

  datatype Category = Susceptible | MDR | XDR | PDR

  function Rank(c: Category): nat {
    match c
    case Susceptible => 0
    case MDR => 1
    case XDR => 2
    case PDR => 3
  }

  /** cat(s) of mdr_spectrum: checked from the top, PDR, XDR (all but at most two classes),
      MDR (threshold), susceptible. */
  function Categorize(s: int, nClasses: int, threshold: int): Category {
    if s >= nClasses then PDR
    else if s >= nClasses - 2 then XDR
    else if s >= threshold then MDR
    else Susceptible
  }

  /** More resistant classes never give a lower category. */
  lemma CategorizeMonotone(s1: int, s2: int, nClasses: int, threshold: int)
    requires s1 <= s2
    ensures Rank(Categorize(s1, nClasses, threshold)) <= Rank(Categorize(s2, nClasses, threshold))
  {
  }

  datatype SpectrumRow = SpectrumRow(minRes: nat, maxRes: nat, definite: Category, possible: Category,
                                     total: nat, missing: nat)

  /** mdr_spectrum: the resistant-class count bounds, their categories, and the totals. */
  function MdrSpectrum(t: ClassTable, threshold: int): (r: seq<SpectrumRow>)
    requires ClassTableValid(t)
    ensures |r| == |t.rows|
    ensures forall i :: 0 <= i < |r| ==>
      && r[i].minRes == Count(t.rows[i], Some(true))
      && r[i].missing == Count(t.rows[i], None)
      && r[i].minRes <= r[i].maxRes == r[i].minRes + r[i].missing <= r[i].total == |t.classes|
      && Rank(r[i].definite) <= Rank(r[i].possible)
  {
    var n := |t.classes|;
    CountPartitionAll(t.rows);
    seq(|t.rows|, i requires 0 <= i < |t.rows| =>
      var minRes := Count(t.rows[i], Some(true));
      var missing := Count(t.rows[i], None);
      SpectrumRow(minRes, minRes + missing, Categorize(minRes, n, threshold),
                  Categorize(minRes + missing, n, threshold), n, missing))
  }

  lemma CountPartitionAll(rows: seq<seq<Call>>)
    ensures forall i :: 0 <= i < |rows| ==>
      Count(rows[i], Some(true)) + Count(rows[i], Some(false)) + Count(rows[i], None) == |rows[i]|
  {
    forall i | 0 <= i < |rows| {
      CountPartition(rows[i]);
    }
  }

  /** The spectrum agrees with identify_mdr one way: a definitely MDR isolate is never
      definitely susceptible, and a possibly-susceptible isolate is definitely not MDR. */
  lemma SpectrumAgreesWithMdr(t: ClassTable, threshold: int, i: nat)
    requires ClassTableValid(t) && i < |t.rows|
    ensures IdentifyMdr(t, threshold)[i] == Some(true) ==> MdrSpectrum(t, threshold)[i].definite != Susceptible
    ensures MdrSpectrum(t, threshold)[i].possible == Susceptible ==> IdentifyMdr(t, threshold)[i] == Some(false)
  {
  }

  /** The other way fails when there are few classes: with four classes and threshold 3, an
      isolate resistant to two classes and susceptible to the rest is definitely not MDR
      yet its definite category is XDR, since n_classes - 2 is checked before threshold. */
  lemma XdrWithoutMdr()
    ensures MdrSpectrum(ClassTable(["A", "B", "C", "D"], [[Some(true), Some(true), Some(false), Some(false)]]), 3)[0].definite == XDR
    ensures IdentifyMdr(ClassTable(["A", "B", "C", "D"], [[Some(true), Some(true), Some(false), Some(false)]]), 3)[0] == Some(false)
  {
    var row := [Some(true), Some(true), Some(false), Some(false)];
    assert Count(row, Some(true)) == 2;
    assert Count(row, None) == 0;
  }

  // ---------------------------------------------------------------------------
  // bayesian_prevalence

  datatype Posterior = Posterior(mean: real, mode: real)

  /** Beta(prior_a, prior_b) prior updated with positives out of total; no estimate (NaN)
      when nothing was observed. */
  function BayesianPrevalence(positives: int, total: int, priorA: real, priorB: real): (r: Option<Posterior>)
    requires total > 0 ==> priorA + priorB + total as real != 0.0
    ensures r.None? <==> total <= 0
  {
    if total <= 0 then None
    else
      var pa := priorA + positives as real;
      var pb := priorB + (total - positives) as real;
      var mean := pa / (pa + pb);
      var mode := if pa > 1.0 && pb > 1.0 then (pa - 1.0) / (pa + pb - 2.0) else mean;
      Some(Posterior(mean, mode))
  }

  /** The posterior mean shrinks the observed proportion towards the prior mean: it is their
      weighted average with weight (a + b) / (a + b + n) on the prior, so it lies strictly
      inside (0, 1) even for 0 or n positives. */
  lemma PosteriorMeanShrinks(positives: nat, total: nat, priorA: real, priorB: real)
    requires 0 < total && positives <= total && priorA > 0.0 && priorB > 0.0
    ensures var w := (priorA + priorB) / (priorA + priorB + total as real);
      BayesianPrevalence(positives, total, priorA, priorB).value.mean
        == w * (priorA / (priorA + priorB)) + (1.0 - w) * (positives as real / total as real)
    ensures 0.0 < BayesianPrevalence(positives, total, priorA, priorB).value.mean < 1.0
  {
    var a, b, n, k := priorA, priorB, total as real, positives as real;
    var s := a + b + n;
    assert (a + k) + (b + (total - positives) as real) == s;
    ScaleFraction(a + b, a, s);
    ComplementFraction(a + b, n, s);
    ScaleFraction(n, k, s);
    AddFraction(a, k, s);
    FractionInUnit(a + k, s);
  }

  /** The reported mode is a proper proportion too. */
  lemma PosteriorModeInUnit(positives: nat, total: nat, priorA: real, priorB: real)
    requires 0 < total && positives <= total && priorA > 0.0 && priorB > 0.0
    ensures 0.0 < BayesianPrevalence(positives, total, priorA, priorB).value.mode < 1.0
  {
    PosteriorMeanShrinks(positives, total, priorA, priorB);
    var pa := priorA + positives as real;
    var pb := priorB + (total - positives) as real;
    if pa > 1.0 && pb > 1.0 {
      FractionInUnit(pa - 1.0, pa + pb - 2.0);
    }
  }

  // ---------------------------------------------------------------------------
  // Fractions

  lemma PositiveFraction(x: real, y: real)
    requires 0.0 < x && 0.0 < y
    ensures 0.0 < x / y
  {
    assert (x / y) * y == x;
  }

  lemma FractionInUnit(x: real, y: real)
    requires 0.0 < x < y
    ensures 0.0 < x / y < 1.0
  {
    PositiveFraction(x, y);
    PositiveFraction(y - x, y);
    assert x / y + (y - x) / y == (x + (y - x)) / y == y / y == 1.0;
  }

  lemma ScaleFraction(u: real, v: real, s: real)
    requires u > 0.0 && s > 0.0
    ensures (u / s) * (v / u) == v / s
  {
    assert (u / s) * (v / u) == (u * v) / (s * u);
  }

  lemma ComplementFraction(u: real, n: real, s: real)
    requires s > 0.0 && s == u + n
    ensures 1.0 - u / s == n / s
  {
    assert u / s + n / s == (u + n) / s;
  }

  lemma AddFraction(x: real, y: real, s: real)
    requires s > 0.0
    ensures (x + y) / s == x / s + y / s
  {
  }

  // ---------------------------------------------------------------------------
  // prevalence_table

  function Column(t: ClassTable, k: nat): (c: seq<Call>)
    requires ClassTableValid(t) && k < |t.classes|
    ensures |c| == |t.rows|
  {
    seq(|t.rows|, i requires 0 <= i < |t.rows| => t.rows[i][k])
  }

  datatype PrevalenceRow = PrevalenceRow(cls: string, positive: nat, observed: nat, all: nat,
                                         missing: int, posterior: Option<Posterior>)

  /** prevalence_table: per class, the resistant count among the isolates tested for it,
      how many were tested and untested, and the Jeffreys-prior posterior. */
  method PrevalenceTable(t: ClassTable) returns (rows: seq<PrevalenceRow>)
    requires ClassTableValid(t)
    ensures |rows| == |t.classes|
    ensures forall k :: 0 <= k < |rows| ==>
      && rows[k].cls == t.classes[k]
      && rows[k].all == |t.rows|
      && rows[k].positive == Count(Column(t, k), Some(true))
      && rows[k].observed == Count(Column(t, k), Some(true)) + Count(Column(t, k), Some(false))
      && rows[k].missing == Count(Column(t, k), None)
      && rows[k].posterior == BayesianPrevalence(rows[k].positive, rows[k].observed, 0.5, 0.5)
    ensures forall k :: 0 <= k < |rows| ==>
      && rows[k].positive <= rows[k].observed <= rows[k].all
      && (rows[k].posterior.None? <==> rows[k].observed == 0)
      && (rows[k].posterior.Some? ==> 0.0 < rows[k].posterior.value.mean < 1.0)
  {
    rows := [];
    var nAll := |t.rows|;
    var k := 0;
    while k < |t.classes|
      invariant 0 <= k <= |t.classes|
      invariant |rows| == k
      invariant forall q :: 0 <= q < k ==>
        && rows[q].cls == t.classes[q]
        && rows[q].all == nAll
        && rows[q].positive == Count(Column(t, q), Some(true))
        && rows[q].observed == Count(Column(t, q), Some(true)) + Count(Column(t, q), Some(false))
        && rows[q].missing == Count(Column(t, q), None)
        && rows[q].posterior == BayesianPrevalence(rows[q].positive, rows[q].observed, 0.5, 0.5)
        && rows[q].positive <= rows[q].observed <= rows[q].all
        && (rows[q].posterior.Some? ==> 0.0 < rows[q].posterior.value.mean < 1.0)
    {
      var col := Column(t, k);
      var pos := Count(col, Some(true));
      var obs := pos + Count(col, Some(false));
      CountPartition(col);
      var miss := nAll - obs;
      var bp := BayesianPrevalence(pos, obs, 0.5, 0.5);
      if obs > 0 {
        PosteriorMeanShrinks(pos, obs, 0.5, 0.5);
      }
      rows := rows + [PrevalenceRow(t.classes[k], pos, obs, nAll, miss, bp)];
      k := k + 1;
    }
  }

  // ---------------------------------------------------------------------------
  // mdr_probability

  /** p_class: the resistant fraction among isolates tested for class k, 0 when none was
      tested (fillna(0.0)); the clip to [0, 1] never changes it. */
  function ClassPrior(t: ClassTable, k: nat): (p: real)
    requires ClassTableValid(t) && k < |t.classes|
    ensures 0.0 <= p <= 1.0
  {
    var pos := Count(Column(t, k), Some(true));
    var obs := pos + Count(Column(t, k), Some(false));
    if obs == 0 then 0.0 else pos as real / obs as real
  }

  /** p_class of the classes missing for isolate i, in column order. */
  function MissingPriors(t: ClassTable, i: nat): (ps: seq<real>)
    requires ClassTableValid(t) && i < |t.rows|
    ensures Probabilities(ps)
    ensures |ps| == Count(t.rows[i], None)
  {
    MissingPriorsFrom(t, i, 0)
  }

  function MissingPriorsFrom(t: ClassTable, i: nat, k: nat): (ps: seq<real>)
    requires ClassTableValid(t) && i < |t.rows| && k <= |t.classes|
    ensures Probabilities(ps)
    ensures |ps| == Count(t.rows[i][k..], None)
    decreases |t.classes| - k
  {
    if k == |t.classes| then []
    else
      assert t.rows[i][k..][1..] == t.rows[i][k + 1..];
      (if t.rows[i][k].None? then [ClassPrior(t, k)] else []) + MissingPriorsFrom(t, i, k + 1)
  }

  /** np.convolve(dist, [1 - p, p]): the count distribution after one more trial. */
  function Conv(d: seq<real>, p: real): (r: seq<real>)
    ensures |r| == |d| + 1
  {
    seq(|d| + 1, k requires 0 <= k <= |d| => Mix(p, Get(d, k - 1), Get(d, k)))
  }

  function Get(d: seq<real>, k: int): real {
    if 0 <= k < |d| then d[k] else 0.0
  }

  /** The distribution the loop of mdr_probability builds: [1.0] convolved with every trial. */
  function Dist(ps: seq<real>): (d: seq<real>)
    ensures |d| == |ps| + 1
  {
    if ps == [] then [1.0] else Conv(Dist(ps[..|ps| - 1]), ps[|ps| - 1])
  }

  /** dist[need:].sum() if need < len(dist) else 0.0, for any need (a negative need sums
      the whole distribution, as the clamp max(0, .) does). */
  function Tail(d: seq<real>, need: int): real {
    if need >= |d| then 0.0 else if need <= 0 then Sum(d) else Sum(d[need..])
  }

  lemma TailStep(d: seq<real>, k: int)
    ensures Tail(d, k) == Get(d, k) + Tail(d, k + 1)
  {
    if 0 <= k < |d| {
      assert d[k..][1..] == d[k + 1..];
      assert d[0..] == d;
      assert Sum(d[k..]) == d[k] + Sum(d[k..][1..]);
      if k + 1 == |d| {
        assert d[k + 1..] == [];
        assert Sum(d[k + 1..]) == 0.0;
      }
    }
  }

  lemma {:induction false} TailConvFrom(d: seq<real>, p: real, k: int)
    requires -1 <= k <= |d| + 1
    ensures Tail(Conv(d, p), k) == Mix(p, Tail(d, k - 1), Tail(d, k))
    decreases |d| + 1 - k
  {
    var c := Conv(d, p);
    if k > |d| {
      assert Tail(d, k - 1) == 0.0 && Tail(d, k) == 0.0;
      MixSame(p, 0.0);
    } else {
      TailConvFrom(d, p, k + 1);
      TailStep(c, k);
      TailStep(d, k - 1);
      TailStep(d, k);
      assert Get(c, k) == Mix(p, Get(d, k - 1), Get(d, k));
      MixAdd(p, Get(d, k - 1), Get(d, k), Tail(d, k), Tail(d, k + 1));
    }
  }

  /** One convolution step conditions on the new trial, as AtLeast does. */
  lemma TailConv(d: seq<real>, p: real, need: int)
    ensures Tail(Conv(d, p), need) == Mix(p, Tail(d, need - 1), Tail(d, need))
  {
    if need > |d| + 1 {
      MixSame(p, 0.0);
    } else if need < -1 {
      TailConvFrom(d, p, -1);
      assert Tail(Conv(d, p), need) == Tail(Conv(d, p), -1);
    } else {
      TailConvFrom(d, p, need);
    }
  }

  /** The convolution of mdr_probability computes the reference probability: the tail of
      the distribution from need on is P(at least need of the missing classes resistant). */
  lemma {:induction false} TailIsAtLeast(ps: seq<real>, need: int)
    ensures Tail(Dist(ps), need) == AtLeast(ps, need)
    decreases |ps|
  {
    if ps == [] {
      assert Sum([1.0]) == 1.0 + Sum([1.0][1..]);
    } else {
      var rest := ps[..|ps| - 1];
      TailConv(Dist(rest), ps[|ps| - 1], need);
      TailIsAtLeast(rest, need - 1);
      TailIsAtLeast(rest, need);
    }
  }

  /** Entry k of the distribution is the probability of exactly k successes, and the
      entries add up to 1; for probabilities, none is negative. */
  lemma DistIsDistribution(ps: seq<real>)
    ensures forall k :: 0 <= k < |Dist(ps)| ==> Dist(ps)[k] == Exactly(ps, k)
    ensures Sum(Dist(ps)) == 1.0
    ensures Probabilities(ps) ==> forall k :: 0 <= k < |Dist(ps)| ==> Dist(ps)[k] >= 0.0
  {
    var d := Dist(ps);
    forall k | 0 <= k < |d| ensures d[k] == Exactly(ps, k) {
      TailStep(d, k);
      TailIsAtLeast(ps, k);
      TailIsAtLeast(ps, k + 1);
      AtLeastStep(ps, k);
    }
    TailIsAtLeast(ps, 0);
    AtLeastCertain(ps, 0);
    if Probabilities(ps) {
      forall k | 0 <= k < |d| ensures d[k] >= 0.0 {
        ExactlyNonNegative(ps, k);
      }
    }
  }

  datatype MdrProbRow = MdrProbRow(observedResistant: nat, missing: nat, pMdr: real, pXdr: real, pPdr: real)

  /** The inner loop of mdr_probability: dist starts as [1.0] and is convolved with
      [1 - p, p] for every missing class. */
  method Convolve(probs: seq<real>) returns (dist: seq<real>)
    ensures dist == Dist(probs)
    ensures forall need :: Tail(dist, need) == AtLeast(probs, need)
  {
    dist := [1.0];
    var j := 0;
    while j < |probs|
      invariant 0 <= j <= |probs|
      invariant dist == Dist(probs[..j])
    {
      assert probs[..j + 1][..j] == probs[..j];
      dist := Conv(dist, probs[j]);
      j := j + 1;
    }
    assert probs[..j] == probs;
    forall need ensures Tail(dist, need) == AtLeast(probs, need) {
      TailIsAtLeast(probs, need);
    }
  }

  /** dist[need:].sum() if need < len(dist) else 0.0, after need = max(0, need). */
  function ClampedTail(d: seq<real>, need: int): (p: real)
    ensures p == Tail(d, need)
  {
    var nd := if need > 0 then need else 0;
    assert d[0..] == d;
    if nd < |d| then Sum(d[nd..]) else 0.0
  }

  /** What the reference probability says about one isolate's three tail sums. */
  lemma IsolateBounds(ps: seq<real>, row: seq<Call>, n: int, threshold: int)
    requires Probabilities(ps) && |ps| == Count(row, None)
    ensures var minRes := Count(row, Some(true));
      && 0.0 <= AtLeast(ps, n - minRes) <= AtLeast(ps, n - 2 - minRes) <= 1.0
      && 0.0 <= AtLeast(ps, threshold - minRes) <= 1.0
      && (MdrCall(row, threshold) == Some(true) ==> AtLeast(ps, threshold - minRes) == 1.0)
      && (MdrCall(row, threshold) == Some(false) ==> AtLeast(ps, threshold - minRes) == 0.0)
  {
    var minRes := Count(row, Some(true));
    AtLeastBounds(ps, threshold - minRes);
    AtLeastBounds(ps, n - minRes);
    AtLeastBounds(ps, n - 2 - minRes);
    AtLeastAntitoneFar(ps, n - 2 - minRes, n - minRes);
    MdrCallMeaning(row, threshold);
    if minRes >= threshold {
      AtLeastCertain(ps, threshold - minRes);
    }
    if minRes + Count(row, None) < threshold {
      AtLeastImpossible(ps, threshold - minRes);
    }
  }

  /** The row's counts, and its three probabilities as the Bernoulli tails they stand for. */
  ghost predicate IsolateValues(t: ClassTable, threshold: int, i: nat, row: MdrProbRow)
    requires ClassTableValid(t) && i < |t.rows|
  {
    var n := |t.classes|;
    var ps := MissingPriors(t, i);
    && row.observedResistant == Count(t.rows[i], Some(true))
    && row.missing == Count(t.rows[i], None)
    && row.pMdr == AtLeast(ps, threshold - row.observedResistant)
    && row.pXdr == AtLeast(ps, n - 2 - row.observedResistant)
    && row.pPdr == AtLeast(ps, n - row.observedResistant)
  }

  /** What the probabilities promise: they are probabilities, PDR is never likelier than XDR,
      and a definite identify_mdr call is matched by certainty. */
  ghost predicate IsolateBounded(t: ClassTable, threshold: int, i: nat, row: MdrProbRow)
    requires ClassTableValid(t) && i < |t.rows|
  {
    && 0.0 <= row.pPdr <= row.pXdr <= 1.0
    && 0.0 <= row.pMdr <= 1.0
    && (MdrCall(t.rows[i], threshold) == Some(true) ==> row.pMdr == 1.0)
    && (MdrCall(t.rows[i], threshold) == Some(false) ==> row.pMdr == 0.0)
  }

  /** What mdr_probability reports for isolate i: its resistant and missing class counts,
      and P_MDR, P_XDR, P_PDR equal to the reference probability of reaching threshold,
      n - 2 and n resistant classes when each missing class is resistant independently with
      its prevalence; hence proper probabilities with P_PDR <= P_XDR, and P_MDR is 1 or 0
      wherever identify_mdr is definite. */
  ghost predicate IsolateProbabilities(t: ClassTable, threshold: int, i: nat, row: MdrProbRow)
    requires ClassTableValid(t) && i < |t.rows|
  {
    IsolateValues(t, threshold, i, row) && IsolateBounded(t, threshold, i, row)
  }

  lemma IsolateValuesBounded(t: ClassTable, threshold: int, i: nat, row: MdrProbRow)
    requires ClassTableValid(t) && i < |t.rows| && IsolateValues(t, threshold, i, row)
    ensures IsolateBounded(t, threshold, i, row)
  {
    IsolateBounds(MissingPriors(t, i), t.rows[i], |t.classes|, threshold);
  }

  /** The tails of a distribution that matches the missing classes' priors are the
      Bernoulli tails of IsolateValues, and so have the promised bounds. */
  lemma RowValues(t: ClassTable, threshold: int, i: nat, row: MdrProbRow, dist: seq<real>)
    requires ClassTableValid(t) && i < |t.rows|
    requires forall need :: Tail(dist, need) == AtLeast(MissingPriors(t, i), need)
    requires row.observedResistant == Count(t.rows[i], Some(true))
    requires row.missing == Count(t.rows[i], None)
    requires row.pMdr == Tail(dist, threshold - row.observedResistant)
    requires row.pXdr == Tail(dist, |t.classes| - 2 - row.observedResistant)
    requires row.pPdr == Tail(dist, |t.classes| - row.observedResistant)
    ensures IsolateProbabilities(t, threshold, i, row)
  {
    IsolateValuesBounded(t, threshold, i, row);
  }

  /** One iteration of mdr_probability's loop over isolates: the convolution over the
      missing classes and the three tail sums. */
  method IsolateMdrProbability(t: ClassTable, i: nat, threshold: int) returns (row: MdrProbRow)
    requires ClassTableValid(t) && i < |t.rows|
    ensures IsolateProbabilities(t, threshold, i, row)
  {
    var n := |t.classes|;
    var minRes := Count(t.rows[i], Some(true));
    var probs := MissingPriors(t, i);
    var dist := Convolve(probs);
    var pMdr := ClampedTail(dist, threshold - minRes);
    var pXdr := ClampedTail(dist, n - 2 - minRes);
    var pPdr := ClampedTail(dist, n - minRes);
    row := MdrProbRow(minRes, Count(t.rows[i], None), pMdr, pXdr, pPdr);
    RowValues(t, threshold, i, row, dist);
  }

  /** mdr_probability: per isolate, the chance of reaching MDR, XDR and PDR when every missing
      class is resistant independently with its class prevalence. */
  method MdrProbability(t: ClassTable, threshold: int) returns (rows: seq<MdrProbRow>)
    requires ClassTableValid(t)
    ensures |rows| == |t.rows|
    ensures forall i :: 0 <= i < |rows| ==> IsolateProbabilities(t, threshold, i, rows[i])
  {
    rows := [];
    var i := 0;
    while i < |t.rows|
      invariant 0 <= i <= |t.rows|
      invariant |rows| == i
      invariant forall q :: 0 <= q < i ==> IsolateProbabilities(t, threshold, q, rows[q])
    {
      var row := IsolateMdrProbability(t, i, threshold);
      rows := rows + [row];
      i := i + 1;
    }
  }
}
