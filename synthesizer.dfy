/**
 * `_import_formations`: the (annee_but, departement, rythme) programs that
 * must exist, derived from the departments present and a fixed table of the
 * year at which each department starts work-study.
 */
module Synthesizer {
  import opened Store

  /** `annee_alternance`: the first BUT year with a work-study track (GEA, CJ, GEII, INFO, RT, SD). */
  const AnneeAlternance: map<int, int> := map[2 := 1, 1 := 3, 3 := 2, 4 := 2, 5 := 2, 8 := 2]

  /** The two bridge departments, whose ids the import fixes. */
  predicate IsBridgeId(d: int)
  {
    d == 9 || d == 10
  }

  /** The rows (a, d, r) for a = 1, ..., last in that order, keeping those with a >= start. */
  function YearRows(d: int, r: int, start: int, last: int): seq<Formation>
    decreases last
  {
    if last < 1 then [] else YearRows(d, r, start, last - 1) + (if last >= start then [Formation(last, d, r)] else [])
  }

  /** The rows queued for one ordinary department: full-time years 1-3, then its work-study years. */
  function DeptRows(d: int): seq<Formation>
  {
    YearRows(d, 1, 1, 3) + (if d in AnneeAlternance then YearRows(d, 2, AnneeAlternance[d], 3) else [])
  }

  /** The rows the loop queues for one department: none for a bridge department. */
  function OrdinaryDeptRows(d: int): seq<Formation>
  {
    if IsBridgeId(d) then [] else DeptRows(d)
  }

  /** The rows the loop over the departments queues, bridge departments excepted. */
  function OrdinaryRows(depts: seq<int>): seq<Formation>
  {
    Flatten(depts, OrdinaryDeptRows)
  }

  /** `to_insert` for the departments `depts` (in SELECT order): the ordinary rows, then one row per bridge department. */
  function Synthesized(depts: seq<int>): seq<Formation>
  {
    OrdinaryRows(depts)
    + (if 9 in depts then [Formation(2, 9, 1)] else [])
    + (if 10 in depts then [Formation(2, 10, 1)] else [])
  }

  /** The loop over the departments in `_import_formations` that fills `to_insert`. */
  method FormationsToInsert(allDepts: seq<int>) returns (toInsert: seq<Formation>)
    ensures toInsert == Synthesized(allDepts)
  {
    toInsert := [];
    for i := 0 to |allDepts|
      invariant toInsert == OrdinaryRows(allDepts[..i])
    {
      var d := allDepts[i];
      FlattenSnoc(allDepts, OrdinaryDeptRows, i);
      if d != 9 && d != 10 {
        toInsert := QueueDepartement(toInsert, d);
      }
    }
    assert allDepts[..|allDepts|] == allDepts;
    if 9 in allDepts {
      toInsert := toInsert + [Formation(2, 9, 1)];
    }
    if 10 in allDepts {
      toInsert := toInsert + [Formation(2, 10, 1)];
    }
  }

  /** The two inner loops for one ordinary department: its full-time years, then its work-study years. */
  method QueueDepartement(queued: seq<Formation>, d: int) returns (toInsert: seq<Formation>)
    ensures toInsert == queued + DeptRows(d)
  {
    toInsert := queued;
    for a := 1 to 4
      invariant toInsert == queued + YearRows(d, 1, 1, a - 1)
    {
      toInsert := toInsert + [Formation(a, d, 1)];
    }
    if d in AnneeAlternance {
      var debutFa := AnneeAlternance[d];
      ghost var withFi := toInsert;
      for a := 1 to 4
        invariant toInsert == withFi + YearRows(d, 2, debutFa, a - 1)
      {
        if a >= debutFa {
          toInsert := toInsert + [Formation(a, d, 2)];
        }
      }
    }
  }

  lemma {:induction false} YearRowsSpec(d: int, r: int, start: int, last: int, f: Formation)
    ensures f in YearRows(d, r, start, last) <==> f.dept == d && f.rythme == r && 1 <= f.annee <= last && f.annee >= start
    decreases last
  {
    if last >= 1 {
      YearRowsSpec(d, r, start, last - 1, f);
    }
  }

  /** A department offers a program year in a rhythm exactly as the source's rule says. */
  predicate Offered(d: int, f: Formation)
  {
    && f.dept == d && 1 <= f.annee <= 3
    && (f.rythme == 1 || (f.rythme == 2 && d in AnneeAlternance && f.annee >= AnneeAlternance[d]))
  }

  lemma DeptRowsSpec(d: int, f: Formation)
    ensures f in DeptRows(d) <==> Offered(d, f)
  {
    YearRowsSpec(d, 1, 1, 3, f);
    if d in AnneeAlternance {
      YearRowsSpec(d, 2, AnneeAlternance[d], 3, f);
    }
  }

  lemma OrdinaryRowsSpec(depts: seq<int>, f: Formation)
    ensures f in OrdinaryRows(depts) <==> f.dept in depts && !IsBridgeId(f.dept) && Offered(f.dept, f)
  {
    FlattenSpec(depts, OrdinaryDeptRows, f);
    DeptRowsSpec(f.dept, f);
    if f in OrdinaryRows(depts) {
      var d :| d in depts && f in OrdinaryDeptRows(d);
      DeptRowsSpec(d, f);
    }
  }

  /**
   * Every ordinary department gets full-time years 1, 2 and 3, and work-study
   * years from its `annee_alternance` entry on (none without an entry); a
   * bridge department gets the single row (2, FI); nothing else is queued.
   */
  lemma SynthesizedSpec(depts: seq<int>, f: Formation)
    ensures f in Synthesized(depts) <==>
              || (f.dept in depts && !IsBridgeId(f.dept) && Offered(f.dept, f))
              || (f.dept in depts && IsBridgeId(f.dept) && f.annee == 2 && f.rythme == 1)
  {
    OrdinaryRowsSpec(depts, f);
  }

  /** Each bridge department present is queued exactly once, and only as (2, FI). */
  lemma BridgeQueuedOnce(depts: seq<int>, b: int)
    requires IsBridgeId(b) && b in depts
    ensures multiset(Synthesized(depts))[Formation(2, b, 1)] == 1
    ensures forall f :: f in Synthesized(depts) && f.dept == b ==> f == Formation(2, b, 1)
  {
    OrdinaryRowsSpec(depts, Formation(2, b, 1));
    forall f | f in Synthesized(depts) && f.dept == b ensures f == Formation(2, b, 1) {
      SynthesizedSpec(depts, f);
    }
  }
}
