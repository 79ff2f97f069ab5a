/**
 * The synchronisation with the ScoDoc API: the answers of the API are given
 * as input values, and every row is written with INSERT OR IGNORE, each
 * counter going up only when its insert added a row.
 */
module ScoDocService {
  import opened Wrappers
  import opened Text
  import opened Store

  // ---------------------------------------------------------------------------
  // The answers of the API

  /** A formation as `get_formations` lists it; an absent `acronyme` or `nom` is "", an absent `rythme_id` is None. */
  datatype ApiFormation = ApiFormation(id: int, acronyme: string, nom: string, rythmeId: Option<int>)

  /**
   * A student as `get_etudiants_formation` lists it. `ine` and `etudid` are
   * None when the key is absent; a null value is the empty string, which the
   * source treats alike (both are false).
   */
  datatype ApiEtudiant = ApiEtudiant(ine: Option<string>, etudid: Option<string>, decisionId: Option<int>)

  /**
   * What the API answers during one synchronisation: the connectivity test,
   * the rhythms and departments (as (id, (nom, acronyme)) rows), the
   * formations of each department id, and the students of each (formation
   * id, "YYYY-YYYY") pair. A missing key is an empty answer.
   */
  datatype Api = Api(connexionOk: bool, message: string,
                     rythmes: seq<Row>, departements: seq<Row>,
                     formations: map<int, seq<ApiFormation>>,
                     etudiants: map<(int, string), seq<ApiEtudiant>>)

  function FormationsOf(api: Api, deptId: int): seq<ApiFormation>
  {
    if deptId in api.formations then api.formations[deptId] else []
  }

  /** The `annee_str` of a year: f"{annee}-{annee+1}". */
  function SchoolYear(annee: int): string
  {
    IntToString(annee) + "-" + IntToString(annee + 1)
  }

  /**
   * Distinct years ask for distinct school years: the digits of a year run up
   * to the first dash, so the string gives its year back. The four listings
   * read for a formation are therefore four different ones.
   */
  lemma SchoolYearInjective(a: int, b: int)
    requires a >= 0 && b >= 0 && SchoolYear(a) == SchoolYear(b)
    ensures a == b
  {
    NatToStringDigits(a);
    NatToStringDigits(b);
    DigitsBeforeDash(IntToString(a), IntToString(a + 1), IntToString(b), IntToString(b + 1));
    IntToStringRoundTrip(a);
    IntToStringRoundTrip(b);
  }

  /** Two runs of digits each followed by a dash start the same string only if they are the same run. */
  lemma DigitsBeforeDash(x: string, r: string, y: string, q: string)
    requires IsDigits(x) && IsDigits(y) && x + "-" + r == y + "-" + q
    ensures x == y
  {
    var s := x + "-" + r;
    assert s[|x|] == '-' && s[|y|] == '-';
    assert forall i :: 0 <= i < |x| ==> s[i] == x[i];
    assert forall i :: 0 <= i < |y| ==> s[i] == y[i];
    assert |x| == |y|;
    assert x == s[..|x|] == y;
  }

  function EtudiantsOf(api: Api, formationId: int, annee: int): seq<ApiEtudiant>
  {
    var key := (formationId, SchoolYear(annee));
    if key in api.etudiants then api.etudiants[key] else []
  }

  // ---------------------------------------------------------------------------
  // `_determiner_annee_but`

  /** The BUT year of a formation: markers in the upper-cased acronym first, then hints in the name, then 1. */
  function AnneeBut(f: ApiFormation): (r: int)
    ensures 1 <= r <= 3
  {
    var acronyme := Upper(f.acronyme);
    if Contains(acronyme, "BUT1") || Contains(acronyme, "1A") || Contains(acronyme, "1ÈRE") then 1
    else if Contains(acronyme, "BUT2") || Contains(acronyme, "2A") || Contains(acronyme, "2ÈME") then 2
    else if Contains(acronyme, "BUT3") || Contains(acronyme, "3A") || Contains(acronyme, "3ÈME") then 3
    else
      var nom := f.nom;
      if Contains(Lower(nom), "première") || Contains(nom, "1") then 1
      else if Contains(Lower(nom), "deuxième") || Contains(nom, "2") then 2
      else if Contains(Lower(nom), "troisième") || Contains(nom, "3") then 3
      else 1
  }

  /** The acronym markers of years 1, 2 and 3. */
  const AcronymMarkers: seq<seq<string>> := [["BUT1", "1A", "1ÈRE"], ["BUT2", "2A", "2ÈME"], ["BUT3", "3A", "3ÈME"]]

  /** The ordinal (matched on the lower-cased name) and the digit of years 1, 2 and 3. */
  const NameOrdinals: seq<string> := ["première", "deuxième", "troisième"]
  const NameDigits: seq<string> := ["1", "2", "3"]

  predicate MarksYear(acronyme: string, y: int)
  {
    1 <= y <= 3 && ContainsAny(Upper(acronyme), AcronymMarkers[y - 1])
  }

  predicate HintsYear(nom: string, y: int)
  {
    1 <= y <= 3 && (Contains(Lower(nom), NameOrdinals[y - 1]) || Contains(nom, NameDigits[y - 1]))
  }

  lemma ContainsAnyThree(text: string, a: string, b: string, c: string)
    ensures ContainsAny(text, [a, b, c]) <==> Contains(text, a) || Contains(text, b) || Contains(text, c)
  {
    assert [a, b, c][1..] == [b, c] && [b, c][1..] == [c] && [c][1..] == [];
    assert ContainsAny(text, [c]) == (Contains(text, c) || ContainsAny(text, []));
    assert ContainsAny(text, [b, c]) == (Contains(text, b) || ContainsAny(text, [c]));
    assert ContainsAny(text, [a, b, c]) == (Contains(text, a) || ContainsAny(text, [b, c]));
  }

  /**
   * The year is the smallest one whose markers the acronym carries; when it
   * carries none, the smallest one the name hints at; and 1 otherwise.
   */
  lemma AnneeButSpec(f: ApiFormation)
    ensures (exists y :: MarksYear(f.acronyme, y)) ==>
              MarksYear(f.acronyme, AnneeBut(f)) && forall y :: 1 <= y < AnneeBut(f) ==> !MarksYear(f.acronyme, y)
    ensures (forall y :: !MarksYear(f.acronyme, y)) && (exists y :: HintsYear(f.nom, y)) ==>
              HintsYear(f.nom, AnneeBut(f)) && forall y :: 1 <= y < AnneeBut(f) ==> !HintsYear(f.nom, y)
    ensures (forall y :: !MarksYear(f.acronyme, y)) && (forall y :: !HintsYear(f.nom, y)) ==> AnneeBut(f) == 1
  {
    var a := Upper(f.acronyme);
    ContainsAnyThree(a, "BUT1", "1A", "1ÈRE");
    ContainsAnyThree(a, "BUT2", "2A", "2ÈME");
    ContainsAnyThree(a, "BUT3", "3A", "3ÈME");
    assert MarksYear(f.acronyme, 1) <==> ContainsAny(a, ["BUT1", "1A", "1ÈRE"]);
    assert MarksYear(f.acronyme, 2) <==> ContainsAny(a, ["BUT2", "2A", "2ÈME"]);
    assert MarksYear(f.acronyme, 3) <==> ContainsAny(a, ["BUT3", "3A", "3ÈME"]);
    assert HintsYear(f.nom, 1) <==> Contains(Lower(f.nom), "première") || Contains(f.nom, "1");
    assert HintsYear(f.nom, 2) <==> Contains(Lower(f.nom), "deuxième") || Contains(f.nom, "2");
    assert HintsYear(f.nom, 3) <==> Contains(Lower(f.nom), "troisième") || Contains(f.nom, "3");
  }

  /** Once the acronym carries a marker the name plays no part. */
  lemma AcronymBeforeName(f: ApiFormation, nom: string)
    requires exists y :: MarksYear(f.acronyme, y)
    ensures AnneeBut(f.(nom := nom)) == AnneeBut(f)
  {
    AnneeButSpec(f);
    AnneeButSpec(f.(nom := nom));
  }

  // ---------------------------------------------------------------------------
  // The insert-if-absent batches

  /** The formation row a listed formation gives: `rythme_id` defaults to 1. */
  function FormationRow(f: ApiFormation, deptId: int): Formation
  {
    Formation(AnneeBut(f), deptId, if f.rythmeId.Some? then f.rythmeId.value else 1)
  }

  /** The formation rows one department's listing gives, in listing order. */
  function DeptFormations(fs: seq<ApiFormation>, deptId: int): (r: seq<Formation>)
    ensures |r| == |fs| && forall i :: 0 <= i < |fs| ==> r[i] == FormationRow(fs[i], deptId)
  {
    seq(|fs|, i requires 0 <= i < |fs| => FormationRow(fs[i], deptId))
  }

  /** The formation rows of every listed department, department after department. */
  function FormationRows(api: Api, depts: seq<Row>): seq<Formation>
    decreases |depts|
  {
    if depts == [] then []
    else
      var d := depts[|depts| - 1];
      FormationRows(api, depts[..|depts| - 1]) + DeptFormations(FormationsOf(api, d.id), d.id)
  }

  /** Every formation row comes from a listed formation of a listed department, with its BUT year in 1..3. */
  lemma {:induction false} FormationRowsFrom(api: Api, depts: seq<Row>, x: Formation)
    requires x in FormationRows(api, depts)
    ensures 1 <= x.annee <= 3
    ensures exists d, f :: d in depts && f in FormationsOf(api, d.id) && x == FormationRow(f, d.id)
    decreases |depts|
  {
    var p, d := depts[..|depts| - 1], depts[|depts| - 1];
    var fs := FormationsOf(api, d.id);
    if x in FormationRows(api, p) {
      FormationRowsFrom(api, p, x);
      var d', f :| d' in p && f in FormationsOf(api, d'.id) && x == FormationRow(f, d'.id);
      assert d' in depts;
    } else {
      var i :| 0 <= i < |fs| && DeptFormations(fs, d.id)[i] == x;
      assert fs[i] in fs && d in depts;
    }
  }

  // ---------------------------------------------------------------------------
  // Students and inscriptions

  /** `etudiant.get('ine', etudiant.get('etudid', ''))`: the fallback applies only when `ine` is absent. */
  function StudentKey(e: ApiEtudiant): string
  {
    match e.ine
    case Some(ine) => ine
    case None => if e.etudid.Some? then e.etudid.value else ""
  }

  /** One student of one formation's listing for one year. */
  datatype Visit = Visit(annee: int, formation: int, etu: ApiEtudiant)

  function YearVisits(api: Api, f: ApiFormation, annee: int): (r: seq<Visit>)
    ensures |r| == |EtudiantsOf(api, f.id, annee)|
    ensures forall i :: 0 <= i < |r| ==> r[i] == Visit(annee, f.id, EtudiantsOf(api, f.id, annee)[i])
  {
    var es := EtudiantsOf(api, f.id, annee);
    seq(|es|, i requires 0 <= i < |es| => Visit(annee, f.id, es[i]))
  }

  /** The listings of the years `currentYear - 0` down to `currentYear - (k - 1)`. */
  function OffsetVisits(api: Api, f: ApiFormation, currentYear: int, k: nat): seq<Visit>
    decreases k
  {
    if k == 0 then [] else OffsetVisits(api, f, currentYear, k - 1) + YearVisits(api, f, currentYear - (k - 1))
  }

  /** The number of school years `range(0, 4)` visits. */
  const YearsBack: nat := 4

  /** The school years `range(0, 4)` visits for a formation. */
  function FormationVisits(api: Api, f: ApiFormation, currentYear: int): seq<Visit>
  {
    OffsetVisits(api, f, currentYear, YearsBack)
  }

  function DeptVisits(api: Api, fs: seq<ApiFormation>, currentYear: int): seq<Visit>
    decreases |fs|
  {
    if fs == [] then [] else DeptVisits(api, fs[..|fs| - 1], currentYear) + FormationVisits(api, fs[|fs| - 1], currentYear)
  }

  /** Every student listing the synchronisation reads, in the order of its loops. */
  function AllVisits(api: Api, depts: seq<Row>, currentYear: int): seq<Visit>
    decreases |depts|
  {
    if depts == [] then []
    else
      var d := depts[|depts| - 1];
      AllVisits(api, depts[..|depts| - 1], currentYear) + DeptVisits(api, FormationsOf(api, d.id), currentYear)
  }

  /** A visited year is one of the four the loop covers. */
  lemma {:induction false} OffsetVisitsYears(api: Api, f: ApiFormation, currentYear: int, k: nat, v: Visit)
    requires v in OffsetVisits(api, f, currentYear, k)
    ensures currentYear - k < v.annee <= currentYear && v.formation == f.id
    decreases k
  {
    if v in OffsetVisits(api, f, currentYear, k - 1) {
      OffsetVisitsYears(api, f, currentYear, k - 1, v);
    } else {
      var es := EtudiantsOf(api, f.id, currentYear - (k - 1));
      var i :| 0 <= i < |es| && YearVisits(api, f, currentYear - (k - 1))[i] == v;
    }
  }

  /** The student and inscription tables the student loop writes. */
  datatype Tables = Tables(etudiants: seq<string>, inscriptions: set<Inscription>)

  /**
   * One student of the loop: nothing for an empty key; otherwise INSERT OR
   * IGNORE of the key, SELECT of its id, and INSERT OR IGNORE of an
   * inscription in state 1 for the visited year and formation id.
   */
  function EnrolStep(s: Tables, v: Visit): Tables
  {
    var key := StudentKey(v.etu);
    if key == "" then s
    else
      var e := InsertIgnore(s.etudiants, key);
      assert e[|e| - 1] == key || key in s.etudiants;
      Tables(e, s.inscriptions + {Inscription(v.annee, RowId(e, key), 1, v.formation, v.etu.decisionId)})
  }

  /** The loop over a sequence of visits. */
  function Enrol(s: Tables, vs: seq<Visit>): Tables
    decreases |vs|
  {
    if vs == [] then s else EnrolStep(Enrol(s, vs[..|vs| - 1]), vs[|vs| - 1])
  }

  /** One more visit: the loop over the longer prefix is one step after the loop over the shorter one. */
  lemma EnrolSnoc(s: Tables, vs: seq<Visit>, i: nat)
    requires i < |vs|
    ensures Enrol(s, vs[..i + 1]) == EnrolStep(Enrol(s, vs[..i]), vs[i])
  {
    assert vs[..i + 1][..i] == vs[..i];
  }

  lemma {:induction false} EnrolAppend(s: Tables, a: seq<Visit>, b: seq<Visit>)
    ensures Enrol(s, a + b) == Enrol(Enrol(s, a), b)
    decreases |b|
  {
    if b == [] {
      assert a + b == a;
    } else {
      assert (a + b)[..|a + b| - 1] == a + b[..|b| - 1];
      EnrolAppend(s, a, b[..|b| - 1]);
    }
  }

  /** The non-empty student keys of the visits. */
  function Keys(vs: seq<Visit>): set<string>
  {
    set v | v in vs && StudentKey(v.etu) != "" :: StudentKey(v.etu)
  }

  /** The inscriptions the visits ask for, with the student ids of table `e`. */
  function InscriptionsFor(vs: seq<Visit>, e: seq<string>): set<Inscription>
  {
    set v | v in vs && StudentKey(v.etu) != "" && StudentKey(v.etu) in e ::
      Inscription(v.annee, RowId(e, StudentKey(v.etu)), 1, v.formation, v.etu.decisionId)
  }

  lemma KeysSnoc(p: seq<Visit>, v: Visit)
    ensures Keys(p + [v]) == Keys(p) + (if StudentKey(v.etu) == "" then {} else {StudentKey(v.etu)})
  {
    assert forall w :: w in p + [v] <==> w in p || w == v;
  }

  /** Growing the student table by appending keeps the inscriptions asked for by visits whose key it held. */
  lemma InscriptionsForGrow(vs: seq<Visit>, e: seq<string>, e': seq<string>)
    requires Keys(vs) <= Elements(e)
    requires |e| <= |e'| && e'[..|e|] == e
    ensures InscriptionsFor(vs, e') == InscriptionsFor(vs, e)
  {
    forall v | v in vs && StudentKey(v.etu) != ""
      ensures StudentKey(v.etu) in e && StudentKey(v.etu) in e' && RowId(e', StudentKey(v.etu)) == RowId(e, StudentKey(v.etu))
    {
      assert StudentKey(v.etu) in Keys(vs);
      RowIdPrefix(e, e', StudentKey(v.etu));
    }
  }

  lemma InscriptionsForSnoc(p: seq<Visit>, v: Visit, e: seq<string>)
    requires StudentKey(v.etu) != "" && StudentKey(v.etu) in e
    ensures InscriptionsFor(p + [v], e) ==
              InscriptionsFor(p, e) + {Inscription(v.annee, RowId(e, StudentKey(v.etu)), 1, v.formation, v.etu.decisionId)}
  {
    var x := Inscription(v.annee, RowId(e, StudentKey(v.etu)), 1, v.formation, v.etu.decisionId);
    forall i | i in InscriptionsFor(p + [v], e) ensures i in InscriptionsFor(p, e) || i == x {
      var w :| w in p + [v] && StudentKey(w.etu) != "" && StudentKey(w.etu) in e &&
               i == Inscription(w.annee, RowId(e, StudentKey(w.etu)), 1, w.formation, w.etu.decisionId);
      if w != v {
        assert w in p;
      }
    }
    forall i | i in InscriptionsFor(p, e) ensures i in InscriptionsFor(p + [v], e) {
      var w :| w in p && StudentKey(w.etu) != "" && StudentKey(w.etu) in e &&
               i == Inscription(w.annee, RowId(e, StudentKey(w.etu)), 1, w.formation, w.etu.decisionId);
      assert w in p + [v];
    }
    assert v in p + [v];
    assert x in InscriptionsFor(p + [v], e);
  }

  lemma PrefixOfPrefix<T>(a: seq<T>, b: seq<T>, c: seq<T>)
    requires |a| <= |b| && b[..|a|] == a
    requires |b| <= |c| && c[..|b|] == b
    ensures c[..|a|] == a
  {
    assert c[..|b|][..|a|] == c[..|a|];
  }

  /** What one more visit does to the student table the loop has built so far. */
  lemma EnrolStepStudents(s: Tables, p: seq<Visit>, m: Tables, v: Visit)
    requires Distinct(m.etudiants)
    requires |s.etudiants| <= |m.etudiants| && m.etudiants[..|s.etudiants|] == s.etudiants
    requires Elements(m.etudiants) == Elements(s.etudiants) + Keys(p)
    ensures var e := EnrolStep(m, v).etudiants;
            && Distinct(e)
            && |m.etudiants| <= |e| && e[..|m.etudiants|] == m.etudiants
            && |s.etudiants| <= |e| && e[..|s.etudiants|] == s.etudiants
            && Elements(e) == Elements(s.etudiants) + Keys(p + [v])
  {
    KeysSnoc(p, v);
    var key := StudentKey(v.etu);
    if key != "" {
      var e := InsertIgnore(m.etudiants, key);
      InsertIgnoreElements(m.etudiants, key);
      InsertIgnoreDistinct(m.etudiants, key);
      PrefixOfPrefix(s.etudiants, m.etudiants, e);
    }
  }

  /** What one more visit does to the inscription table the loop has built so far. */
  lemma EnrolStepInscriptions(s: Tables, p: seq<Visit>, m: Tables, v: Visit)
    requires Keys(p) <= Elements(m.etudiants)
    requires m.inscriptions == s.inscriptions + InscriptionsFor(p, m.etudiants)
    ensures var r := EnrolStep(m, v);
            r.inscriptions == s.inscriptions + InscriptionsFor(p + [v], r.etudiants)
  {
    var key := StudentKey(v.etu);
    if key == "" {
      assert InscriptionsFor(p + [v], m.etudiants) == InscriptionsFor(p, m.etudiants) by {
        assert forall w :: w in p + [v] <==> w in p || w == v;
      }
    } else {
      var e := InsertIgnore(m.etudiants, key);
      InsertIgnoreElements(m.etudiants, key);
      InscriptionsForGrow(p, m.etudiants, e);
      InscriptionsForSnoc(p, v, e);
    }
  }

  /**
   * The student loop adds every non-empty key to the student table once,
   * appending after the rows already there, and adds to the inscription
   * table an inscription in state 1 for every visit with a key, pointing at
   * that key's row.
   */
  lemma {:induction false} EnrolSpec(s: Tables, vs: seq<Visit>)
    requires Distinct(s.etudiants)
    ensures var r := Enrol(s, vs);
            && Distinct(r.etudiants)
            && |s.etudiants| <= |r.etudiants| && r.etudiants[..|s.etudiants|] == s.etudiants
            && Elements(r.etudiants) == Elements(s.etudiants) + Keys(vs)
            && r.inscriptions == s.inscriptions + InscriptionsFor(vs, r.etudiants)
    decreases |vs|
  {
    if vs == [] {
      assert Keys(vs) == {};
      assert InscriptionsFor(vs, s.etudiants) == {};
    } else {
      var p, v := vs[..|vs| - 1], vs[|vs| - 1];
      assert vs == p + [v];
      EnrolSpec(s, p);
      EnrolStepStudents(s, p, Enrol(s, p), v);
      EnrolStepInscriptions(s, p, Enrol(s, p), v);
    }
  }

  /** Over tables that already hold every key and every inscription of the visits, the loop changes nothing. */
  lemma {:induction false} EnrolSettled(r: Tables, vs: seq<Visit>)
    requires Keys(vs) <= Elements(r.etudiants)
    requires InscriptionsFor(vs, r.etudiants) <= r.inscriptions
    ensures Enrol(r, vs) == r
    decreases |vs|
  {
    if vs != [] {
      var p, v := vs[..|vs| - 1], vs[|vs| - 1];
      assert vs == p + [v];
      KeysSnoc(p, v);
      var key := StudentKey(v.etu);
      if key != "" {
        InscriptionsForSnoc(p, v, r.etudiants);
      } else {
        assert InscriptionsFor(p, r.etudiants) <= InscriptionsFor(vs, r.etudiants) by {
          assert forall w :: w in p ==> w in vs;
        }
      }
      EnrolSettled(r, p);
    }
  }

  /** A second run of the student loop over the same listings adds neither a student nor an inscription. */
  lemma EnrolIdempotent(s: Tables, vs: seq<Visit>)
    requires Distinct(s.etudiants)
    ensures Enrol(Enrol(s, vs), vs) == Enrol(s, vs)
  {
    EnrolSpec(s, vs);
    EnrolSettled(Enrol(s, vs), vs);
  }

  /** The visits of a department's formations cover the four school years of its listed formations. */
  lemma {:induction false} DeptVisitsFrom(api: Api, fs: seq<ApiFormation>, currentYear: int, v: Visit)
    requires v in DeptVisits(api, fs, currentYear)
    ensures currentYear - 4 < v.annee <= currentYear
    ensures exists f :: f in fs && v.formation == f.id
    decreases |fs|
  {
    var p, f := fs[..|fs| - 1], fs[|fs| - 1];
    if v in DeptVisits(api, p, currentYear) {
      DeptVisitsFrom(api, p, currentYear, v);
      var g :| g in p && v.formation == g.id;
      assert g in fs;
    } else {
      OffsetVisitsYears(api, f, currentYear, 4, v);
      assert f in fs;
    }
  }

  /** Every visit is for one of the four school years and a formation listed under a listed department. */
  lemma {:induction false} AllVisitsFrom(api: Api, depts: seq<Row>, currentYear: int, v: Visit)
    requires v in AllVisits(api, depts, currentYear)
    ensures currentYear - 4 < v.annee <= currentYear
    ensures exists d, f :: d in depts && f in FormationsOf(api, d.id) && v.formation == f.id
    decreases |depts|
  {
    var p, d := depts[..|depts| - 1], depts[|depts| - 1];
    if v in AllVisits(api, p, currentYear) {
      AllVisitsFrom(api, p, currentYear, v);
      var d', f :| d' in p && f in FormationsOf(api, d'.id) && v.formation == f.id;
      assert d' in depts;
    } else {
      DeptVisitsFrom(api, FormationsOf(api, d.id), currentYear, v);
      assert d in depts;
    }
  }

  /**
   * Every inscription the student loop adds is in state 1, for one of the
   * four school years, for the id of a listed formation, and points at a
   * stored student.
   */
  lemma SyncInscriptions(s: Tables, api: Api, currentYear: int)
    requires Distinct(s.etudiants)
    ensures var r := Enrol(s, AllVisits(api, api.departements, currentYear));
            forall i :: i in r.inscriptions - s.inscriptions ==>
              && i.etat == 1 && currentYear - 3 <= i.annee <= currentYear
              && 1 <= i.etudiant <= |r.etudiants|
              && exists d, f :: d in api.departements && f in FormationsOf(api, d.id) && i.formation == f.id
  {
    var vs := AllVisits(api, api.departements, currentYear);
    var r := Enrol(s, vs);
    EnrolSpec(s, vs);
    forall i | i in r.inscriptions - s.inscriptions
      ensures && i.etat == 1 && currentYear - 3 <= i.annee <= currentYear
              && 1 <= i.etudiant <= |r.etudiants|
              && exists d, f :: d in api.departements && f in FormationsOf(api, d.id) && i.formation == f.id
    {
      var v :| v in vs && StudentKey(v.etu) != "" && StudentKey(v.etu) in r.etudiants &&
               i == Inscription(v.annee, RowId(r.etudiants, StudentKey(v.etu)), 1, v.formation, v.etu.decisionId);
      AllVisitsFrom(api, api.departements, currentYear, v);
    }
  }

  /** The student counter is the number of distinct non-empty keys the student table did not hold. */
  lemma SyncStudentCount(s: Tables, vs: seq<Visit>)
    requires Distinct(s.etudiants)
    ensures |Enrol(s, vs).etudiants| - |s.etudiants| == |Keys(vs) - Elements(s.etudiants)|
  {
    EnrolSpec(s, vs);
    DistinctCard(s.etudiants);
    DistinctCard(Enrol(s, vs).etudiants);
    UnionCard(Elements(s.etudiants), Keys(vs));
  }

  /**
   * A synchronisation over the tables a first one left, with the same API
   * answers, writes nothing: every counter of the second one is 0.
   */
  lemma ResyncAddsNothing(rythmes: seq<Row>, departements: seq<Row>, formations: seq<Formation>, s: Tables,
                          api: Api, currentYear: int)
    requires Ascending(rythmes) && Ascending(departements) && Distinct(s.etudiants)
    ensures IgnoreAll(IgnoreAll(rythmes, api.rythmes), api.rythmes) == IgnoreAll(rythmes, api.rythmes)
    ensures IgnoreAll(IgnoreAll(departements, api.departements), api.departements) == IgnoreAll(departements, api.departements)
    ensures var rows := FormationRows(api, api.departements);
            InsertIgnoreAll(InsertIgnoreAll(formations, rows), rows) == InsertIgnoreAll(formations, rows)
    ensures var vs := AllVisits(api, api.departements, currentYear);
            Enrol(Enrol(s, vs), vs) == Enrol(s, vs)
  {
    IgnoreAllIdempotent(rythmes, api.rythmes);
    IgnoreAllIdempotent(departements, api.departements);
    InsertIgnoreAllIdempotent(formations, FormationRows(api, api.departements));
    EnrolIdempotent(s, AllVisits(api, api.departements, currentYear));
  }

  // ---------------------------------------------------------------------------
  // `synchroniser_avec_sco_doc`

  /** The statistics dictionary: the six insertion counters and the error list. */
  datatype SyncStats = SyncStats(departements: int, rythmes: int, formations: int, etudiants: int,
                                 inscriptions: int, decisions: int, erreurs: seq<string>)

  /** `for rythme in rythmes_api`: INSERT OR IGNORE of each row, counting the rows added. */
  method SyncRythmes(db: Database, rows: seq<Row>) returns (n: int)
    requires db.Valid()
    modifies db`rythmes
    ensures db.Valid()
    ensures db.rythmes == IgnoreAll(old(db.rythmes), rows)
    ensures n == |db.rythmes| - |old(db.rythmes)|
  {
    n := 0;
    for i := 0 to |rows|
      invariant db.Valid()
      invariant db.rythmes == IgnoreAll(old(db.rythmes), rows[..i])
      invariant n == |db.rythmes| - |old(db.rythmes)|
    {
      assert rows[..i + 1][..i] == rows[..i];
      var added := db.InsertOrIgnoreRythme(rows[i].id, rows[i].entry);
      if added {
        n := n + 1;
      }
    }
    assert rows[..|rows|] == rows;
  }

  /** `for dept in departements_api`: INSERT OR IGNORE of each row, counting the rows added. */
  method SyncDepartements(db: Database, rows: seq<Row>) returns (n: int)
    requires db.Valid()
    modifies db`departements
    ensures db.Valid()
    ensures db.departements == IgnoreAll(old(db.departements), rows)
    ensures n == |db.departements| - |old(db.departements)|
  {
    n := 0;
    for i := 0 to |rows|
      invariant db.Valid()
      invariant db.departements == IgnoreAll(old(db.departements), rows[..i])
      invariant n == |db.departements| - |old(db.departements)|
    {
      assert rows[..i + 1][..i] == rows[..i];
      var added := db.InsertOrIgnoreDepartement(rows[i].id, rows[i].entry);
      if added {
        n := n + 1;
      }
    }
    assert rows[..|rows|] == rows;
  }

  /** The formations of one department: INSERT OR IGNORE of each row, counting the rows added. */
  method SyncDeptFormations(db: Database, fs: seq<ApiFormation>, deptId: int) returns (n: int)
    requires Distinct(db.formations)
    modifies db`formations
    ensures Distinct(db.formations)
    ensures db.formations == InsertIgnoreAll(old(db.formations), DeptFormations(fs, deptId))
    ensures n == |db.formations| - |old(db.formations)|
  {
    ghost var rows := DeptFormations(fs, deptId);
    n := 0;
    for i := 0 to |fs|
      invariant Distinct(db.formations)
      invariant db.formations == InsertIgnoreAll(old(db.formations), rows[..i])
      invariant n == |db.formations| - |old(db.formations)|
    {
      var formation := fs[i];
      var anneeBut := AnneeBut(formation);
      var rythme := if formation.rythmeId.Some? then formation.rythmeId.value else 1;
      assert rows[..i + 1] == rows[..i] + [Formation(anneeBut, deptId, rythme)];
      InsertIgnoreAllAppend(old(db.formations), rows[..i], [Formation(anneeBut, deptId, rythme)]);
      var added := db.InsertOrIgnoreFormation(Formation(anneeBut, deptId, rythme));
      if added {
        n := n + 1;
      }
    }
    assert rows[..|fs|] == rows;
  }

  /** Step 3: the formations of every listed department, counting the rows added. */
  method SyncFormations(db: Database, api: Api) returns (n: int)
    requires Distinct(db.formations)
    modifies db`formations
    ensures Distinct(db.formations)
    ensures db.formations == InsertIgnoreAll(old(db.formations), FormationRows(api, api.departements))
    ensures n == |db.formations| - |old(db.formations)|
  {
    var depts := api.departements;
    n := 0;
    for i := 0 to |depts|
      invariant Distinct(db.formations)
      invariant db.formations == InsertIgnoreAll(old(db.formations), FormationRows(api, depts[..i]))
      invariant n == |db.formations| - |old(db.formations)|
    {
      var dept := depts[i];
      assert depts[..i + 1][..i] == depts[..i];
      InsertIgnoreAllAppend(old(db.formations), FormationRows(api, depts[..i]),
                            DeptFormations(FormationsOf(api, dept.id), dept.id));
      var added := SyncDeptFormations(db, FormationsOf(api, dept.id), dept.id);
      n := n + added;
    }
    assert depts[..|depts|] == depts;
  }

  /** The students of one formation's listing for one school year. */
  method SyncYear(db: Database, api: Api, f: ApiFormation, annee: int) returns (nEtu: int, nIns: int)
    requires Distinct(db.etudiants)
    modifies db`etudiants, db`inscriptions
    ensures Distinct(db.etudiants)
    ensures Tables(db.etudiants, db.inscriptions) ==
              Enrol(Tables(old(db.etudiants), old(db.inscriptions)), YearVisits(api, f, annee))
    ensures nEtu == |db.etudiants| - |old(db.etudiants)| && nIns == |db.inscriptions| - |old(db.inscriptions)|
  {
    var etudiantsApi := EtudiantsOf(api, f.id, annee);
    ghost var vs := YearVisits(api, f, annee);
    ghost var s0 := Tables(db.etudiants, db.inscriptions);
    nEtu, nIns := 0, 0;
    for i := 0 to |etudiantsApi|
      invariant Distinct(db.etudiants)
      invariant Tables(db.etudiants, db.inscriptions) == Enrol(s0, vs[..i])
      invariant nEtu == |db.etudiants| - |old(db.etudiants)| && nIns == |db.inscriptions| - |old(db.inscriptions)|
    {
      EnrolSnoc(s0, vs, i);
      var etudiant := etudiantsApi[i];
      assert vs[i] == Visit(annee, f.id, etudiant);
      var addedEtu, addedIns := EnrolStudent(db, annee, f.id, etudiant);
      if addedEtu {
        nEtu := nEtu + 1;
      }
      if addedIns {
        nIns := nIns + 1;
      }
    }
    assert vs[..|etudiantsApi|] == vs;
  }

  /** The body of the student loop: the student row, its id, and the inscription. */
  method EnrolStudent(db: Database, annee: int, formationId: int, etudiant: ApiEtudiant)
      returns (addedEtu: bool, addedIns: bool)
    requires Distinct(db.etudiants)
    modifies db`etudiants, db`inscriptions
    ensures Distinct(db.etudiants)
    ensures Tables(db.etudiants, db.inscriptions) ==
              EnrolStep(Tables(old(db.etudiants), old(db.inscriptions)), Visit(annee, formationId, etudiant))
    ensures |db.etudiants| == |old(db.etudiants)| + (if addedEtu then 1 else 0)
    ensures |db.inscriptions| == |old(db.inscriptions)| + (if addedIns then 1 else 0)
  {
    addedEtu, addedIns := false, false;
    var ine := StudentKey(etudiant);
    if ine != "" {
      addedEtu := db.InsertOrIgnoreEtudiant(ine);
      assert ine in db.etudiants;
      // The SELECT finds the row just inserted or already there.
      var etudiantId := RowId(db.etudiants, ine);
      var row := Inscription(annee, etudiantId, 1, formationId, etudiant.decisionId);
      addedIns := db.InsertOrIgnoreInscription(row);
      if !addedIns {
        assert db.inscriptions == old(db.inscriptions);
      }
    }
  }

  /** One more school year: the loop over `k + 1` years is the loop over `k` years followed by that year. */
  lemma EnrolOffsetStep(s: Tables, api: Api, f: ApiFormation, currentYear: int, k: nat, before: Tables, after: Tables)
    requires before == Enrol(s, OffsetVisits(api, f, currentYear, k))
    requires after == Enrol(before, YearVisits(api, f, currentYear - k))
    ensures after == Enrol(s, OffsetVisits(api, f, currentYear, k + 1))
  {
    EnrolAppend(s, OffsetVisits(api, f, currentYear, k), YearVisits(api, f, currentYear - k));
  }

  /** `for year_offset in range(0, 4)`: the four school years of one formation. */
  method SyncFormationYears(db: Database, api: Api, f: ApiFormation, currentYear: int) returns (nEtu: int, nIns: int)
    requires Distinct(db.etudiants)
    modifies db`etudiants, db`inscriptions
    ensures Distinct(db.etudiants)
    ensures Tables(db.etudiants, db.inscriptions) ==
              Enrol(Tables(old(db.etudiants), old(db.inscriptions)), FormationVisits(api, f, currentYear))
    ensures nEtu == |db.etudiants| - |old(db.etudiants)| && nIns == |db.inscriptions| - |old(db.inscriptions)|
  {
    ghost var s0 := Tables(db.etudiants, db.inscriptions);
    nEtu, nIns := 0, 0;
    for yearOffset := 0 to YearsBack
      invariant Distinct(db.etudiants)
      invariant Tables(db.etudiants, db.inscriptions) == Enrol(s0, OffsetVisits(api, f, currentYear, yearOffset))
      invariant nEtu == |db.etudiants| - |old(db.etudiants)| && nIns == |db.inscriptions| - |old(db.inscriptions)|
    {
      var e, i := SyncOffset(db, api, f, currentYear, yearOffset, s0);
      nEtu, nIns := nEtu + e, nIns + i;
    }
  }

  /** One pass of `for year_offset in range(0, 4)`: the school year `current_year - year_offset`. */
  method SyncOffset(db: Database, api: Api, f: ApiFormation, currentYear: int, yearOffset: nat, ghost s0: Tables)
      returns (nEtu: int, nIns: int)
    requires Distinct(db.etudiants)
    requires Tables(db.etudiants, db.inscriptions) == Enrol(s0, OffsetVisits(api, f, currentYear, yearOffset))
    modifies db`etudiants, db`inscriptions
    ensures Distinct(db.etudiants)
    ensures Tables(db.etudiants, db.inscriptions) == Enrol(s0, OffsetVisits(api, f, currentYear, yearOffset + 1))
    ensures nEtu == |db.etudiants| - |old(db.etudiants)| && nIns == |db.inscriptions| - |old(db.inscriptions)|
  {
    var annee := currentYear - yearOffset;
    ghost var before := Tables(db.etudiants, db.inscriptions);
    nEtu, nIns := SyncYear(db, api, f, annee);
    EnrolOffsetStep(s0, api, f, currentYear, yearOffset, before, Tables(db.etudiants, db.inscriptions));
  }

  /** The formations of one department, each over its four school years. */
  method SyncDeptStudents(db: Database, api: Api, fs: seq<ApiFormation>, currentYear: int) returns (nEtu: int, nIns: int)
    requires Distinct(db.etudiants)
    modifies db`etudiants, db`inscriptions
    ensures Distinct(db.etudiants)
    ensures Tables(db.etudiants, db.inscriptions) ==
              Enrol(Tables(old(db.etudiants), old(db.inscriptions)), DeptVisits(api, fs, currentYear))
    ensures nEtu == |db.etudiants| - |old(db.etudiants)| && nIns == |db.inscriptions| - |old(db.inscriptions)|
  {
    ghost var s0 := Tables(db.etudiants, db.inscriptions);
    nEtu, nIns := 0, 0;
    for i := 0 to |fs|
      invariant Distinct(db.etudiants)
      invariant Tables(db.etudiants, db.inscriptions) == Enrol(s0, DeptVisits(api, fs[..i], currentYear))
      invariant nEtu == |db.etudiants| - |old(db.etudiants)| && nIns == |db.inscriptions| - |old(db.inscriptions)|
    {
      assert fs[..i + 1][..i] == fs[..i];
      EnrolAppend(s0, DeptVisits(api, fs[..i], currentYear), FormationVisits(api, fs[i], currentYear));
      var e, n := SyncFormationYears(db, api, fs[i], currentYear);
      nEtu, nIns := nEtu + e, nIns + n;
    }
    assert fs[..|fs|] == fs;
  }

  /** Step 4: the students and inscriptions of every listed department. */
  method SyncStudents(db: Database, api: Api, currentYear: int) returns (nEtu: int, nIns: int)
    requires Distinct(db.etudiants)
    modifies db`etudiants, db`inscriptions
    ensures Distinct(db.etudiants)
    ensures Tables(db.etudiants, db.inscriptions) ==
              Enrol(Tables(old(db.etudiants), old(db.inscriptions)), AllVisits(api, api.departements, currentYear))
    ensures nEtu == |db.etudiants| - |old(db.etudiants)| && nIns == |db.inscriptions| - |old(db.inscriptions)|
  {
    var depts := api.departements;
    ghost var s0 := Tables(db.etudiants, db.inscriptions);
    nEtu, nIns := 0, 0;
    for i := 0 to |depts|
      invariant Distinct(db.etudiants)
      invariant Tables(db.etudiants, db.inscriptions) == Enrol(s0, AllVisits(api, depts[..i], currentYear))
      invariant nEtu == |db.etudiants| - |old(db.etudiants)| && nIns == |db.inscriptions| - |old(db.inscriptions)|
    {
      var dept := depts[i];
      assert depts[..i + 1][..i] == depts[..i];
      EnrolAppend(s0, AllVisits(api, depts[..i], currentYear), DeptVisits(api, FormationsOf(api, dept.id), currentYear));
      var e, n := SyncDeptStudents(db, api, FormationsOf(api, dept.id), currentYear);
      nEtu, nIns := nEtu + e, nIns + n;
    }
    assert depts[..|depts|] == depts;
  }

  /** Steps 2 to 4 once the connection is up, each counter being the growth of its table. */
  method SyncTables(db: Database, api: Api, currentYear: int) returns (stats: SyncStats)
    requires db.Valid()
    modifies db`rythmes, db`departements, db`formations, db`etudiants, db`inscriptions
    ensures db.Valid()
    ensures db.rythmes == IgnoreAll(old(db.rythmes), api.rythmes)
    ensures db.departements == IgnoreAll(old(db.departements), api.departements)
    ensures db.formations == InsertIgnoreAll(old(db.formations), FormationRows(api, api.departements))
    ensures Tables(db.etudiants, db.inscriptions) ==
              Enrol(Tables(old(db.etudiants), old(db.inscriptions)), AllVisits(api, api.departements, currentYear))
    ensures stats == SyncStats(|db.departements| - |old(db.departements)|, |db.rythmes| - |old(db.rythmes)|,
                               |db.formations| - |old(db.formations)|, |db.etudiants| - |old(db.etudiants)|,
                               |db.inscriptions| - |old(db.inscriptions)|, 0, [])
  {
    var nRythmes, nDepartements := SyncVocabulary(db, api);
    var nFormations, nEtudiants, nInscriptions := SyncContent(db, api, currentYear);
    stats := SyncStats(nDepartements, nRythmes, nFormations, nEtudiants, nInscriptions, 0, []);
  }

  /** Step 2: the rhythms, then the departments. */
  method SyncVocabulary(db: Database, api: Api) returns (nRythmes: int, nDepartements: int)
    requires db.Valid()
    modifies db`rythmes, db`departements
    ensures db.Valid()
    ensures db.rythmes == IgnoreAll(old(db.rythmes), api.rythmes)
    ensures db.departements == IgnoreAll(old(db.departements), api.departements)
    ensures nRythmes == |db.rythmes| - |old(db.rythmes)| && nDepartements == |db.departements| - |old(db.departements)|
  {
    nRythmes := SyncRythmes(db, api.rythmes);
    nDepartements := SyncDepartements(db, api.departements);
  }

  /** Steps 3 and 4: the formations, then the students and their inscriptions. */
  method SyncContent(db: Database, api: Api, currentYear: int) returns (nFormations: int, nEtudiants: int, nInscriptions: int)
    requires Distinct(db.formations) && Distinct(db.etudiants)
    modifies db`formations, db`etudiants, db`inscriptions
    ensures Distinct(db.formations) && Distinct(db.etudiants)
    ensures db.formations == InsertIgnoreAll(old(db.formations), FormationRows(api, api.departements))
    ensures Tables(db.etudiants, db.inscriptions) ==
              Enrol(Tables(old(db.etudiants), old(db.inscriptions)), AllVisits(api, api.departements, currentYear))
    ensures nFormations == |db.formations| - |old(db.formations)|
    ensures nEtudiants == |db.etudiants| - |old(db.etudiants)| && nInscriptions == |db.inscriptions| - |old(db.inscriptions)|
  {
    nFormations := SyncFormations(db, api);
    nEtudiants, nInscriptions := SyncStudents(db, api, currentYear);
  }

  /**
   * `synchroniser_avec_sco_doc` for the year `currentYear`: on a failed
   * connectivity test the one error is reported and nothing is written;
   * otherwise the rhythms, departments, formations, students and
   * inscriptions are inserted if absent, each counter being the growth of
   * its table, and the decision counter stays 0.
   */
  method Synchronise(db: Database, api: Api, currentYear: int) returns (stats: SyncStats)
    requires db.Valid()
    modifies db
    ensures db.Valid()
    ensures !api.connexionOk ==>
              stats == SyncStats(0, 0, 0, 0, 0, 0, ["Échec connexion: " + api.message]) && unchanged(db)
    ensures api.connexionOk ==>
              && db.rythmes == IgnoreAll(old(db.rythmes), api.rythmes)
              && db.departements == IgnoreAll(old(db.departements), api.departements)
              && db.formations == InsertIgnoreAll(old(db.formations), FormationRows(api, api.departements))
              && Tables(db.etudiants, db.inscriptions) ==
                   Enrol(Tables(old(db.etudiants), old(db.inscriptions)), AllVisits(api, api.departements, currentYear))
              && db.decisions == old(db.decisions) && db.etats == old(db.etats)
              && stats == SyncStats(|db.departements| - |old(db.departements)|, |db.rythmes| - |old(db.rythmes)|,
                                    |db.formations| - |old(db.formations)|, |db.etudiants| - |old(db.etudiants)|,
                                    |db.inscriptions| - |old(db.inscriptions)|, 0, [])
  {
    if !api.connexionOk {
      stats := SyncStats(0, 0, 0, 0, 0, 0, ["Échec connexion: " + api.message]);
    } else {
      stats := SyncTables(db, api, currentYear);
    }
  }

  // ---------------------------------------------------------------------------
  // `synchroniser_avec_sco_doc` as written: `datetime` is never imported

  /** Some listed department lists a formation, so the student step reaches `datetime.now()`. */
  predicate ListsFormation(api: Api)
  {
    exists d :: d in api.departements && FormationsOf(api, d.id) != []
  }

  /** `str(e)` of the `NameError` raised at the first `datetime.now()`. */
  const DatetimeError := "name 'datetime' is not defined"

  /**
   * `synchroniser_avec_sco_doc` as written. When a listed department lists a
   * formation, the student step raises `NameError` before it reads any
   * student; the `except` rolls the database back to its state before the
   * call and records the error, but the counters of the rhythms, departments
   * and formations already inserted stay in the statistics. When no
   * formation is listed, the student step does nothing and the rest commits.
   */
  method SynchroniseAsWritten(db: Database, api: Api) returns (stats: SyncStats)
    requires db.Valid()
    modifies db
    ensures db.Valid()
    ensures !api.connexionOk ==>
              stats == SyncStats(0, 0, 0, 0, 0, 0, ["Échec connexion: " + api.message]) && unchanged(db)
    ensures api.connexionOk && ListsFormation(api) ==> unchanged(db)
    ensures api.connexionOk && ListsFormation(api) ==>
              stats == SyncStats(|IgnoreAll(old(db.departements), api.departements)| - |old(db.departements)|,
                                 |IgnoreAll(old(db.rythmes), api.rythmes)| - |old(db.rythmes)|,
                                 |InsertIgnoreAll(old(db.formations), FormationRows(api, api.departements))|
                                   - |old(db.formations)|,
                                 0, 0, 0, [DatetimeError])
    ensures api.connexionOk && !ListsFormation(api) ==>
              && db.rythmes == IgnoreAll(old(db.rythmes), api.rythmes)
              && db.departements == IgnoreAll(old(db.departements), api.departements)
              && db.formations == InsertIgnoreAll(old(db.formations), FormationRows(api, api.departements))
    ensures api.connexionOk && !ListsFormation(api) ==>
              && db.etudiants == old(db.etudiants) && db.inscriptions == old(db.inscriptions)
              && db.decisions == old(db.decisions) && db.etats == old(db.etats)
    ensures api.connexionOk && !ListsFormation(api) ==>
              stats == SyncStats(|db.departements| - |old(db.departements)|, |db.rythmes| - |old(db.rythmes)|,
                                 |db.formations| - |old(db.formations)|, 0, 0, 0, [])
  {
    if !api.connexionOk {
      stats := SyncStats(0, 0, 0, 0, 0, 0, ["Échec connexion: " + api.message]);
      return;
    }
    var rythmes0, departements0, formations0 := db.rythmes, db.departements, db.formations;
    var nRythmes, nDepartements, nFormations := SyncBeforeStudents(db, api);
    if ListsFormation(api) {
      // the NameError, then `db.rollback()`
      db.Rollback(rythmes0, departements0, formations0);
      stats := SyncStats(nDepartements, nRythmes, nFormations, 0, 0, 0, [DatetimeError]);
    } else {
      stats := SyncStats(nDepartements, nRythmes, nFormations, 0, 0, 0, []);
    }
  }

  /** Steps 2 and 3, the part of the call as written that runs before the `NameError`. */
  method SyncBeforeStudents(db: Database, api: Api) returns (nRythmes: int, nDepartements: int, nFormations: int)
    requires db.Valid()
    modifies db`rythmes, db`departements, db`formations
    ensures db.Valid()
    ensures db.rythmes == IgnoreAll(old(db.rythmes), api.rythmes)
    ensures db.departements == IgnoreAll(old(db.departements), api.departements)
    ensures db.formations == InsertIgnoreAll(old(db.formations), FormationRows(api, api.departements))
    ensures nRythmes == |db.rythmes| - |old(db.rythmes)| && nDepartements == |db.departements| - |old(db.departements)|
    ensures nFormations == |db.formations| - |old(db.formations)|
  {
    nRythmes, nDepartements := SyncVocabulary(db, api);
    nFormations := SyncFormations(db, api);
  }

  /**
   * One department listing one formation: the call as written takes the
   * rollback branch, yet it reports one department inserted on an empty table.
   */
  lemma DatetimeScenario()
    ensures var api := Api(true, "", [], [Row(1, Label("Informatique", "INFO"))],
                           map[1 := [ApiFormation(7, "BUT1", "", None)]], map[]);
            && ListsFormation(api)
            && |IgnoreAll([], api.departements)| == 1
  {
    var api := Api(true, "", [], [Row(1, Label("Informatique", "INFO"))],
                   map[1 := [ApiFormation(7, "BUT1", "", None)]], map[]);
    assert api.departements[0] in api.departements && FormationsOf(api, 1) != [];
    IgnoreSpec([], 1, Label("Informatique", "INFO"));
    assert api.departements[..0] == [];
  }
}
