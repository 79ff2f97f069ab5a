/**
 * `DonneeService`: the seeding of the fixed vocabularies, the import steps
 * over the tables, the pipeline that chains them and reports its statistics,
 * and the year guard of the search.
 */
module DonneeService {
  import opened Wrappers
  import opened Text
  import opened Json
  import opened Store
  import opened Synthesizer
  import opened Resolver
  import opened Classifier
  import opened Importer

  // ---------------------------------------------------------------------------
  // Fixed vocabularies

  /** The 28 (nom, acronyme) pairs of `_import_decisions`, in source order. */
  const DecisionSeed: seq<Label> := [
    Label("Admis", "ADM"), Label("Ajourné", "AJ"), Label("Admis par Compensation", "CMP"),
    Label("Admis Supérieur", "ADSUP"), Label("Ajourné (Rattrapage)", "ADJR"),
    Label("Ajourné (Jury)", "ADJ"), Label("Défaillant", "DEF"), Label("Non Admis Redouble", "NAR"),
    Label("Redoublement", "RED"), Label("Passage de Droit", "PASD"),
    Label("Passage Conditionnel", "PAS1NCI"), Label("En attente", "ATT"),
    Label("En attente (Bloqué)", "ATB"), Label("Validé", "V"), Label("Validé (Variante)", "VAL"),
    Label("Non Validé", "NV"), Label("Validé par Compensation Annuelle", "VCA"),
    Label("Validé par Commission", "VCC"), Label("Admis Sous Réserve", "ADM-INC"),
    Label("Démissionnaire", "DEM"), Label("Absence Injustifiée", "ABI"),
    Label("Absence Justifiée", "ABJ"), Label("Excusé", "EXC"), Label("Non Inscrit", "NI"),
    Label("Année Blanche", "ABL"), Label("Inscrit (En cours)", "INS"),
    Label("Abdandon", "ABAN"), Label("Attente Jury", "ATJ")
  ]

  /** The two bridge departments `_import_departements` appends to the file's entries. */
  const BridgeSdInfo: Row := Row(9, Label("Passerelle SD INFO", "P_SD_INFO"))
  const BridgeCjGea: Row := Row(10, Label("Passerelle CJ GEA", "P_CJ_GEA"))

  /** The rows of `_import_rythmes` and `_import_etats`. */
  const RythmeRows: seq<Row> := [Row(1, Label("Formation Initiale", "FI")), Row(2, Label("Formation Apprentissage", "FA"))]
  const EtatRows: seq<Row> := [Row(1, Label("Inscrit", "I")), Row(2, Label("Démission", "D"))]

  /**
   * `_import_decisions`: INSERT OR IGNORE of the 28 decisions. Afterwards
   * every acronym of the seed is present, each exactly once (no two rows
   * share an acronym).
   */
  method ImportDecisions(db: Database)
    requires db.Valid()
    modifies db`decisions
    ensures db.Valid()
    ensures db.decisions == AddDecisions(old(db.decisions), DecisionSeed)
  {
    InsertDecisions(db, DecisionSeed);
  }

  /** `executemany("INSERT OR IGNORE INTO decision ...", rows)`. */
  method InsertDecisions(db: Database, rows: seq<Label>)
    requires db.Valid()
    modifies db`decisions
    ensures db.Valid()
    ensures db.decisions == AddDecisions(old(db.decisions), rows)
    ensures forall i :: 0 <= i < |rows| ==> HasAcronym(db.decisions, rows[i].acronyme)
  {
    AddDecisionsCovers(db.decisions, rows);
    db.decisions := AddDecisions(db.decisions, rows);
  }

  /** `donnees`: the file's (id, dept_name, acronym) rows, then the two bridges. */
  function DeptBatch(data: seq<DeptEntry>): (r: seq<Row>)
    ensures |r| == |data| + 2 && r[|data|] == BridgeSdInfo && r[|data| + 1] == BridgeCjGea
    ensures forall i :: 0 <= i < |data| ==> r[i] == Row(data[i].id, Label(data[i].deptName, data[i].acronym))
  {
    seq(|data|, i requires 0 <= i < |data| => Row(data[i].id, Label(data[i].deptName, data[i].acronym)))
    + [BridgeSdInfo, BridgeCjGea]
  }

  /** `_import_departements`: INSERT OR REPLACE of the file's departments and the two bridges. */
  method ImportDepartements(db: Database, data: seq<DeptEntry>)
    requires db.Valid()
    modifies db`departements
    ensures db.Valid()
    ensures db.departements == ReplaceAll(old(db.departements), DeptBatch(data))
  {
    ReplaceAllKeepsUnique(db.departements, DeptBatch(data));
    db.departements := ReplaceAll(db.departements, DeptBatch(data));
  }

  /** Whatever the file holds, department 9 is P_SD_INFO and department 10 is P_CJ_GEA afterwards. */
  lemma BridgesStored(t: seq<Row>, data: seq<DeptEntry>)
    requires Ascending(t)
    ensures Find(ReplaceAll(t, DeptBatch(data)), 9) == Some(BridgeSdInfo.entry)
    ensures Find(ReplaceAll(t, DeptBatch(data)), 10) == Some(BridgeCjGea.entry)
  {
    var b := DeptBatch(data);
    var n := |data|;
    assert b == b[..n] + [BridgeSdInfo] + [BridgeCjGea];
    ReplaceAllAppend(t, b[..n] + [BridgeSdInfo], [BridgeCjGea]);
    ReplaceAllAppend(t, b[..n], [BridgeSdInfo]);
    var u := ReplaceAll(t, b[..n]);
    var u9 := ReplaceAll(u, [BridgeSdInfo]);
    assert u9 == Replace(u, 9, BridgeSdInfo.entry);
    assert ReplaceAll(u9, [BridgeCjGea]) == Replace(u9, 10, BridgeCjGea.entry);
  }

  /** `_import_rythmes`: two INSERT OR REPLACE statements. */
  method ImportRythmes(db: Database)
    requires db.Valid()
    modifies db`rythmes
    ensures db.Valid()
    ensures db.rythmes == ReplaceAll(old(db.rythmes), RythmeRows)
  {
    ReplaceAllKeepsUnique(db.rythmes, RythmeRows);
    ghost var t := db.rythmes;
    db.rythmes := Replace(db.rythmes, 1, RythmeRows[0].entry);
    db.rythmes := Replace(db.rythmes, 2, RythmeRows[1].entry);
    assert db.rythmes == ReplaceAll(t, RythmeRows);
  }

  /** `_import_etats`: two INSERT OR REPLACE statements. */
  method ImportEtats(db: Database)
    requires db.Valid()
    modifies db`etats
    ensures db.Valid()
    ensures db.etats == ReplaceAll(old(db.etats), EtatRows)
  {
    ReplaceAllKeepsUnique(db.etats, EtatRows);
    ghost var t := db.etats;
    db.etats := Replace(db.etats, 1, EtatRows[0].entry);
    db.etats := Replace(db.etats, 2, EtatRows[1].entry);
    assert db.etats == ReplaceAll(t, EtatRows);
  }

  /** A two-row vocabulary whose rows do not clash is stored in full after its import, and a re-import changes nothing. */
  lemma VocabularyLands(t: seq<Row>, rows: seq<Row>)
    requires Ascending(t) && UniqueAcronyms(t)
    requires rows == RythmeRows || rows == EtatRows
    ensures Find(ReplaceAll(t, rows), 1) == Some(rows[0].entry) && Find(ReplaceAll(t, rows), 2) == Some(rows[1].entry)
    ensures ReplaceAll(ReplaceAll(t, rows), rows) == ReplaceAll(t, rows)
  {
    assert NonClashing(rows);
    ReplaceAllLands(t, rows);
    assert rows[0] in rows && rows[1] in rows;
    ReplaceAllIdempotent(t, rows);
  }

  // ---------------------------------------------------------------------------
  // The import steps

  /**
   * `_import_etudiants`: INSERT OR IGNORE of every distinct truthy `etudid`.
   * `total` is the number of distinct INEs, `added` the number of rows the
   * insert created.
   */
  method ImportEtudiants(db: Database, dir: seq<DataFile>) returns (total: int, added: int)
    requires Distinct(db.etudiants)
    modifies db`etudiants
    ensures Distinct(db.etudiants)
    ensures total == |InesOf(DecisionFiles(dir))|
    ensures added == |InesOf(DecisionFiles(dir)) - Elements(old(db.etudiants))|
    ensures 0 <= added <= total
    ensures |db.etudiants| == |old(db.etudiants)| + added && db.etudiants[..|old(db.etudiants)|] == old(db.etudiants)
    ensures Elements(db.etudiants) == Elements(old(db.etudiants)) + InesOf(DecisionFiles(dir))
  {
    var ines := CollectInes(dir);
    added := InsertEtudiants(db, ines);
    total := |ines|;
  }

  /**
   * `[(ine,) for ine in ines]`: the members of the set, each once, in its
   * (unspecified) iteration order.
   */
  method Listed(ines: set<string>) returns (xs: seq<string>)
    ensures Elements(xs) == ines && Distinct(xs)
  {
    xs := [];
    var rest := ines;
    while rest != {}
      invariant rest <= ines && Elements(xs) == ines - rest && Distinct(xs)
      decreases rest
    {
      var ine :| ine in rest;
      assert ine !in Elements(xs);
      assert Elements(xs + [ine]) == Elements(xs) + {ine};
      xs := xs + [ine];
      rest := rest - {ine};
    }
  }

  /** `executemany("INSERT OR IGNORE INTO etudiant ...")` over the set; `added` is `cursor.rowcount`. */
  method InsertEtudiants(db: Database, ines: set<string>) returns (added: int)
    requires Distinct(db.etudiants)
    modifies db`etudiants
    ensures Distinct(db.etudiants)
    ensures added == |ines - Elements(old(db.etudiants))| && added <= |ines|
    ensures |db.etudiants| == |old(db.etudiants)| + added && db.etudiants[..|old(db.etudiants)|] == old(db.etudiants)
    ensures Elements(db.etudiants) == Elements(old(db.etudiants)) + ines
  {
    var rows := Listed(ines);
    var e := InsertIgnoreAll(db.etudiants, rows);
    InsertIgnoreAllKeeps(db.etudiants, rows);
    InsertIgnoreAllCount(db.etudiants, rows);
    InsertIgnoreAllContains(db.etudiants, rows);
    assert Elements(e) == Elements(db.etudiants) + ines;
    added := |e| - |db.etudiants|;
    db.etudiants := e;
  }

  /** `_import_formations`: INSERT OR IGNORE of the synthesized programs for the stored departments. */
  method ImportFormations(db: Database)
    requires Distinct(db.formations)
    modifies db`formations
    ensures Distinct(db.formations)
    ensures db.formations == InsertIgnoreAll(old(db.formations), Synthesized(Ids(db.departements)))
    ensures forall f :: f in db.formations <==> f in old(db.formations) || f in Synthesized(Ids(db.departements))
  {
    var allDepts := Ids(db.departements);
    var toInsert := FormationsToInsert(allDepts);
    InsertIgnoreAllKeeps(db.formations, toInsert);
    InsertIgnoreAllContains(db.formations, toInsert);
    db.formations := InsertIgnoreAll(db.formations, toInsert);
  }

  /** The enrollments `_import_inscriptions` queues against the current tables. */
  function Pending(db: Database, dir: seq<DataFile>): seq<Inscription>
    reads db`departements, db`etudiants, db`decisions, db`formations
  {
    Batch(DecisionFiles(dir), CachesOf(db.departements, db.etudiants, db.decisions, db.formations))
  }

  /** Every queued enrollment refers to an existing student, program and (when not null) decision. */
  lemma PendingRefers(files: seq<DataFile>, departements: seq<Row>, etudiants: seq<string>,
                      decisions: seq<Label>, formations: seq<Formation>)
    requires Distinct(formations)
    ensures forall ins :: ins in Batch(files, CachesOf(departements, etudiants, decisions, formations)) ==>
                           Refers(ins, etudiants, formations, decisions)
  {
    var c := CachesOf(departements, etudiants, decisions, formations);
    forall ins | ins in Batch(files, c) ensures Refers(ins, etudiants, formations, decisions) {
      BatchSpec(files, c, ins);
      var f, r :| f in files && FileContextOf(f.name, c).Some? && r in StudentList(f.content)
                  && Derive(r, FileContextOf(f.name, c).value, c) == Some(ins);
      DeriveRefers(r, FileContextOf(f.name, c).value, departements, etudiants, decisions, formations);
    }
  }

  /**
   * `_import_inscriptions`: INSERT OR IGNORE of the queued enrollments;
   * `count` is the number of rows the insert created.
   */
  method ImportInscriptions(db: Database, dir: seq<DataFile>) returns (count: int)
    requires Distinct(db.formations)
    modifies db`inscriptions
    ensures db.inscriptions == old(db.inscriptions) + Elements(Pending(db, dir))
    ensures count == |Elements(Pending(db, dir)) - old(db.inscriptions)|
    ensures count == |db.inscriptions - old(db.inscriptions)|
    ensures forall ins :: ins in db.inscriptions - old(db.inscriptions) ==>
                           Refers(ins, db.etudiants, db.formations, db.decisions)
  {
    var c := CachesOf(db.departements, db.etudiants, db.decisions, db.formations);
    var inscriptions := CollectInscriptions(dir, c);
    count := InsertInscriptions(db, inscriptions);
    PendingRefers(DecisionFiles(dir), db.departements, db.etudiants, db.decisions, db.formations);
  }

  /** `executemany("INSERT OR IGNORE INTO inscription ...", rows)`; `count` is `cursor.rowcount`. */
  method InsertInscriptions(db: Database, rows: seq<Inscription>) returns (count: int)
    modifies db`inscriptions
    ensures db.inscriptions == old(db.inscriptions) + Elements(rows)
    ensures count == |Elements(rows) - old(db.inscriptions)|
    ensures count == |db.inscriptions - old(db.inscriptions)|
  {
    count := 0;
    for i := 0 to |rows|
      invariant db.inscriptions == old(db.inscriptions) + Elements(rows[..i])
      invariant count == |db.inscriptions| - |old(db.inscriptions)|
    {
      assert Elements(rows[..i + 1]) == Elements(rows[..i]) + {rows[i]} by {
        assert rows[..i + 1] == rows[..i] + [rows[i]];
      }
      var added := db.InsertOrIgnoreInscription(rows[i]);
      if added {
        count := count + 1;
      }
    }
    assert rows[..|rows|] == rows;
    UnionCard(old(db.inscriptions), Elements(rows));
    GrowthCard(old(db.inscriptions), Elements(rows), db.inscriptions);
  }

  // ---------------------------------------------------------------------------
  // A worked example: one file, one student

  const ScenarioName: string := "decisions_geii_2022_fa.json"
  const ScenarioRecord: Record := Record("123", Null, Some(Block(Str("ADM"), Null, Null)), None, None)

  /**
   * The file `decisions_geii_2022_fa.json` with the single record
   * {etudid: "123", decision: {code: "ADM"}}: the glob picks it up, the
   * record's code is ADM, and its one INE, "123", is new to an empty student
   * table.
   */
  lemma ScenarioFile()
    ensures var f := DataFile(ScenarioName, Records([ScenarioRecord]));
            DecisionFiles([f]) == [f]
    ensures DecisionCode(ScenarioRecord) == Some(Str("ADM"))
    ensures var ines := InesOf(DecisionFiles([DataFile(ScenarioName, Records([ScenarioRecord]))]));
            ines == {"123"} && |ines - {}| == 1
  {
    var f := DataFile(ScenarioName, Records([ScenarioRecord]));
    assert IsDecisionFile(ScenarioName);
    assert DecisionFiles([f]) == [f] by {
      assert [f][1..] == [];
    }
    assert [f][..0] == [] && [ScenarioRecord][..0] == [];
    assert RecordInes([ScenarioRecord]) == {"123"};
  }

  // ---------------------------------------------------------------------------
  // The search form

  /**
   * The year guard of `get_search_results`: no search runs for a missing or
   * empty year, nor for one `int()` rejects; otherwise it runs for the
   * parsed year.
   */
  function SearchYear(year: Option<string>): (r: Option<int>)
    ensures r.Some? <==> year.Some? && year.value != "" && ParseInt(year.value).Some?
    ensures r.Some? ==> r == ParseInt(year.value)
  {
    match year
    case None => None
    case Some(s) => if s == "" then None else ParseInt(s)
  }

  /** Every year the form can offer, written as `str(year)`, selects a search for that year. */
  lemma SearchYearRoundTrip(n: int)
    ensures SearchYear(Some(IntToString(n))) == Some(n)
  {
    IntToStringRoundTrip(n);
  }

  // ---------------------------------------------------------------------------
  // The pipeline

  /**
   * One pass of the student, program and enrollment steps, as statistics:
   * the distinct INEs, those new to the student table, those it already
   * held, and the growth of the enrollment table.
   */
  method ImportOnce(db: Database, dir: seq<DataFile>) returns (total: int, nouveaux: int, inscriptions: int)
    requires Distinct(db.etudiants) && Distinct(db.formations)
    modifies db`etudiants, db`formations, db`inscriptions
    ensures Distinct(db.etudiants) && Distinct(db.formations)
    ensures var ines := InesOf(DecisionFiles(dir));
            && total == |ines|
            && nouveaux == |ines - Elements(old(db.etudiants))|
            && total - nouveaux == |ines * Elements(old(db.etudiants))|
    ensures inscriptions == |db.inscriptions - old(db.inscriptions)|
  {
    ghost var e0 := db.etudiants;
    total, nouveaux := ImportEtudiants(db, dir);
    SplitCard(InesOf(DecisionFiles(dir)), Elements(e0));
    ImportFormations(db);
    inscriptions := ImportInscriptions(db, dir);
  }

  /** The dictionary `run_import_pipeline` returns. */
  datatype ImportStats = ImportStats(totalDistincts: int, nouveaux: int, connus: int, inscriptions: int)

  /**
   * The tables hold everything a pass over `dir` would insert: every INE,
   * every synthesized program and every queued enrollment.
   */
  ghost predicate SettledTables(dir: seq<DataFile>, departements: seq<Row>, decisions: seq<Label>,
                                etudiants: seq<string>, formations: seq<Formation>, inscriptions: set<Inscription>)
  {
    && InesOf(DecisionFiles(dir)) <= Elements(etudiants)
    && formations == InsertIgnoreAll(formations, Synthesized(Ids(departements)))
    && Elements(Batch(DecisionFiles(dir), CachesOf(departements, etudiants, decisions, formations))) <= inscriptions
  }

  ghost predicate Settled(db: Database, dir: seq<DataFile>)
    reads db
  {
    SettledTables(dir, db.departements, db.decisions, db.etudiants, db.formations, db.inscriptions)
  }

  /**
   * What one pass of the student, program and enrollment steps does to the
   * tables (e0, f0, i0 before, e1, f1, i1 after): afterwards they are
   * settled, and a pass over settled tables changes nothing and reports
   * no new student and no new enrollment.
   */
  lemma PassSettles(dir: seq<DataFile>, departements: seq<Row>, decisions: seq<Label>,
                    e0: seq<string>, e1: seq<string>, f0: seq<Formation>, f1: seq<Formation>,
                    i0: set<Inscription>, i1: set<Inscription>, nouveaux: int, count: int)
    requires Distinct(e0)
    requires Elements(e1) == Elements(e0) + InesOf(DecisionFiles(dir))
    requires nouveaux == |InesOf(DecisionFiles(dir)) - Elements(e0)|
    requires |e1| == |e0| + nouveaux && e1[..|e0|] == e0
    requires f1 == InsertIgnoreAll(f0, Synthesized(Ids(departements)))
    requires i1 == i0 + Elements(Batch(DecisionFiles(dir), CachesOf(departements, e1, decisions, f1)))
    requires count == |Elements(Batch(DecisionFiles(dir), CachesOf(departements, e1, decisions, f1))) - i0|
    ensures SettledTables(dir, departements, decisions, e1, f1, i1)
    ensures SettledTables(dir, departements, decisions, e0, f0, i0) ==>
              nouveaux == 0 && count == 0 && e1 == e0 && f1 == f0 && i1 == i0
  {
    InsertIgnoreAllIdempotent(f0, Synthesized(Ids(departements)));
    if SettledTables(dir, departements, decisions, e0, f0, i0) {
      assert InesOf(DecisionFiles(dir)) - Elements(e0) == {};
      assert e1 == e1[..|e0|];
    }
  }

  /**
   * One pass of the student, program and enrollment steps. Afterwards the
   * database is settled; a pass over a settled database changes nothing and
   * reports no new student and no new enrollment.
   */
  method ImportPass(db: Database, dir: seq<DataFile>) returns (total: int, nouveaux: int, inscriptions: int)
    requires Distinct(db.etudiants) && Distinct(db.formations)
    modifies db`etudiants, db`formations, db`inscriptions
    ensures Distinct(db.etudiants) && Distinct(db.formations) && Settled(db, dir)
    ensures total == |InesOf(DecisionFiles(dir))| && 0 <= nouveaux <= total
    ensures nouveaux == |InesOf(DecisionFiles(dir)) - Elements(old(db.etudiants))|
    ensures SettledTables(dir, db.departements, db.decisions,
                          old(db.etudiants), old(db.formations), old(db.inscriptions)) ==>
              && nouveaux == 0 && inscriptions == 0
              && db.etudiants == old(db.etudiants) && db.formations == old(db.formations)
              && db.inscriptions == old(db.inscriptions)
  {
    ghost var e0, f0, i0 := db.etudiants, db.formations, db.inscriptions;
    total, nouveaux := ImportEtudiants(db, dir);
    ImportFormations(db);
    inscriptions := ImportInscriptions(db, dir);
    PassSettles(dir, db.departements, db.decisions, e0, db.etudiants, f0, db.formations, i0, db.inscriptions,
                nouveaux, inscriptions);
  }

  /**
   * The four seeding steps of the pipeline, in its order: decision codes,
   * departments, study rhythms and enrollment states (each step states
   * what it writes; here only the table invariants are carried on).
   */
  method SeedTables(db: Database, data: seq<DeptEntry>)
    requires db.Valid()
    modifies db`decisions, db`departements, db`rythmes, db`etats
    ensures db.Valid()
  {
    ImportDecisions(db);
    ImportDepartements(db, data);
    ImportRythmes(db);
    ImportEtats(db);
  }

  /**
   * The student, program and enrollment steps run twice in a row, as the
   * pipeline does: the second pass finds the tables settled by the first, so
   * it reports no new student and no new enrollment.
   */
  method ImportTwice(db: Database, dir: seq<DataFile>) returns (total: int, nouveaux: int, inscriptions: int)
    requires Distinct(db.etudiants) && Distinct(db.formations)
    modifies db`etudiants, db`formations, db`inscriptions
    ensures Distinct(db.etudiants) && Distinct(db.formations)
    ensures total == |InesOf(DecisionFiles(dir))| && nouveaux == 0 && inscriptions == 0
  {
    var _, _, _ := ImportPass(db, dir);
    total, nouveaux, inscriptions := ImportPass(db, dir);
  }

  /**
   * `run_import_pipeline` as written: nothing happens without
   * `departements.json`; otherwise the vocabularies are seeded and the
   * student, program and enrollment steps run twice, so the statistics come
   * from the second pass: every student counts as known and no enrollment
   * as new.
   */
  method RunImportPipeline(db: Database, deptsJson: Option<seq<DeptEntry>>, dir: seq<DataFile>)
    returns (stats: Option<ImportStats>)
    requires db.Valid()
    modifies db
    ensures db.Valid()
    ensures deptsJson.None? ==> stats.None? && unchanged(db)
    ensures deptsJson.Some? ==>
              var total := |InesOf(DecisionFiles(dir))|;
              stats == Some(ImportStats(total, 0, total, 0))
  {
    if deptsJson.None? {
      stats := None;
    } else {
      SeedTables(db, deptsJson.value);
      var totalEtu, nouveauxEtu, nbInscriptions := ImportTwice(db, dir);
      var dejaConnus := totalEtu - nouveauxEtu;
      stats := Some(ImportStats(totalEtu, nouveauxEtu, dejaConnus, nbInscriptions));
    }
  }

  /**
   * The pipeline with a single pass, as its statistics evidently intend:
   * `nouveaux` counts the INEs the student table did not hold before the
   * run, `connus` those it did, and `inscriptions` the enrollments the run
   * added.
   */
  method RunImportPipelineOnce(db: Database, deptsJson: Option<seq<DeptEntry>>, dir: seq<DataFile>)
    returns (stats: Option<ImportStats>)
    requires db.Valid()
    modifies db
    ensures db.Valid()
    ensures deptsJson.None? ==> stats.None? && unchanged(db)
    ensures deptsJson.Some? ==>
              var ines := InesOf(DecisionFiles(dir));
              stats == Some(ImportStats(|ines|, |ines - Elements(old(db.etudiants))|,
                                        |ines * Elements(old(db.etudiants))|,
                                        |db.inscriptions - old(db.inscriptions)|))
  {
    if deptsJson.None? {
      stats := None;
    } else {
      SeedTables(db, deptsJson.value);
      var totalEtu, nouveauxEtu, nbInscriptions := ImportOnce(db, dir);
      var dejaConnus := totalEtu - nouveauxEtu;
      stats := Some(ImportStats(totalEtu, nouveauxEtu, dejaConnus, nbInscriptions));
    }
  }
}
