/**
 * `_import_inscriptions` and the INE collection of `_import_etudiants`: the
 * lookup caches built from the tables, the derivation of one enrollment from
 * one record, and the walk over the decisions files.
 */
module Importer {
  import opened Wrappers
  import opened Text
  import opened Json
  import opened Store
  import opened Resolver
  import opened Classifier

  // ---------------------------------------------------------------------------
  // The caches

  /** `cache_depts`, `cache_etus`, `cache_dec` and `cache_form`. */
  datatype Caches = Caches(depts: map<string, int>, etus: map<string, int>,
                           decisions: map<string, int>, formations: map<Formation, int>)

  /** `SELECT acronyme, id_departement FROM departement`, keyed by the upper-cased acronym. */
  function DeptPairs(t: seq<Row>): (r: seq<(string, int)>)
    ensures |r| == |t| && forall i :: 0 <= i < |t| ==> r[i] == (Upper(t[i].entry.acronyme), t[i].id)
  {
    seq(|t|, i requires 0 <= i < |t| => (Upper(t[i].entry.acronyme), t[i].id))
  }

  /** `str(ine).strip().lower()`: the form under which `cache_etus` knows a student. */
  function IneKey(ine: string): string
  {
    Lower(Strip(ine))
  }

  /** The `ine` column under `str(ine).strip().lower()`, in rowid order. */
  function IneKeys(e: seq<string>): (r: seq<string>)
    ensures |r| == |e| && forall i :: 0 <= i < |e| ==> r[i] == IneKey(e[i])
  {
    seq(|e|, i requires 0 <= i < |e| => IneKey(e[i]))
  }

  /** The decision `acronyme` column upper-cased, in rowid order. */
  function DecisionKeys(d: seq<Label>): (r: seq<string>)
    ensures |r| == |d| && forall i :: 0 <= i < |d| ==> r[i] == Upper(d[i].acronyme)
  {
    seq(|d|, i requires 0 <= i < |d| => Upper(d[i].acronyme))
  }

  /**
   * The four caches as `_import_inscriptions` builds them from the current
   * tables. The etudiant, decision and formation ids are rowids; the
   * departement id is the stored one.
   */
  function CachesOf(departements: seq<Row>, etudiants: seq<string>, decisions: seq<Label>,
                    formations: seq<Formation>): Caches
  {
    Caches(ToDict(DeptPairs(departements)), ToDict(Indexed(IneKeys(etudiants))),
           ToDict(Indexed(DecisionKeys(decisions))), ToDict(Indexed(formations)))
  }

  /** On a table without duplicates, `cache_form` finds exactly the stored programs, under their row ids. */
  lemma FormationCacheSpec(f: seq<Formation>, x: Formation)
    requires Distinct(f)
    ensures x in ToDict(Indexed(f)) <==> x in f
    ensures x in f ==> ToDict(Indexed(f))[x] == RowId(f, x)
  {
    IndexedDict(f, x);
    if x in f {
      var id := ToDict(Indexed(f))[x];
      var j := RowId(f, x);
      assert f[id - 1] == x && f[j - 1] == x;
      assert !(id - 1 < j - 1);
      assert !(j - 1 < id - 1);
    }
  }

  // ---------------------------------------------------------------------------
  // One record

  /** Python's truth value of an optional id: `None` and `0` are false. */
  predicate TruthyId(o: Option<int>)
  {
    o.Some? && o.value != 0
  }

  /** Python's `x or y` on optional ids. */
  function OrId(x: Option<int>, y: Option<int>): Option<int>
  {
    if TruthyId(x) then x else y
  }

  /** `id_dept in [cache_depts.get('P_SD_INFO'), cache_depts.get('P_CJ_GEA')]`. */
  predicate IsBridge(dept: int, depts: map<string, int>)
  {
    Get(depts, "P_SD_INFO") == Some(dept) || Get(depts, "P_CJ_GEA") == Some(dept)
  }

  /** The level a department's lookup uses: always 2 for a bridge department. */
  function LookupLevel(dept: int, niveau: int, depts: map<string, int>): int
  {
    if IsBridge(dept, depts) then 2 else niveau
  }

  /**
   * `id_form`: the program of the lookup level, the department and the file's
   * rhythm; on a work-study miss, year 2 then year 3 of the department's
   * work-study track; None (skip) when nothing truthy is found.
   */
  function ProgramId(dept: int, niveau: int, rythme: int, c: Caches): (r: Option<int>)
    ensures r.Some? ==> r.value != 0
  {
    var first := Get(c.formations, Formation(LookupLevel(dept, niveau, c.depts), dept, rythme));
    var id := if !TruthyId(first) && rythme == 2
              then OrId(Get(c.formations, Formation(2, dept, 2)), Get(c.formations, Formation(3, dept, 2)))
              else first;
    if TruthyId(id) then id else None
  }

  /**
   * Against the formation table: the lookup finds the program of the lookup
   * level in the file's rhythm when it exists; a work-study file falls back to
   * year 2, then year 3, of the department's work-study track; the record is
   * skipped exactly when all of these are missing.
   */
  lemma ProgramIdInTable(dept: int, niveau: int, rythme: int, c: Caches, f: seq<Formation>)
    requires Distinct(f) && c.formations == ToDict(Indexed(f))
    ensures var p := Formation(LookupLevel(dept, niveau, c.depts), dept, rythme);
            p in f ==> ProgramId(dept, niveau, rythme, c) == Some(RowId(f, p))
    ensures var p := Formation(LookupLevel(dept, niveau, c.depts), dept, rythme);
            p !in f && rythme == 2 && Formation(2, dept, 2) in f ==>
              ProgramId(dept, niveau, rythme, c) == Some(RowId(f, Formation(2, dept, 2)))
    ensures var p := Formation(LookupLevel(dept, niveau, c.depts), dept, rythme);
            p !in f && rythme == 2 && Formation(2, dept, 2) !in f && Formation(3, dept, 2) in f ==>
              ProgramId(dept, niveau, rythme, c) == Some(RowId(f, Formation(3, dept, 2)))
    ensures var p := Formation(LookupLevel(dept, niveau, c.depts), dept, rythme);
            ProgramId(dept, niveau, rythme, c).None? <==>
              p !in f && (rythme != 2 || (Formation(2, dept, 2) !in f && Formation(3, dept, 2) !in f))
  {
    var p := Formation(LookupLevel(dept, niveau, c.depts), dept, rythme);
    CacheGet(f, p);
    CacheGet(f, Formation(2, dept, 2));
    CacheGet(f, Formation(3, dept, 2));
  }

  /** `cache_form.get(x)` on a table without duplicates: the row id of `x`, which is never 0, or None. */
  lemma CacheGet(f: seq<Formation>, x: Formation)
    requires Distinct(f)
    ensures Get(ToDict(Indexed(f)), x) == if x in f then Some(RowId(f, x)) else None
    ensures x in f ==> RowId(f, x) != 0
  {
    FormationCacheSpec(f, x);
  }

  /** Whatever the lookup returns is a program of the file's department and rhythm. */
  lemma ProgramIdRefers(dept: int, niveau: int, rythme: int, c: Caches, f: seq<Formation>)
    requires Distinct(f) && c.formations == ToDict(Indexed(f))
    ensures var r := ProgramId(dept, niveau, rythme, c);
            r.Some? ==> 1 <= r.value <= |f| && f[r.value - 1].dept == dept && f[r.value - 1].rythme == rythme
  {
    ProgramIdInTable(dept, niveau, rythme, c, f);
  }

  /** What the file name fixes for all its records: the department id, the year token and the rhythm. */
  datatype FileContext = FileContext(dept: int, year: Option<int>, rythme: int)

  /** The file's context, or None when its department does not resolve (the whole file is skipped). */
  function FileContextOf(name: string, c: Caches): (r: Option<FileContext>)
    ensures r.Some? ==> r.value.rythme == FileRythme(name) && r.value.year == FourDigitYear(name)
    ensures r.Some? <==> TruthyId(DeptIdFromName(name, c.depts))
  {
    var d := DeptIdFromName(name, c.depts);
    if TruthyId(d) then Some(FileContext(d.value, FourDigitYear(name), FileRythme(name))) else None
  }

  /** The enrollment one record yields, or None when a step does not resolve and the record is skipped. */
  function Derive(rec: Record, fc: FileContext, c: Caches): Option<Inscription>
  {
    var etu := Get(c.etus, IneKey(rec.etudid));
    if rec.etudid == "" || !TruthyId(etu) then None
    else match DecisionCode(rec)
      case None => None
      case Some(code) =>
        match AcademicYear(rec.annee, fc.year)
        case None => None
        case Some(annee) =>
          var form := ProgramId(fc.dept, Niveau(rec.annee), fc.rythme, c);
          if form.None? then None
          else Some(Inscription(annee, etu.value, EtatId(code), form.value, Get(c.decisions, Upper(Render(code)))))
  }

  /**
   * A record yields an enrollment exactly when its student, code, year and
   * program all resolve; the enrollment then carries them, its state is 2
   * exactly for a withdrawal code, and a code missing from the decision
   * table leaves the decision null without skipping the record.
   */
  lemma DeriveSpec(rec: Record, fc: FileContext, c: Caches)
    ensures Derive(rec, fc, c).Some? <==>
              && rec.etudid != "" && TruthyId(Get(c.etus, IneKey(rec.etudid)))
              && DecisionCode(rec).Some? && AcademicYear(rec.annee, fc.year).Some?
              && ProgramId(fc.dept, Niveau(rec.annee), fc.rythme, c).Some?
    ensures Derive(rec, fc, c).Some? ==>
              var ins := Derive(rec, fc, c).value;
              var code := DecisionCode(rec).value;
              && ins.etudiant == c.etus[IneKey(rec.etudid)]
              && ins.annee == AcademicYear(rec.annee, fc.year).value
              && ins.formation == ProgramId(fc.dept, Niveau(rec.annee), fc.rythme, c).value
              && (ins.etat == 2 <==> code.Str? && code.s in WithdrawnCodes)
              && (ins.decision.None? <==> Upper(Render(code)) !in c.decisions)
  {
  }

  /** A record whose only hint is `etat` = 'D' or 'ABAN' is enrolled as withdrawn, and with 'I' as enrolled. */
  lemma EtatFallbackState(rec: Record, fc: FileContext, c: Caches)
    requires !Truthy(CodeOf(rec.annee)) && !Truthy(CodeOf(rec.decision)) && !Truthy(CodeOf(rec.semestre))
    requires Derive(rec, fc, c).Some?
    ensures rec.etat in {Str("D"), Str("ABAN"), Str("DEF"), Str("I")}
    ensures Derive(rec, fc, c).value.etat == (if rec.etat == Str("I") then 1 else 2)
  {
    DecisionCodeChain(rec);
    assert DecisionCode(rec).Some?;
    assert Derive(rec, fc, c).value.etat == EtatId(DecisionCode(rec).value);
  }

  /** An enrollment points at existing rows: a student, a program and, when not null, a decision. */
  predicate Refers(ins: Inscription, etudiants: seq<string>, formations: seq<Formation>, decisions: seq<Label>)
  {
    && 1 <= ins.etudiant <= |etudiants|
    && 1 <= ins.formation <= |formations|
    && (ins.decision.Some? ==> 1 <= ins.decision.value <= |decisions|)
    && (ins.etat == 1 || ins.etat == 2)
  }

  /** With caches built from the tables, a derived enrollment refers to existing rows. */
  lemma DeriveRefers(rec: Record, fc: FileContext, departements: seq<Row>, etudiants: seq<string>,
                     decisions: seq<Label>, formations: seq<Formation>)
    requires Distinct(formations)
    ensures var c := CachesOf(departements, etudiants, decisions, formations);
            Derive(rec, fc, c).Some? ==> Refers(Derive(rec, fc, c).value, etudiants, formations, decisions)
  {
    var c := CachesOf(departements, etudiants, decisions, formations);
    DeriveSpec(rec, fc, c);
    if Derive(rec, fc, c).Some? {
      IndexedDict(IneKeys(etudiants), IneKey(rec.etudid));
      ProgramIdRefers(fc.dept, Niveau(rec.annee), fc.rythme, c, formations);
      IndexedDict(DecisionKeys(decisions), Upper(Render(DecisionCode(rec).value)));
    }
  }

  /** The body of the loop over one file's records, step by step as the source reassigns its variables. */
  method RecordInscription(etu: Record, fc: FileContext, c: Caches) returns (row: Option<Inscription>)
    ensures row == Derive(etu, fc, c)
  {
    row := None;
    var ine := etu.etudid;
    if ine == "" {
      return;
    }
    var idEtudiant := Get(c.etus, IneKey(ine));
    if !TruthyId(idEtudiant) {
      return;
    }
    row := StudentInscription(etu, idEtudiant.value, fc, c);
  }

  /** The rest of the loop body, once the record's student is known. */
  method StudentInscription(etu: Record, idEtudiant: int, fc: FileContext, c: Caches) returns (row: Option<Inscription>)
    requires etu.etudid != "" && Get(c.etus, IneKey(etu.etudid)) == Some(idEtudiant) && idEtudiant != 0
    ensures row == Derive(etu, fc, c)
  {
    DeriveSpec(etu, fc, c);
    row := None;
    var cDec := RecordCode(etu);
    if !Truthy(cDec) {
      return;
    }
    var anneeReelle := RecordYear(etu, fc.year);
    if !TruthyId(anneeReelle) {
      return;
    }
    var idDecision := Get(c.decisions, Upper(Render(cDec)));
    var idForm := RecordProgram(etu, fc, c);
    if !TruthyId(idForm) {
      return;
    }
    var idEtat := if cDec.Str? && cDec.s in WithdrawnCodes then 2 else 1;
    row := Some(Inscription(anneeReelle.value, idEtudiant, idEtat, idForm.value, idDecision));
  }

  /** `c_dec`: the first block code, then the `etat` fallback; falsy when the record has none. */
  method RecordCode(etu: Record) returns (cDec: Scalar)
    ensures Truthy(cDec) ==> DecisionCode(etu) == Some(cDec)
    ensures !Truthy(cDec) ==> DecisionCode(etu).None?
  {
    cDec := BlockCode(etu);
    var etatAdm := etu.etat;
    if !Truthy(cDec) {
      if etatAdm == Str("D") {
        cDec := Str("DEM");
      } else if etatAdm == Str("DEF") {
        cDec := Str("DEF");
      } else if etatAdm == Str("ABAN") {
        cDec := Str("DEM");
      } else if etatAdm == Str("I") {
        cDec := Str("INS");
      }
    }
  }

  /** `annee_reelle`: the file's year, overridden by an `annee_scolaire` that `int()` accepts. */
  method RecordYear(etu: Record, fileYear: Option<int>) returns (anneeReelle: Option<int>)
    ensures TruthyId(anneeReelle) <==> AcademicYear(etu.annee, fileYear).Some?
    ensures TruthyId(anneeReelle) ==> anneeReelle == AcademicYear(etu.annee, fileYear)
  {
    anneeReelle := fileYear;
    var scol := if etu.annee.Some? then etu.annee.value.anneeScolaire else Null;
    if Truthy(scol) {
      var parsed := ToInt(scol);
      if parsed.Some? {
        anneeReelle := parsed;
      }
    }
  }

  /** `niveau` and `id_form`: the level lookup, the bridge case and the work-study fallback. */
  method RecordProgram(etu: Record, fc: FileContext, c: Caches) returns (idForm: Option<int>)
    ensures TruthyId(idForm) <==> ProgramId(fc.dept, Niveau(etu.annee), fc.rythme, c).Some?
    ensures TruthyId(idForm) ==> idForm == ProgramId(fc.dept, Niveau(etu.annee), fc.rythme, c)
  {
    var niveau := 1;
    var ordre := Upper(if etu.annee.Some? then Render(etu.annee.value.ordre) else "");
    if Contains(ordre, "3") {
      niveau := 3;
    } else if Contains(ordre, "2") {
      niveau := 2;
    }
    assert niveau == Niveau(etu.annee);
    if IsBridge(fc.dept, c.depts) {
      idForm := Get(c.formations, Formation(2, fc.dept, fc.rythme));
    } else {
      idForm := Get(c.formations, Formation(niveau, fc.dept, fc.rythme));
    }
    if !TruthyId(idForm) && fc.rythme == 2 {
      idForm := OrId(Get(c.formations, Formation(2, fc.dept, 2)), Get(c.formations, Formation(3, fc.dept, 2)));
    }
  }

  // ---------------------------------------------------------------------------
  // The files

  /** `[g(x) for x in xs]` without the items the step `g` rejects: a loop whose body may `continue`. */
  function Kept<A, B>(xs: seq<A>, g: A -> Option<B>): seq<B>
    decreases |xs|
  {
    if xs == [] then []
    else
      var n := |xs| - 1;
      Kept(xs[..n], g) + (match g(xs[n]) case Some(y) => [y] case None => [])
  }

  lemma {:induction false} KeptSpec<A, B>(xs: seq<A>, g: A -> Option<B>, y: B)
    ensures y in Kept(xs, g) <==> exists x :: x in xs && g(x) == Some(y)
    decreases |xs|
  {
    if xs != [] {
      var n := |xs| - 1;
      KeptSpec(xs[..n], g, y);
      assert xs == xs[..n] + [xs[n]];
    }
  }

  lemma KeptSnoc<A, B>(xs: seq<A>, g: A -> Option<B>, i: nat)
    requires i < |xs|
    ensures Kept(xs[..i + 1], g) == Kept(xs[..i], g) + (match g(xs[i]) case Some(y) => [y] case None => [])
  {
    assert xs[..i + 1][..i] == xs[..i];
  }

  /** The per-record step of one file. */
  function DeriveIn(fc: FileContext, c: Caches): Record -> Option<Inscription>
  {
    r => Derive(r, fc, c)
  }

  /** The enrollments of a file's records, in record order. */
  function RecordRows(recs: seq<Record>, fc: FileContext, c: Caches): seq<Inscription>
  {
    Kept(recs, DeriveIn(fc, c))
  }

  /** The enrollments of one file: none when its department does not resolve or it cannot be read. */
  function FileRows(f: DataFile, c: Caches): seq<Inscription>
  {
    match FileContextOf(f.name, c)
    case None => []
    case Some(fc) => RecordRows(StudentList(f.content), fc, c)
  }

  /** The per-file step of the batch. */
  function FileRowsIn(c: Caches): DataFile -> seq<Inscription>
  {
    f => FileRows(f, c)
  }

  /** The `inscriptions` list of `_import_inscriptions` for these files, in file order. */
  function Batch(files: seq<DataFile>, c: Caches): seq<Inscription>
  {
    Flatten(files, FileRowsIn(c))
  }

  lemma RecordRowsDerived(recs: seq<Record>, fc: FileContext, c: Caches, ins: Inscription)
    ensures ins in RecordRows(recs, fc, c) <==> exists r :: r in recs && Derive(r, fc, c) == Some(ins)
  {
    KeptSpec(recs, DeriveIn(fc, c), ins);
  }

  /** The enrollments of a batch are those of its files. */
  lemma BatchFiles(files: seq<DataFile>, c: Caches, ins: Inscription)
    ensures ins in Batch(files, c) <==> exists f :: f in files && ins in FileRows(f, c)
  {
    FlattenSpec(files, FileRowsIn(c), ins);
  }

  /** The enrollments of a file whose department resolves are those its records derive. */
  lemma FileRowsDerived(f: DataFile, c: Caches, ins: Inscription)
    ensures ins in FileRows(f, c) <==>
              FileContextOf(f.name, c).Some? &&
              exists r :: r in StudentList(f.content) && Derive(r, FileContextOf(f.name, c).value, c) == Some(ins)
  {
    if FileContextOf(f.name, c).Some? {
      RecordRowsDerived(StudentList(f.content), FileContextOf(f.name, c).value, c, ins);
    }
  }

  /**
   * Every queued enrollment comes from a record of a decisions file whose
   * department resolves, and every record that derives one is queued.
   */
  lemma BatchSpec(files: seq<DataFile>, c: Caches, ins: Inscription)
    ensures ins in Batch(files, c) <==>
              exists f, r :: f in files && FileContextOf(f.name, c).Some? && r in StudentList(f.content)
                             && Derive(r, FileContextOf(f.name, c).value, c) == Some(ins)
  {
    BatchFiles(files, c, ins);
    if ins in Batch(files, c) {
      var f :| f in files && ins in FileRows(f, c);
      FileRowsDerived(f, c, ins);
    }
    if exists f, r :: f in files && FileContextOf(f.name, c).Some? && r in StudentList(f.content)
                      && Derive(r, FileContextOf(f.name, c).value, c) == Some(ins) {
      var f, r :| f in files && FileContextOf(f.name, c).Some? && r in StudentList(f.content)
                  && Derive(r, FileContextOf(f.name, c).value, c) == Some(ins);
      FileRowsDerived(f, c, ins);
    }
  }

  /** One more record: the enrollments of the longer prefix are those of the shorter one and the record's own. */
  lemma RecordRowsSnoc(recs: seq<Record>, fc: FileContext, c: Caches, i: nat)
    requires i < |recs|
    ensures RecordRows(recs[..i + 1], fc, c) ==
              RecordRows(recs[..i], fc, c) + (match Derive(recs[i], fc, c) case Some(x) => [x] case None => [])
  {
    KeptSnoc(recs, DeriveIn(fc, c), i);
  }

  /** The loop over one file's records. */
  method FileInscriptions(f: DataFile, c: Caches) returns (rows: seq<Inscription>)
    ensures rows == FileRows(f, c)
  {
    rows := [];
    var idDept := DeptIdFromName(f.name, c.depts);
    if !TruthyId(idDept) {
      return;
    }
    var anneeFic := FourDigitYear(f.name);
    var idRythmeFic := FileRythme(f.name);
    if f.content.Unreadable? {
      return;
    }
    var liste := StudentList(f.content);
    rows := RecordsInscriptions(liste, FileContext(idDept.value, anneeFic, idRythmeFic), c);
  }

  /** The loop `for etu in liste` of one file. */
  method RecordsInscriptions(liste: seq<Record>, fc: FileContext, c: Caches) returns (rows: seq<Inscription>)
    ensures rows == RecordRows(liste, fc, c)
  {
    rows := [];
    for i := 0 to |liste|
      invariant rows == RecordRows(liste[..i], fc, c)
    {
      RecordRowsSnoc(liste, fc, c, i);
      var row := RecordInscription(liste[i], fc, c);
      if row.Some? {
        rows := rows + [row.value];
      }
    }
    assert liste[..|liste|] == liste;
  }

  /** One more file: its enrollments follow those of the files before it. */
  lemma BatchSnoc(files: seq<DataFile>, c: Caches, i: nat)
    requires i < |files|
    ensures Batch(files[..i + 1], c) == Batch(files[..i], c) + FileRows(files[i], c)
  {
    FlattenSnoc(files, FileRowsIn(c), i);
  }

  /** The loop over the decisions files of the directory. */
  method CollectInscriptions(dir: seq<DataFile>, c: Caches) returns (rows: seq<Inscription>)
    ensures rows == Batch(DecisionFiles(dir), c)
  {
    var files := DecisionFiles(dir);
    rows := [];
    for i := 0 to |files|
      invariant rows == Batch(files[..i], c)
    {
      BatchSnoc(files, c, i);
      var fileRows := FileInscriptions(files[i], c);
      rows := rows + fileRows;
    }
    assert files[..|files|] == files;
  }

  // ---------------------------------------------------------------------------
  // The INEs of `_import_etudiants`

  /** The truthy `etudid` values of a list of records. */
  function RecordInes(recs: seq<Record>): set<string>
    decreases |recs|
  {
    if recs == [] then {}
    else
      var n := |recs| - 1;
      RecordInes(recs[..n]) + (if recs[n].etudid != "" then {recs[n].etudid} else {})
  }

  /**
   * The INEs one file contributes: those of a bare list. Iterating an object
   * yields its keys, whose `.get` raises at once, and the swallowed exception
   * leaves such a file (like an unreadable one) without contribution.
   */
  function FileInes(c: Content): set<string>
  {
    if c.Records? then RecordInes(c.list) else {}
  }

  /** The set `ines` after the loop over these files. */
  function InesOf(files: seq<DataFile>): set<string>
    decreases |files|
  {
    if files == [] then {} else InesOf(files[..|files| - 1]) + FileInes(files[|files| - 1].content)
  }

  lemma {:induction false} RecordInesSpec(recs: seq<Record>, x: string)
    ensures x in RecordInes(recs) <==> x != "" && exists r :: r in recs && r.etudid == x
    decreases |recs|
  {
    if recs != [] {
      var n := |recs| - 1;
      RecordInesSpec(recs[..n], x);
      assert recs == recs[..n] + [recs[n]];
    }
  }

  /** The student set is the set of distinct truthy `etudid` values of the bare-list files. */
  lemma {:induction false} InesOfSpec(files: seq<DataFile>, x: string)
    ensures x in InesOf(files) <==>
              x != "" && exists f, r :: f in files && f.content.Records? && r in f.content.list && r.etudid == x
    decreases |files|
  {
    if files != [] {
      var n := |files| - 1;
      InesOfSpec(files[..n], x);
      if files[n].content.Records? {
        RecordInesSpec(files[n].content.list, x);
      }
      assert files == files[..n] + [files[n]];
    }
  }

  lemma InesOfSnoc(files: seq<DataFile>, i: nat)
    requires i < |files|
    ensures InesOf(files[..i + 1]) == InesOf(files[..i]) + FileInes(files[i].content)
  {
    assert files[..i + 1][..i] == files[..i];
  }

  lemma RecordInesSnoc(recs: seq<Record>, j: nat)
    requires j < |recs|
    ensures RecordInes(recs[..j + 1]) == RecordInes(recs[..j]) + (if recs[j].etudid != "" then {recs[j].etudid} else {})
  {
    assert recs[..j + 1][..j] == recs[..j];
  }

  /** The loops of `_import_etudiants` that fill `ines`. */
  method CollectInes(dir: seq<DataFile>) returns (ines: set<string>)
    ensures ines == InesOf(DecisionFiles(dir))
  {
    var files := DecisionFiles(dir);
    ines := {};
    for i := 0 to |files|
      invariant ines == InesOf(files[..i])
    {
      InesOfSnoc(files, i);
      var content := files[i].content;
      if content.Records? {
        ines := AddRecordInes(ines, content.list);
      }
    }
    assert files[..|files|] == files;
  }

  /** The loop `for rec in content`: each truthy `etudid` joins the set. */
  method AddRecordInes(ines0: set<string>, recs: seq<Record>) returns (ines: set<string>)
    ensures ines == ines0 + RecordInes(recs)
  {
    ines := ines0;
    for j := 0 to |recs|
      invariant ines == ines0 + RecordInes(recs[..j])
    {
      RecordInesSnoc(recs, j);
      var ine := recs[j].etudid;
      if ine != "" {
        ines := ines + {ine};
      }
    }
    assert recs[..|recs|] == recs;
  }
}
