# Student decisions import and ScoDoc synchronisation, in Dafny

This project models the data-loading core of a Flask application that
follows students of a BUT programme (departments, study rhythms, programme
years, enrollments and jury decisions) in a local SQLite database. The
modelled core is in two services:

- `DonneeService` fills the database from a directory of JSON files. It
  seeds four fixed vocabularies: the decision codes, the departments (with
  two "passerelle" bridge departments), the rhythms (full-time FI and
  work-study FA) and the enrollment states. It collects every student INE
  of the `decisions_*.json` files. It synthesizes the programme rows each
  department must have. Then it turns every student record into an
  enrollment, using the file name to find the department, the year and the
  rhythm, a chain of fallbacks for the decision code, and the lookup caches
  built from the tables. `run_import_pipeline` chains these steps and
  reports statistics. The year guard of the search form is modelled as
  well.
- `ScoDocService` copies rhythms, departments, programmes, students and
  enrollments from the ScoDoc API. Each insert is INSERT OR IGNORE, and
  each counter goes up only when its insert added a row. It also derives a
  programme's BUT year from its acronym and name.

The database is the class `Store.Database`. Its fields are the seven
tables. The decision, student and programme tables are sequences in rowid
order, so a row id is an index plus one. The department, rhythm and state
tables are sequences of `(id, (nom, acronyme))` rows in ascending id order.
A `SELECT` without `ORDER BY` is assumed to return rows in that order
(ascending id, or rowid for the sequence tables); SQL leaves it unspecified
(see "## Left out"). The enrollment table is a set, so the whole
five-column row (student, programme, year, decision, state) is its key.
`Database.Valid()` states the unique keys the SQL schema is assumed to
enforce: the decision acronym; the id and the acronym of a department,
rhythm or state; the student INE; the (year, department, rhythm) of a
programme; and the whole row of an enrollment. INSERT OR IGNORE and INSERT OR REPLACE follow SQLite's rules.
A dictionary built by a comprehension over a `SELECT` keeps the last row
of each key.

The module structure follows the program:

| module | file | models |
|---|---|---|
| `Wrappers` | wrappers.dfy | `Option` and `dict.get` |
| `Text` | text.dfy | `in`, `upper`, `lower`, `strip`, `int()`, `str()` of an integer, and the `\d{4}` search |
| `Json` | json.dfy | parsed JSON records and files, and the `decisions_*.json` glob |
| `Store` | store.dfy | the tables, INSERT OR IGNORE and INSERT OR REPLACE, and the lookup caches |
| `Resolver` | resolver.dfy | `_get_dept_id_from_name`, the year token and the rhythm of a file name |
| `Classifier` | classifier.dfy | the decision code, state, academic year and level of one record |
| `Synthesizer` | synthesizer.dfy | `_import_formations` |
| `Importer` | importer.dfy | `_import_inscriptions` and the INE collection of `_import_etudiants` |
| `DonneeService` | donnee_service.dfy | the import steps, `run_import_pipeline` and the search year guard |
| `ScoDocService` | scodoc_service.dfy | `synchroniser_avec_sco_doc` and `_determiner_annee_but` |

Each `for` statement of the source is a method with a `for` or `while`
loop; the comprehensions (DonneeService.py:117, 153, 169-176) are
functions (`DeptBatch`, `Ids`, `CachesOf`). Each such method is proved against a function that says what the whole loop
computes, and lemmas then prove what the source promises about that
function.

**Design intent versus code.** The pipeline is meant to report, for one
import, how many INEs are new and how many enrollments were added. As
written, `run_import_pipeline` runs the student, programme and enrollment
steps twice (DonneeService.py:74-81). The reported numbers come from the
second pass, which finds the tables already settled. So `nouveaux` is
always 0 and every student counts as known. `inscriptions` is 0 when every
queued enrollment has a stored decision; under SQLite's rule that NULLs are
distinct in a unique key, an enrollment with a null decision is inserted
again by the second pass and counted (see "## Left out"). The
model follows the code (`DonneeService.RunImportPipeline`). The single-pass
version is modelled beside it (`DonneeService.RunImportPipelineOnce`); see
"## Findings".

## Model

| member | source | states |
|---|---|---|
| `Store.Database.InsertOrIgnoreRythme` | app/services/ScoDocService.py:66-71 | the row is added exactly when it clashes with no stored id or acronym; the table grows by one exactly then, and the ids and acronyms stay unique |
| `Store.Database.InsertOrIgnoreDepartement` | app/services/ScoDocService.py:76-81 | the same for a department: added iff it clashes with no stored id or acronym, then one row more |
| `Store.Database.InsertOrIgnoreFormation` | app/services/ScoDocService.py:90-100 | added iff the (year, department, rhythm) is not stored; the table stays without duplicates and is the old one with the row appended when new |
| `Store.Database.InsertOrIgnoreEtudiant` | app/services/ScoDocService.py:125-130 | added iff the INE is not stored; the table stays without duplicates and is the old one with the INE appended when new, so old students keep their rowid |
| `Store.Database.InsertOrIgnoreInscription` | app/services/ScoDocService.py:142-154 | added iff the enrollment was not stored; afterwards it is stored |
| `Store.Database.Rollback` | app/services/ScoDocService.py:160-161 | `db.rollback()` after a call that wrote the rhythm, department and programme tables: those three get back their earlier contents and the table invariants hold |
| `Store.InsertIgnoreAllKeeps` | app/services/DonneeService.py:143 | `executemany` of INSERT OR IGNORE keeps the existing rows and their rowids and adds no duplicate |
| `Store.InsertIgnoreAllContains` | app/services/DonneeService.py:165 | afterwards a row is stored iff it was stored before or is in the batch |
| `Store.InsertIgnoreAllCount` | app/services/DonneeService.py:143-145 | the number of rows added (`cursor.rowcount`) is the number of distinct batch rows that were not stored |
| `Store.InsertIgnoreAllIdempotent` | app/services/DonneeService.py:165 | inserting the same batch a second time changes nothing |
| `Store.AddDecisionsSpec` | app/services/DonneeService.py:114 | seeding decisions keeps acronyms unique and the old rows in place; afterwards an acronym is present iff it was before or is in the batch |
| `Store.AddDecisionsCovers` | app/services/DonneeService.py:114 | after seeding, every acronym of the batch is present exactly once, and seeding again changes nothing |
| `Store.AddDecisionsPresent` | app/services/DonneeService.py:114 | seeding acronyms that are all present already leaves the table unchanged |
| `Store.InsertSorted` | app/services/DonneeService.py:120 | inserting a row with a fresh id keeps the table in ascending id order and adds exactly that row |
| `Store.Replace` | app/services/DonneeService.py:120 | INSERT OR REPLACE: afterwards the table holds the new row and exactly those old rows that clash with it on neither the id nor the acronym, in ascending id order |
| `Store.ReplaceAllKeepsUnique` | app/services/DonneeService.py:120 | a batch of INSERT OR REPLACE keeps acronyms unique |
| `Store.ReplaceAllLands` | app/services/DonneeService.py:120 | when no two rows of the batch clash, every row of the batch is stored afterwards |
| `Store.ReplaceAllKeeps` | app/services/DonneeService.py:120 | an old row that clashes with no row of the batch survives it |
| `Store.ReplaceAllPresent` | app/services/DonneeService.py:123-128 | replacing rows that are all stored already changes nothing |
| `Store.ReplaceAllIdempotent` | app/services/DonneeService.py:120-128 | a non-clashing INSERT OR REPLACE batch run twice gives the table it gives once |
| `Store.Ignore` | app/services/ScoDocService.py:66-67 | INSERT OR IGNORE with a given id: the row joins the table iff it clashes with no stored id or acronym; the table stays ascending |
| `Store.IgnoreSpec` | app/services/ScoDocService.py:66-71 | an ignored insert leaves the table unchanged; otherwise the table grows by one and holds the entry under that id; acronyms stay unique |
| `Store.IgnoreAllKeepsUnique` | app/services/ScoDocService.py:65-81 | a loop of INSERT OR IGNORE keeps acronyms unique |
| `Store.IgnoreAllCovers` | app/services/ScoDocService.py:65-81 | afterwards every row of the batch clashes with a stored row, so its insert would be ignored |
| `Store.IgnoreAllClashing` | app/services/ScoDocService.py:65-81 | a batch whose every row clashes with the table changes nothing |
| `Store.IgnoreAllIdempotent` | app/services/ScoDocService.py:65-81 | running the same INSERT OR IGNORE batch twice gives the table it gives once |
| `Store.ToDictLastWins` | app/services/DonneeService.py:169-176 | a dictionary comprehension over rows has a key iff some row has it, and maps it to the value of the last such row |
| `Store.IndexedDict` | app/services/DonneeService.py:171-176 | a cache keyed on a rowid table's column has exactly the stored keys, and maps each one to a rowid whose row has that key |
| `Text.IntToStringRoundTrip` | app/services/DonneeService.py:31 | `int(str(n)) == n` for every integer `n` |
| `Text.FirstDigitWindowIsLeftmost` | app/services/DonneeService.py:186 | the search finds a four-digit window iff there is one, and no earlier window exists |
| `Text.FourDigitYearSpec` | app/services/DonneeService.py:186-187 | the year token is None iff the name holds no four consecutive digits, and otherwise the value of the leftmost such window |
| `Json.DecisionFiles` | app/services/DonneeService.py:133 | the glob keeps exactly the files of the directory named `decisions_*.json` |
| `Resolver.DeptAcronym` | app/services/DonneeService.py:258-263 | a name that mentions "passerelle" resolves only to a bridge department or to nothing |
| `Resolver.DeptIdFromName` | app/services/DonneeService.py:258-270 | for such a name the id is None or the cached id of P_SD_INFO or of P_CJ_GEA |
| `Resolver.FirstMatchSpec` | app/services/DonneeService.py:258-270 | a rule table gives None when no rule fires, and otherwise the outcome of the first rule that fires |
| `Resolver.DeptAcronymIsFirstMatch` | app/services/DonneeService.py:258-270 | the chain of tests gives, for every name, the same acronym as the nine-rule table in source order |
| `Resolver.FileRythmeMarkers` | app/services/DonneeService.py:190-191 | the rhythm of a file is work-study iff its lower-cased name holds "fa", "apprentissage" or "alt"; the "alternance" marker never changes the outcome |
| `Classifier.DecisionCode` | app/services/DonneeService.py:211-221 | a code the record keeps is always truthy |
| `Classifier.DecisionCodeChain` | app/services/DonneeService.py:207-221 | the code is the first truthy one among `annee`, `decision` and `semestre`; failing all three, `etat` D or ABAN gives DEM, DEF gives DEF, I gives INS, and any other `etat` leaves no code |
| `Classifier.NonObjectHasNoCode` | app/services/DonneeService.py:207-209 | a sub-object that is not a JSON object counts as one without a code |
| `Classifier.EtatId` | app/services/DonneeService.py:250 | the state is 2 iff the code is one of DEM, DEF, ABAN, NI, D (compared as given), and 1 otherwise |
| `Classifier.AcademicYear` | app/services/DonneeService.py:223-228 | a year the record keeps is never 0 |
| `Classifier.AcademicYearSpec` | app/services/DonneeService.py:223-228 | a truthy `annee_scolaire` that `int()` accepts decides the year; otherwise the file's year does; a missing or zero year skips the record |
| `Classifier.NiveauSpec` | app/services/DonneeService.py:233-236 | the level is 3 if `ordre` has a '3', else 2 if it has a '2', else 1; upper-casing changes nothing |
| `Synthesizer.FormationsToInsert` | app/services/DonneeService.py:152-164 | the loop builds exactly the queued rows: for each ordinary department its rows in order, then (2, 9, FI) and (2, 10, FI) when those departments exist |
| `Synthesizer.QueueDepartement` | app/services/DonneeService.py:158-162 | one department queues full-time years 1 to 3, then its work-study years |
| `Synthesizer.DeptRowsSpec` | app/services/DonneeService.py:157-162 | an ordinary department is offered year a in FI for a = 1..3, and in FA iff it has an `annee_alternance` entry and a is at least that entry |
| `Synthesizer.OrdinaryRowsSpec` | app/services/DonneeService.py:156-162 | a row is queued by the department loop iff its department is present, is not a bridge, and offers it |
| `Synthesizer.SynthesizedSpec` | app/services/DonneeService.py:152-164 | a row is queued iff it is offered by a present ordinary department or is (2, FI) of a present bridge department |
| `Synthesizer.BridgeQueuedOnce` | app/services/DonneeService.py:156-164 | a present bridge department is queued exactly once, and only as (2, FI) |
| `Importer.FormationCacheSpec` | app/services/DonneeService.py:175-176 | on a programme table without duplicates, the cache holds exactly the stored programmes, each under its rowid |
| `Importer.ProgramId` | app/services/DonneeService.py:238-248 | a programme id the record keeps is never 0 |
| `Importer.ProgramIdInTable` | app/services/DonneeService.py:238-248 | the lookup finds the programme of the lookup level (always 2 for a bridge department) in the file's rhythm when it is stored; for a work-study file it then falls back to FA year 2, then FA year 3; the record is skipped iff all of these are missing |
| `Importer.ProgramIdRefers` | app/services/DonneeService.py:238-248 | a found programme exists and belongs to the file's department and rhythm |
| `Importer.FileContextOf` | app/services/DonneeService.py:182-191 | a file is walked iff its department resolves to a truthy id; its year and rhythm then come from its name |
| `Importer.DeriveSpec` | app/services/DonneeService.py:200-251 | a record yields an enrollment iff its student, code, year and programme all resolve; the enrollment carries them, its state is 2 iff the code is a withdrawal code, and a code missing from the decision table gives a null decision without skipping the record |
| `Importer.EtatFallbackState` | app/services/DonneeService.py:214-250 | a record whose only hint is `etat` is enrolled withdrawn for D, DEF or ABAN and enrolled for I |
| `Importer.DeriveRefers` | app/services/DonneeService.py:169-251 | with caches built from the tables, a derived enrollment refers to an existing student, programme and (when not null) decision |
| `Importer.RecordInscription` | app/services/DonneeService.py:200-204 | the loop body, step by step, gives the enrollment the record derives, or skips it exactly when the record derives none |
| `Importer.StudentInscription` | app/services/DonneeService.py:206-251 | the rest of the loop body, once the student is known, gives the derived enrollment |
| `Importer.RecordCode` | app/services/DonneeService.py:211-221 | `c_dec` is truthy iff the record has a decision code, and is then that code |
| `Importer.RecordYear` | app/services/DonneeService.py:223-228 | `annee_reelle` is truthy iff the record has an academic year, and is then that year |
| `Importer.RecordProgram` | app/services/DonneeService.py:233-246 | `id_form` is truthy iff the programme lookup succeeds, and is then its result |
| `Importer.RecordRowsDerived` | app/services/DonneeService.py:200-251 | the enrollments of a file's records are exactly those some record derives |
| `Importer.RecordsInscriptions` | app/services/DonneeService.py:200-251 | the loop over one file's records yields their enrollments in record order |
| `Importer.FileInscriptions` | app/services/DonneeService.py:181-198 | a file whose department does not resolve, or that cannot be read, yields nothing; otherwise it yields its records' enrollments |
| `Importer.BatchSpec` | app/services/DonneeService.py:178-251 | an enrollment is queued iff some record of a globbed file whose department resolves derives it |
| `Importer.CollectInscriptions` | app/services/DonneeService.py:178-251 | the loop over the globbed files queues the batch, file after file |
| `Importer.InesOfSpec` | app/services/DonneeService.py:133-142 | the collected INEs are exactly the truthy `etudid` values of the bare-list files |
| `Importer.CollectInes` | app/services/DonneeService.py:133-142 | the loop over the globbed files collects that set |
| `Importer.AddRecordInes` | app/services/DonneeService.py:139-141 | the loop over one file's records adds each truthy `etudid` |
| `DonneeService.ImportDecisions` | app/services/DonneeService.py:99-114 | the decision table becomes the INSERT OR IGNORE of the 28 seed rows, and the table invariants hold |
| `DonneeService.InsertDecisions` | app/services/DonneeService.py:114 | afterwards every acronym of the batch is present |
| `DonneeService.ImportDepartements` | app/services/DonneeService.py:116-120 | the department table becomes the INSERT OR REPLACE of the file's rows followed by the two bridges |
| `DonneeService.BridgesStored` | app/services/DonneeService.py:116-120 | whatever the file holds, department 9 is P_SD_INFO and department 10 is P_CJ_GEA afterwards |
| `DonneeService.ImportRythmes` | app/services/DonneeService.py:122-124 | the two statements are the INSERT OR REPLACE of the two rhythm rows |
| `DonneeService.ImportEtats` | app/services/DonneeService.py:126-128 | the two statements are the INSERT OR REPLACE of the two state rows |
| `DonneeService.VocabularyLands` | app/services/DonneeService.py:122-128 | afterwards id 1 and id 2 hold FI and FA (I and D for states), and a second import changes nothing |
| `DonneeService.Listed` | app/services/DonneeService.py:143 | the list built from the set holds each member exactly once |
| `DonneeService.InsertEtudiants` | app/services/DonneeService.py:143-145 | the count is the number of INEs the table did not hold; the table gains exactly those, each once, and old rowids are kept |
| `DonneeService.ImportEtudiants` | app/services/DonneeService.py:132-148 | `nb_total` is the number of distinct INEs and `nb_ajoutes` the number of them new to the table, so 0 <= `nb_ajoutes` <= `nb_total` |
| `DonneeService.ImportFormations` | app/services/DonneeService.py:150-165 | the programme table becomes the INSERT OR IGNORE of the synthesized rows for the stored departments, and holds a programme iff it did before or it was synthesized |
| `DonneeService.PendingRefers` | app/services/DonneeService.py:167-251 | every queued enrollment refers to an existing student, programme and (when not null) decision |
| `DonneeService.InsertInscriptions` | app/services/DonneeService.py:253-255 | the table gains the batch; the count is the number of enrollments it did not hold |
| `DonneeService.ImportInscriptions` | app/services/DonneeService.py:167-255 | the table gains exactly the queued enrollments; the returned count is its growth; every new enrollment refers to existing rows |
| `DonneeService.ScenarioFile` | app/services/DonneeService.py:133-211 | the file `decisions_geii_2022_fa.json` with one record of `etudid` "123" and decision ADM is globbed; its code is ADM; its one INE is new to an empty student table |
| `DonneeService.SearchYear` | app/services/DonneeService.py:25-45 | a search runs iff the year is given, non-empty and accepted by `int()`, and then for the parsed year |
| `DonneeService.SearchYearRoundTrip` | app/services/DonneeService.py:27-31 | every year written as `str(year)` selects a search for that year |
| `DonneeService.ImportOnce` | app/services/DonneeService.py:74-76 | one pass reports the distinct INEs, those new to the student table, those it already held (the difference), and the growth of the enrollment table |
| `DonneeService.PassSettles` | app/services/DonneeService.py:74-81 | after one pass the tables hold every INE, programme and enrollment the pass would insert; a pass over such tables changes nothing and reports no new student and no new enrollment |
| `DonneeService.ImportPass` | app/services/DonneeService.py:74-76 | the same for the pass as a method over the database |
| `DonneeService.SeedTables` | app/services/DonneeService.py:70-73 | the four seeding steps keep the table invariants |
| `DonneeService.ImportTwice` | app/services/DonneeService.py:74-81 | the two passes in a row report the distinct INEs, no new student and no new enrollment |
| `DonneeService.RunImportPipeline` | app/services/DonneeService.py:47-95 | as written: no statistics and no change without `departements.json`; otherwise `total_distincts` is the number of distinct INEs, `connus` equals it, and `nouveaux` and `inscriptions` are 0 |
| `DonneeService.RunImportPipelineOnce` | app/services/DonneeService.py:47-95 | corrected: `nouveaux` counts the INEs the table did not hold before the run, `connus` those it did, and `inscriptions` the enrollments the run added |
| `ScoDocService.SchoolYearInjective` | app/services/ScoDocService.py:112-114 | two years (as calendar years, not negative) that give the same `annee_str` are the same year, so the four listings read for a formation are four different school years |
| `ScoDocService.AnneeBut` | app/services/ScoDocService.py:167-187 | the BUT year is always 1, 2 or 3 |
| `ScoDocService.AnneeButSpec` | app/services/ScoDocService.py:167-187 | the smallest year marked in the upper-cased acronym wins; failing any, the smallest year hinted in the name; failing both, 1 |
| `ScoDocService.AcronymBeforeName` | app/services/ScoDocService.py:169-179 | once the acronym carries a marker the name plays no part |
| `ScoDocService.FormationRowsFrom` | app/services/ScoDocService.py:84-97 | every programme row comes from a listed formation of a listed department, with its BUT year in 1..3 |
| `ScoDocService.OffsetVisitsYears` | app/services/ScoDocService.py:112-113 | the listings read for a formation are those of the current year and the three before it |
| `ScoDocService.AllVisitsFrom` | app/services/ScoDocService.py:104-119 | every listing read is for one of those four years and a formation listed under a listed department |
| `ScoDocService.EnrolSpec` | app/services/ScoDocService.py:121-154 | the student loop keeps INEs unique and old rowids in place and stores exactly the old INEs and the non-empty keys visited; the enrollments become the old ones plus, for each visit with a non-empty key, the state-1 enrollment of that student's rowid in the visit's year and formation |
| `ScoDocService.EnrolSettled` | app/services/ScoDocService.py:121-154 | over tables that already hold every key and enrollment of the visits, the loop changes nothing |
| `ScoDocService.EnrolIdempotent` | app/services/ScoDocService.py:121-154 | running the student loop twice over the same listings gives the tables it gives once |
| `ScoDocService.SyncInscriptions` | app/services/ScoDocService.py:104-154 | every new enrollment is in state 1, for one of the four years, of an existing student, and under the API id of a listed formation |
| `ScoDocService.SyncStudentCount` | app/services/ScoDocService.py:123-130 | the student counter is the number of distinct non-empty keys the table did not hold |
| `ScoDocService.ResyncAddsNothing` | app/services/ScoDocService.py:63-154 | repeating each step with the same answers (rhythms, departments, programmes, students and enrollments) gives the tables that one run of it gives |
| `ScoDocService.SyncRythmes` | app/services/ScoDocService.py:64-71 | the rhythm loop is the INSERT OR IGNORE of the listed rows, and its counter is the table's growth |
| `ScoDocService.SyncDepartements` | app/services/ScoDocService.py:74-81 | the same for the departments |
| `ScoDocService.SyncDeptFormations` | app/services/ScoDocService.py:85-100 | one department's formations are inserted as (BUT year, department, rhythm id or 1), counting the rows added |
| `ScoDocService.SyncFormations` | app/services/ScoDocService.py:84-100 | the programme loop over all listed departments, counting the rows added |
| `ScoDocService.EnrolStudent` | app/services/ScoDocService.py:123-154 | one student: nothing for an empty key; otherwise the INE insert, the id lookup and the enrollment insert, with each flag true iff its table grew |
| `ScoDocService.SyncYear` | app/services/ScoDocService.py:116-154 | the loop over one listing is the student loop over its visits, and its counters are the tables' growth |
| `ScoDocService.SyncFormationYears` | app/services/ScoDocService.py:111-154 | the loop over the four school years of one formation |
| `ScoDocService.SyncOffset` | app/services/ScoDocService.py:112-154 | one pass of the school-year loop: the tables become those of the loop over one more school year, and the counters are the tables' growth |
| `ScoDocService.SyncDeptStudents` | app/services/ScoDocService.py:105-154 | the loop over one department's formations |
| `ScoDocService.SyncStudents` | app/services/ScoDocService.py:104-154 | the loop over all listed departments |
| `ScoDocService.SyncVocabulary` | app/services/ScoDocService.py:63-81 | the rhythms, then the departments, each with its counter |
| `ScoDocService.SyncContent` | app/services/ScoDocService.py:83-154 | the programmes, then the students and enrollments, each with its counter |
| `ScoDocService.SyncTables` | app/services/ScoDocService.py:63-154 | steps 2 to 4: every table the synchronisation writes, and statistics whose counters are the tables' growth, no decision and no error |
| `ScoDocService.Synchronise` | app/services/ScoDocService.py:32-165 | corrected, with the current year given: a failed connection test records "Échec connexion: " and the message and changes nothing; otherwise the four steps run, decisions and states are untouched, and the statistics count the rows added |
| `ScoDocService.SyncBeforeStudents` | app/services/ScoDocService.py:63-100 | the rhythm, department and programme steps, each table being the INSERT OR IGNORE of its rows and each counter its growth |
| `ScoDocService.SynchroniseAsWritten` | app/services/ScoDocService.py:32-165 | as written: when a listed department lists a formation, the database ends as it was before the call, the rhythm, department and programme counters still report the rows inserted before the rollback, the student counters are 0 and the one error is the `NameError` text; with no formation listed, the first three steps commit and nothing else changes |
| `ScoDocService.DatetimeScenario` | app/services/ScoDocService.py:104-111 | one department listing one formation reaches `datetime.now()`, and its department counts as one row inserted on an empty table |

## Left out

- The row order of a `SELECT` without `ORDER BY` (DonneeService.py:153, 169, 171, 173): the model reads `departement` in ascending id order and the other tables in rowid order. SQLite may serve such a query from an index and return another order, for instance `departement` in acronym order through the unique acronym index. The rowids of the programmes `DonneeService.ImportFormations` queues (and so the `id_formation` of the enrollments), and the row that wins in `cache_depts` or `cache_etus` when two keys coincide after `.upper()` or `.strip().lower()`, follow the model's choice. Counts and membership facts do not depend on it.
- The ScoDoc HTTP client: its answers are the input value `ScoDocService.Api`, and a missing answer is an empty list.
- `DonneeDAO`, the SQL text and the schema: the tables are the fields of `Store.Database`; the unique keys the schema is assumed to declare are stated in `Database.Valid()`.
- The controllers, `is_database_ready`, `get_form_dept`, `get_form_annees`, `EtudiantView` and `search_etudiants`: the search is modelled only as far as its year guard (`DonneeService.SearchYear`).
- File I/O, `os.path`, `current_app.static_folder`: a directory is a sequence of (base name, parsed content) pairs, and `departements.json` is an optional list of entries.
- The order of `glob` and of Python set iteration: the glob keeps directory order, and the INEs are inserted in an arbitrary order (`DonneeService.Listed`).
- The swallowed exceptions at DonneeService.py:142 and 196: an unreadable file, or an object-shaped file in `_import_etudiants`, adds nothing. A list of which only some records are not dictionaries is not modelled, because the `AttributeError` then stops the loop halfway.
- The exceptions that abort `_import_inscriptions`, and with it `run_import_pipeline` before the commit at DonneeService.py:83: a `decisions_*.json` whose content is neither a list nor an object (`.get` raises at line 198), an object whose `etudiants` is not a list, and a list holding a record that is not an object (`.get` raises at line 201). `Json.Content` cannot represent these files.
- The clock: the current year is the parameter `currentYear` of the corrected `ScoDocService.Synchronise` (see "## Findings" for the missing `datetime` import).
- Other exceptions, the rollback and the error list beyond the failed connection: a `KeyError` on a missing API key and a database error are not modelled.
- The `etudid` of a record and the `ine`/`etudid` of an API student are strings. Numbers, lists or dictionaries in those places are not modelled.
- A JSON null `rythme_id` of an API formation: `formation.get('rythme_id', 1)` then writes NULL (ScoDocService.py:97), while `ScoDocService.ApiFormation` only has an absent `rythme_id`, which writes 1.
- A null or non-string `acronyme` of an API formation, on which `.upper()` raises (ScoDocService.py:169): `ScoDocService.ApiFormation` holds a string, "" when the key is absent.
- A null or non-string `nom` of an API formation whose acronym carries no year marker, on which `.lower()` raises (ScoDocService.py:180): `ScoDocService.ApiFormation` holds a string, "" when the key is absent.
- A JSON float in a code, year or `ordre` field is not modelled.
- `int()` accepts a sign, ASCII digits and surrounding ASCII white space; underscores and non-ASCII digits are not modelled.
- `upper()` and `lower()` act on ASCII and Latin-1 letters only; `\d` matches ASCII digits only.
- SQLite treats two NULL decision ids as distinct in the enrollment key; the model compares them as equal, so an enrollment with a null decision is stored once. A null decision comes from a code missing from the decision table (DonneeService.py:230) or from an API student without `decision_id` (ScoDocService.py:150). Under SQLite's rule the following members hold only for enrollments with a non-null decision: `ScoDocService.EnrolSettled`, `ScoDocService.EnrolIdempotent` and `ScoDocService.ResyncAddsNothing` (each resync would insert and count those enrollments again, ScoDocService.py:153-154), and `DonneeService.PassSettles`, `DonneeService.ImportPass`, `DonneeService.ImportTwice` and `DonneeService.RunImportPipeline` (their second-pass `inscriptions` of 0 counts only those enrollments).
- The `acronyme` column of `formation` written by the synchronisation (ScoDocService.py:94): programmes are keyed by (year, department, rhythm), as `_import_formations` writes them.
- The synchronisation stores the API's formation id as the enrollment's programme id (ScoDocService.py:149), as written; the model does not relate it to the local programme table.
- `print` and logging output.
- `DonneeService.RunImportPipeline`: does not state that the tables end settled (that is `DonneeService.ImportPass`), only the statistics and the table invariants.
- `DonneeService.ImportTwice`: states the statistics of the second pass, not the tables' contents after it.
- `DonneeService.SeedTables`: states only that the table invariants hold; what each seeding step writes is stated by `ImportDecisions`, `ImportDepartements`, `ImportRythmes` and `ImportEtats`.
- `DonneeService.ScenarioFile`: states the glob, code and INE facts of the example file; it does not run the department, year and rhythm resolution of its name.

## Findings

| source | as written | input that shows it | evidently intended | confidence | as-written member | corrected member |
|---|---|---|---|---|---|---|
| app/services/DonneeService.py:74-81 | the student, programme and enrollment steps run twice, and the statistics come from the second pass, so `nouveaux` is always 0, and `inscriptions` is 0 unless an enrollment has a null decision, which SQLite inserts again | an empty database and the single file `decisions_geii_2022_fa.json` holding `[{"etudid": "123", "decision": {"code": "ADM"}}]` (`DonneeService.ScenarioFile`): INE "123" is new, yet `nouveaux` is 0 and `connus` is 1 | one pass, with `nouveaux` = 1 and `connus` = 0 for this input | not executed | `DonneeService.RunImportPipeline` | `DonneeService.RunImportPipelineOnce` |
| app/services/ScoDocService.py:111 | `datetime` is never imported (ScoDocService.py:1-6), so `datetime.now()` raises `NameError`; the `except` at lines 160-163 rolls back every insert of the call but returns the rhythm, department and programme counters of the rolled-back rows together with the error | a successful connection test and one department `{"id": 1, "nom": "Informatique", "acronyme": "INFO"}` listing one formation, on an empty database (`ScoDocService.DatetimeScenario`): the call reports 1 department inserted and the error "name 'datetime' is not defined", and the department table stays empty | the current year read from the clock, so that the students and enrollments of the four latest school years are inserted and committed | not executed | `ScoDocService.SynchroniseAsWritten` | `ScoDocService.Synchronise` |
