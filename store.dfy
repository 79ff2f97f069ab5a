/**
 * The relational store the import writes to, as in-memory tables.
 *
 * Tables whose rows get an AUTOINCREMENT id are sequences in rowid order: the
 * row at position i has id i + 1 (the pipeline never deletes from them).
 * Tables whose id is given by the caller are sequences of (id, row) pairs in
 * ascending id order. The unique keys assumed for each table are stated on
 * `Database.Valid`.
 */
module Store {
  import opened Wrappers

  /** A (nom, acronyme) row: departement, rythme, etat and decision share this shape. */
  datatype Label = Label(nom: string, acronyme: string)

  /** The natural key of a formation row: (annee_but, id_departement, id_rythme). */
  datatype Formation = Formation(annee: int, dept: int, rythme: int)

  /** An inscription row: (annee_universitaire, id_etudiant, id_etat, id_formation, id_decision). */
  datatype Inscription = Inscription(annee: int, etudiant: int, etat: int, formation: int, decision: Option<int>)

  // ---------------------------------------------------------------------------
  // Rowid tables, INSERT OR IGNORE keyed on the whole row

  predicate Distinct<T(==)>(t: seq<T>)
  {
    forall i, j :: 0 <= i < j < |t| ==> t[i] != t[j]
  }

  function Elements<T>(t: seq<T>): set<T>
  {
    set x | x in t
  }

  /** INSERT OR IGNORE of one row. */
  function InsertIgnore<T(==)>(t: seq<T>, x: T): seq<T>
  {
    if x in t then t else t + [x]
  }

  /** One INSERT OR IGNORE adds its row to the contents and keeps the rows already there in place. */
  lemma InsertIgnoreElements<T>(t: seq<T>, x: T)
    ensures Elements(InsertIgnore(t, x)) == Elements(t) + {x}
    ensures |InsertIgnore(t, x)| >= |t| && InsertIgnore(t, x)[..|t|] == t
  {
    if x !in t {
      assert forall y :: y in t + [x] <==> y in t || y == x;
    }
  }

  /** INSERT OR IGNORE never stores a row twice. */
  lemma InsertIgnoreDistinct<T>(t: seq<T>, x: T)
    requires Distinct(t)
    ensures Distinct(InsertIgnore(t, x))
  {
    if x !in t {
      var u := t + [x];
      assert forall i :: 0 <= i < |t| ==> u[i] == t[i];
    }
  }

  /** `executemany("INSERT OR IGNORE ...", xs)`: the rows one after the other. */
  function InsertIgnoreAll<T(==)>(t: seq<T>, xs: seq<T>): seq<T>
    decreases |xs|
  {
    if xs == [] then t else InsertIgnoreAll(InsertIgnore(t, xs[0]), xs[1..])
  }

  /** A batch and its continuation: the second half runs on the table the first left. */
  lemma {:induction false} InsertIgnoreAllAppend<T>(t: seq<T>, xs: seq<T>, ys: seq<T>)
    ensures InsertIgnoreAll(t, xs + ys) == InsertIgnoreAll(InsertIgnoreAll(t, xs), ys)
    decreases |xs|
  {
    if xs == [] {
      assert xs + ys == ys;
    } else {
      assert (xs + ys)[0] == xs[0] && (xs + ys)[1..] == xs[1..] + ys;
      InsertIgnoreAllAppend(InsertIgnore(t, xs[0]), xs[1..], ys);
    }
  }

  lemma ElementsCons<T>(xs: seq<T>)
    requires xs != []
    ensures Elements(xs) == {xs[0]} + Elements(xs[1..])
  {
    forall x ensures x in xs <==> x == xs[0] || x in xs[1..] {
      if x in xs && x != xs[0] {
        var k :| 0 <= k < |xs| && xs[k] == x;
        assert xs[1..][k - 1] == x;
      }
    }
  }

  /** The batch keeps the existing rows and their ids, and keeps the rows distinct. */
  lemma {:induction false} InsertIgnoreAllKeeps<T>(t: seq<T>, xs: seq<T>)
    requires Distinct(t)
    ensures |t| <= |InsertIgnoreAll(t, xs)| && InsertIgnoreAll(t, xs)[..|t|] == t
    ensures Distinct(InsertIgnoreAll(t, xs))
    decreases |xs|
  {
    if xs != [] {
      var t' := InsertIgnore(t, xs[0]);
      InsertIgnoreAllKeeps(t', xs[1..]);
      var r := InsertIgnoreAll(t', xs[1..]);
      assert r[..|t|] == r[..|t'|][..|t|];
    }
  }

  /** Rows new to `e` among `{x} + rest`: `x` counts once if it is new, and the rest against `e + {x}`. */
  lemma NewRowsCons<T>(x: T, rest: set<T>, e: set<T>)
    ensures x in e ==> ({x} + rest) - e == rest - (e + {x})
    ensures x !in e ==> |({x} + rest) - e| == |rest - (e + {x})| + 1
  {
    if x !in e {
      assert ({x} + rest) - e == (rest - (e + {x})) + {x};
    } else {
      assert e + {x} == e;
    }
  }

  /**
   * The number of rows a batch adds (what `cursor.rowcount` reports after
   * `executemany`) is the number of distinct rows of the batch not yet present.
   */
  lemma {:induction false} InsertIgnoreAllCount<T>(t: seq<T>, xs: seq<T>)
    requires Distinct(t)
    ensures |InsertIgnoreAll(t, xs)| - |t| == |Elements(xs) - Elements(t)|
    decreases |xs|
  {
    if xs != [] {
      var t' := InsertIgnore(t, xs[0]);
      InsertIgnoreDistinct(t, xs[0]);
      InsertIgnoreElements(t, xs[0]);
      InsertIgnoreAllCount(t', xs[1..]);
      ElementsCons(xs);
      NewRowsCons(xs[0], Elements(xs[1..]), Elements(t));
    }
  }

  /** A batch whose rows are all present already changes nothing. */
  lemma {:induction false} InsertIgnoreAllPresent<T>(t: seq<T>, xs: seq<T>)
    requires forall x :: x in xs ==> x in t
    ensures InsertIgnoreAll(t, xs) == t
    decreases |xs|
  {
    if xs != [] {
      assert xs[0] in xs;
      InsertIgnoreAllPresent(t, xs[1..]);
    }
  }

  /** Running the same batch a second time adds no rows. */
  lemma InsertIgnoreAllIdempotent<T>(t: seq<T>, xs: seq<T>)
    ensures InsertIgnoreAll(InsertIgnoreAll(t, xs), xs) == InsertIgnoreAll(t, xs)
  {
    InsertIgnoreAllContains(t, xs);
    InsertIgnoreAllPresent(InsertIgnoreAll(t, xs), xs);
  }

  lemma {:induction false} InsertIgnoreAllContains<T>(t: seq<T>, xs: seq<T>)
    ensures forall x :: x in InsertIgnoreAll(t, xs) <==> x in t || x in xs
    decreases |xs|
  {
    if xs != [] {
      InsertIgnoreAllContains(InsertIgnore(t, xs[0]), xs[1..]);
      forall x ensures x in xs <==> x == xs[0] || x in xs[1..] {
        if x in xs && x != xs[0] {
          var k :| 0 <= k < |xs| && xs[k] == x;
          assert xs[1..][k - 1] == x;
        }
      }
    }
  }

  /** The rowid of a row of a rowid table (`SELECT id ... WHERE col = x`). */
  function RowId<T(==)>(t: seq<T>, x: T): (id: nat)
    requires x in t
    ensures 1 <= id <= |t| && t[id - 1] == x
    ensures forall j :: 0 <= j < id - 1 ==> t[j] != x
  {
    if t[0] == x then 1 else RowId(t[1..], x) + 1
  }

  // ---------------------------------------------------------------------------
  // The decision table: a rowid table whose unique key is the acronym

  /** Rows appended after a row do not change the id a lookup finds for it. */
  lemma RowIdPrefix<T>(t: seq<T>, u: seq<T>, x: T)
    requires x in t && |t| <= |u| && u[..|t|] == t
    ensures x in u && RowId(u, x) == RowId(t, x)
  {
    var j := RowId(t, x);
    assert u[j - 1] == t[j - 1];
  }

  predicate HasAcronym(t: seq<Label>, a: string)
  {
    exists i :: 0 <= i < |t| && t[i].acronyme == a
  }

  predicate DistinctAcronyms(t: seq<Label>)
  {
    forall i, j :: 0 <= i < j < |t| ==> t[i].acronyme != t[j].acronyme
  }

  /** INSERT OR IGNORE INTO decision: ignored when the acronym is taken. */
  function AddDecision(t: seq<Label>, row: Label): seq<Label>
  {
    if HasAcronym(t, row.acronyme) then t else t + [row]
  }

  function AddDecisions(t: seq<Label>, rows: seq<Label>): seq<Label>
    decreases |rows|
  {
    if rows == [] then t else AddDecisions(AddDecision(t, rows[0]), rows[1..])
  }

  /** One seeded row: its acronym joins those of the table, which stay unique. */
  lemma AddDecisionSpec(t: seq<Label>, row: Label)
    requires DistinctAcronyms(t)
    ensures DistinctAcronyms(AddDecision(t, row))
    ensures |t| <= |AddDecision(t, row)| && AddDecision(t, row)[..|t|] == t
    ensures forall a :: HasAcronym(AddDecision(t, row), a) <==> HasAcronym(t, a) || a == row.acronyme
  {
    if !HasAcronym(t, row.acronyme) {
      assert (t + [row])[..|t|] == t;
      AppendDistinctAcronyms(t, row);
      AppendHasAcronym(t, row);
    }
  }

  lemma AppendDistinctAcronyms(t: seq<Label>, row: Label)
    requires DistinctAcronyms(t) && !HasAcronym(t, row.acronyme)
    ensures DistinctAcronyms(t + [row])
  {
    var t' := t + [row];
    forall i, j | 0 <= i < j < |t'| ensures t'[i].acronyme != t'[j].acronyme {
      assert t'[i] == t[i];
      if j == |t| {
        assert !(t[i].acronyme == row.acronyme);
      } else {
        assert t'[j] == t[j];
      }
    }
  }

  lemma AppendHasAcronym(t: seq<Label>, row: Label)
    ensures forall a :: HasAcronym(t + [row], a) <==> HasAcronym(t, a) || a == row.acronyme
  {
    var t' := t + [row];
    forall a ensures HasAcronym(t', a) <==> HasAcronym(t, a) || a == row.acronyme {
      if HasAcronym(t', a) && a != row.acronyme {
        var i :| 0 <= i < |t'| && t'[i].acronyme == a;
        assert t[i].acronyme == a;
      }
      if HasAcronym(t, a) {
        var i :| 0 <= i < |t| && t[i].acronyme == a;
        assert t'[i].acronyme == a;
      }
      if a == row.acronyme {
        assert t'[|t|].acronyme == a;
      }
    }
  }

  lemma HasAcronymCons(rows: seq<Label>)
    requires rows != []
    ensures forall a :: HasAcronym(rows, a) <==> a == rows[0].acronyme || HasAcronym(rows[1..], a)
  {
    forall a ensures HasAcronym(rows, a) <==> a == rows[0].acronyme || HasAcronym(rows[1..], a)
    {
      if HasAcronym(rows, a) {
        var k :| 0 <= k < |rows| && rows[k].acronyme == a;
        if k > 0 { assert rows[1..][k - 1].acronyme == a; }
      }
      if HasAcronym(rows[1..], a) {
        var k :| 0 <= k < |rows| - 1 && rows[1..][k].acronyme == a;
        assert rows[k + 1].acronyme == a;
      }
    }
  }

  /**
   * Seeding keeps acronyms unique and the existing rows in place, and
   * afterwards every acronym of the batch is present.
   */
  lemma {:induction false} AddDecisionsSpec(t: seq<Label>, rows: seq<Label>)
    requires DistinctAcronyms(t)
    ensures DistinctAcronyms(AddDecisions(t, rows))
    ensures |t| <= |AddDecisions(t, rows)| && AddDecisions(t, rows)[..|t|] == t
    ensures forall a :: HasAcronym(AddDecisions(t, rows), a) <==>
                        HasAcronym(t, a) || HasAcronym(rows, a)
    decreases |rows|
  {
    if rows != [] {
      var t' := AddDecision(t, rows[0]);
      AddDecisionSpec(t, rows[0]);
      AddDecisionsSpec(t', rows[1..]);
      HasAcronymCons(rows);
      var r := AddDecisions(t', rows[1..]);
      assert r[..|t|] == r[..|t'|][..|t|];
    }
  }

  /** After seeding, every acronym of the batch is present and none is duplicated; seeding again changes nothing. */
  lemma AddDecisionsCovers(t: seq<Label>, rows: seq<Label>)
    requires DistinctAcronyms(t)
    ensures DistinctAcronyms(AddDecisions(t, rows))
    ensures forall i :: 0 <= i < |rows| ==> HasAcronym(AddDecisions(t, rows), rows[i].acronyme)
    ensures AddDecisions(AddDecisions(t, rows), rows) == AddDecisions(t, rows)
  {
    AddDecisionsSpec(t, rows);
    forall i | 0 <= i < |rows| ensures HasAcronym(rows, rows[i].acronyme) { }
    AddDecisionsIdempotent(t, rows);
  }

  /** Seeding acronyms that are all present already changes nothing. */
  lemma {:induction false} AddDecisionsPresent(t: seq<Label>, rows: seq<Label>)
    requires forall a :: HasAcronym(rows, a) ==> HasAcronym(t, a)
    ensures AddDecisions(t, rows) == t
    decreases |rows|
  {
    if rows != [] {
      assert HasAcronym(rows, rows[0].acronyme);
      forall a | HasAcronym(rows[1..], a) ensures HasAcronym(t, a) {
        var k :| 0 <= k < |rows[1..]| && rows[1..][k].acronyme == a;
        assert rows[k + 1].acronyme == a;
      }
      AddDecisionsPresent(t, rows[1..]);
    }
  }

  /** Seeding the same batch twice is the same as seeding it once. */
  lemma AddDecisionsIdempotent(t: seq<Label>, rows: seq<Label>)
    requires DistinctAcronyms(t)
    ensures AddDecisions(AddDecisions(t, rows), rows) == AddDecisions(t, rows)
  {
    AddDecisionsSpec(t, rows);
    AddDecisionsPresent(AddDecisions(t, rows), rows);
  }

  // ---------------------------------------------------------------------------
  // Tables keyed by a given id with a unique acronym: departement, rythme, etat.
  // Their rows are kept in ascending id order, the order a SELECT returns them in.

  datatype Row = Row(id: int, entry: Label)

  predicate Ascending(t: seq<Row>)
  {
    forall i, j :: 0 <= i < j < |t| ==> t[i].id < t[j].id
  }

  predicate UniqueAcronyms(t: seq<Row>)
  {
    forall x, y :: x in t && y in t && x.entry.acronyme == y.entry.acronyme ==> x == y
  }

  predicate HasId(t: seq<Row>, id: int)
  {
    exists x :: x in t && x.id == id
  }

  /** The row stored under `id`. */
  function Find(t: seq<Row>, id: int): (r: Option<Label>)
    requires Ascending(t)
    ensures forall l :: r == Some(l) <==> Row(id, l) in t
  {
    if t == [] then None
    else if t[0].id == id then Some(t[0].entry)
    else
      assert forall x :: x in t[1..] ==> x.id > t[0].id;
      Find(t[1..], id)
  }

  /** The ids of the table in SELECT order. */
  function Ids(t: seq<Row>): (r: seq<int>)
    ensures |r| == |t| && forall i :: 0 <= i < |t| ==> r[i] == t[i].id
  {
    seq(|t|, i requires 0 <= i < |t| => t[i].id)
  }

  function InsertSorted(t: seq<Row>, r: Row): (u: seq<Row>)
    requires Ascending(t) && !HasId(t, r.id)
    ensures Ascending(u)
    ensures forall x :: x in u <==> x in t || x == r
  {
    if t == [] || r.id < t[0].id then [r] + t
    else
      assert t[0] in t;
      assert forall x :: x in t[1..] ==> x.id > t[0].id;
      var rest := InsertSorted(t[1..], r);
      assert forall x :: x in rest ==> x.id > t[0].id;
      [t[0]] + rest
  }

  /** The rows of `t` that clash neither with `id` nor with the acronym `acr`. */
  function Without(t: seq<Row>, id: int, acr: string): (u: seq<Row>)
    requires Ascending(t)
    ensures Ascending(u)
    ensures forall x :: x in u <==> x in t && x.id != id && x.entry.acronyme != acr
  {
    if t == [] then []
    else
      AscendingRest(t);
      var rest := Without(t[1..], id, acr);
      if t[0].id != id && t[0].entry.acronyme != acr then ConsAscending(t[0], rest); [t[0]] + rest else rest
  }

  /** The tail of an ascending table is ascending and lies above its head. */
  lemma AscendingRest(t: seq<Row>)
    requires Ascending(t) && t != []
    ensures Ascending(t[1..])
    ensures forall x :: x in t[1..] ==> x.id > t[0].id
  {
  }

  lemma ConsAscending(r: Row, t: seq<Row>)
    requires Ascending(t) && forall x :: x in t ==> x.id > r.id
    ensures Ascending([r] + t)
  {
    forall i, j | 0 <= i < j < |[r] + t| ensures ([r] + t)[i].id < ([r] + t)[j].id {
      if i == 0 { assert ([r] + t)[j] == t[j - 1]; assert t[j - 1] in t; }
    }
  }

  /** An insert of (id, entry) violates the primary key or the acronym's uniqueness. */
  predicate Clashes(t: seq<Row>, id: int, entry: Label)
  {
    HasId(t, id) || exists x :: x in t && x.entry.acronyme == entry.acronyme
  }

  /** INSERT OR IGNORE: nothing happens when the row clashes. */
  function Ignore(t: seq<Row>, id: int, entry: Label): (u: seq<Row>)
    requires Ascending(t)
    ensures Ascending(u)
    ensures forall x :: x in u <==> x in t || (!Clashes(t, id, entry) && x == Row(id, entry))
  {
    if Clashes(t, id, entry) then t else InsertSorted(t, Row(id, entry))
  }

  /** INSERT OR REPLACE: every row clashing on the id or on the acronym is deleted, then the row is inserted. */
  function Replace(t: seq<Row>, id: int, entry: Label): (u: seq<Row>)
    requires Ascending(t)
    ensures Ascending(u)
    ensures forall x :: x in u <==> x == Row(id, entry) || (x in t && x.id != id && x.entry.acronyme != entry.acronyme)
  {
    InsertSorted(Without(t, id, entry.acronyme), Row(id, entry))
  }

  /** `executemany("INSERT OR REPLACE ...", rows)`. */
  function ReplaceAll(t: seq<Row>, rows: seq<Row>): (u: seq<Row>)
    requires Ascending(t)
    ensures Ascending(u)
    decreases |rows|
  {
    if rows == [] then t else ReplaceAll(Replace(t, rows[0].id, rows[0].entry), rows[1..])
  }

  lemma {:induction false} ReplaceAllAppend(t: seq<Row>, xs: seq<Row>, ys: seq<Row>)
    requires Ascending(t)
    ensures ReplaceAll(t, xs + ys) == ReplaceAll(ReplaceAll(t, xs), ys)
    decreases |xs|
  {
    if xs == [] {
      assert xs + ys == ys;
    } else {
      assert (xs + ys)[0] == xs[0];
      assert (xs + ys)[1..] == xs[1..] + ys;
      ReplaceAllAppend(Replace(t, xs[0].id, xs[0].entry), xs[1..], ys);
    }
  }

  /** INSERT OR REPLACE keeps acronyms unique. */
  lemma {:induction false} ReplaceAllKeepsUnique(t: seq<Row>, rows: seq<Row>)
    requires Ascending(t) && UniqueAcronyms(t)
    ensures UniqueAcronyms(ReplaceAll(t, rows))
    decreases |rows|
  {
    if rows != [] {
      ReplaceAllKeepsUnique(Replace(t, rows[0].id, rows[0].entry), rows[1..]);
    }
  }

  /** A sequence with no elements is the empty sequence. */
  lemma NoElementsEmpty<T>(t: seq<T>)
    ensures Elements(t) == {} ==> t == []
  {
    if t != [] {
      assert t[0] in Elements(t);
    }
  }

  /** The first row of an ascending table has the smallest id, and it is the only row with that id. */
  lemma AscendingHead(a: seq<Row>, x: Row)
    requires Ascending(a) && x in a
    ensures a[0].id <= x.id
    ensures x.id == a[0].id ==> x == a[0]
  {
    var k :| 0 <= k < |a| && a[k] == x;
    assert k == 0 || a[0].id < a[k].id;
  }

  /** The tail of an ascending table holds every row but the first. */
  lemma AscendingTail(a: seq<Row>, x: Row)
    requires Ascending(a) && a != []
    ensures x in a[1..] <==> x in a && x != a[0]
  {
    if x in a && x != a[0] {
      var k :| 0 <= k < |a| && a[k] == x;
      assert a[1..][k - 1] == x;
    }
    if x in a[1..] {
      var k :| 0 <= k < |a[1..]| && a[1..][k] == x;
      assert a[k + 1] == x && a[0].id < a[k + 1].id;
    }
  }

  /** Two tables in ascending id order that hold the same rows are the same table. */
  lemma {:induction false} AscendingExt(a: seq<Row>, b: seq<Row>)
    requires Ascending(a) && Ascending(b)
    requires forall x :: x in a <==> x in b
    ensures a == b
    decreases |a|
  {
    if a != [] {
      assert a[0] in b && b[0] in a;
      AscendingHead(a, b[0]);
      AscendingHead(b, a[0]);
      assert a[0] == b[0];
      forall x ensures x in a[1..] <==> x in b[1..] {
        AscendingTail(a, x);
        AscendingTail(b, x);
      }
      AscendingExt(a[1..], b[1..]);
      assert a == [a[0]] + a[1..] && b == [b[0]] + b[1..];
    } else {
      assert Elements(b) == {};
      NoElementsEmpty(b);
    }
  }

  /** Re-writing a row that is already stored leaves the table as it was. */
  lemma ReplacePresent(t: seq<Row>, id: int, entry: Label)
    requires Ascending(t) && UniqueAcronyms(t) && Row(id, entry) in t
    ensures Replace(t, id, entry) == t
  {
    forall x | x in t && x != Row(id, entry) ensures x.id != id && x.entry.acronyme != entry.acronyme {
      var i :| 0 <= i < |t| && t[i] == x;
      var j :| 0 <= j < |t| && t[j] == Row(id, entry);
      assert i != j;
    }
    AscendingExt(Replace(t, id, entry), t);
  }

  /** INSERT OR REPLACE of rows that are all stored already changes nothing. */
  lemma {:induction false} ReplaceAllPresent(t: seq<Row>, rows: seq<Row>)
    requires Ascending(t) && UniqueAcronyms(t)
    requires forall r :: r in rows ==> r in t
    ensures ReplaceAll(t, rows) == t
    decreases |rows|
  {
    if rows != [] {
      ReplacePresent(t, rows[0].id, rows[0].entry);
      ReplaceAllPresent(t, rows[1..]);
    }
  }

  /** No two rows of the batch share an id or an acronym. */
  predicate NonClashing(rows: seq<Row>)
  {
    forall i, j :: 0 <= i < j < |rows| ==> rows[i].id != rows[j].id && rows[i].entry.acronyme != rows[j].entry.acronyme
  }

  /** A row that no later row of the batch clashes with is still there at the end. */
  lemma {:induction false} ReplaceAllKeeps(t: seq<Row>, rows: seq<Row>, x: Row)
    requires Ascending(t) && x in t
    requires forall r :: r in rows ==> r.id != x.id && r.entry.acronyme != x.entry.acronyme
    ensures x in ReplaceAll(t, rows)
    decreases |rows|
  {
    if rows != [] {
      ReplaceAllKeeps(Replace(t, rows[0].id, rows[0].entry), rows[1..], x);
    }
  }

  /** After INSERT OR REPLACE of a batch without inner clashes, every row of the batch is stored. */
  lemma {:induction false} ReplaceAllLands(t: seq<Row>, rows: seq<Row>)
    requires Ascending(t) && NonClashing(rows)
    ensures forall r :: r in rows ==> r in ReplaceAll(t, rows)
    decreases |rows|
  {
    if rows != [] {
      var t' := Replace(t, rows[0].id, rows[0].entry);
      ReplaceAllLands(t', rows[1..]);
      forall r | r in rows[1..] ensures r.id != rows[0].id && r.entry.acronyme != rows[0].entry.acronyme {
        var j :| 0 <= j < |rows[1..]| && rows[1..][j] == r;
        assert rows[j + 1] == r;
      }
      ReplaceAllKeeps(t', rows[1..], rows[0]);
      assert rows == [rows[0]] + rows[1..];
    }
  }

  /** Running a batch without inner clashes a second time changes nothing. */
  lemma ReplaceAllIdempotent(t: seq<Row>, rows: seq<Row>)
    requires Ascending(t) && UniqueAcronyms(t) && NonClashing(rows)
    ensures ReplaceAll(ReplaceAll(t, rows), rows) == ReplaceAll(t, rows)
  {
    ReplaceAllLands(t, rows);
    ReplaceAllKeepsUnique(t, rows);
    ReplaceAllPresent(ReplaceAll(t, rows), rows);
  }

  /** INSERT OR IGNORE keeps acronyms unique, and inserts exactly when there is no clash. */
  lemma IgnoreSpec(t: seq<Row>, id: int, entry: Label)
    requires Ascending(t) && UniqueAcronyms(t)
    ensures UniqueAcronyms(Ignore(t, id, entry))
    ensures Clashes(t, id, entry) ==> Ignore(t, id, entry) == t
    ensures !Clashes(t, id, entry) ==> |Ignore(t, id, entry)| == |t| + 1 && Find(Ignore(t, id, entry), id) == Some(entry)
  {
    if !Clashes(t, id, entry) {
      var u := InsertSorted(t, Row(id, entry));
      assert Row(id, entry) !in t;
      assert Elements(u) == Elements(t) + {Row(id, entry)};
      DistinctCard(t);
      DistinctCard(u);
    }
  }

  /** `for row in rows: INSERT OR IGNORE`, the rows one after the other. */
  function IgnoreAll(t: seq<Row>, rows: seq<Row>): (u: seq<Row>)
    requires Ascending(t)
    ensures Ascending(u)
    ensures forall x :: x in t ==> x in u
    decreases |rows|
  {
    if rows == [] then t
    else
      var last := rows[|rows| - 1];
      Ignore(IgnoreAll(t, rows[..|rows| - 1]), last.id, last.entry)
  }

  lemma {:induction false} IgnoreAllKeepsUnique(t: seq<Row>, rows: seq<Row>)
    requires Ascending(t) && UniqueAcronyms(t)
    ensures UniqueAcronyms(IgnoreAll(t, rows))
    decreases |rows|
  {
    if rows != [] {
      var last := rows[|rows| - 1];
      IgnoreAllKeepsUnique(t, rows[..|rows| - 1]);
      IgnoreSpec(IgnoreAll(t, rows[..|rows| - 1]), last.id, last.entry);
    }
  }

  /** A row that clashes with a table clashes with every table holding its rows. */
  lemma ClashesGrow(t: seq<Row>, u: seq<Row>, id: int, entry: Label)
    requires forall x :: x in t ==> x in u
    requires Clashes(t, id, entry)
    ensures Clashes(u, id, entry)
  {
    if HasId(t, id) {
      var x :| x in t && x.id == id;
      assert x in u;
    } else {
      var x :| x in t && x.entry.acronyme == entry.acronyme;
      assert x in u;
    }
  }

  /** After the batch, every one of its rows clashes with the table: it was stored, or a row it clashes with was there already. */
  lemma {:induction false} IgnoreAllCovers(t: seq<Row>, rows: seq<Row>)
    requires Ascending(t)
    ensures forall r :: r in rows ==> Clashes(IgnoreAll(t, rows), r.id, r.entry)
    decreases |rows|
  {
    if rows != [] {
      var p, last := rows[..|rows| - 1], rows[|rows| - 1];
      IgnoreAllCovers(t, p);
      var m := IgnoreAll(t, p);
      var u := Ignore(m, last.id, last.entry);
      forall r | r in rows ensures Clashes(u, r.id, r.entry) {
        if r in p {
          ClashesGrow(m, u, r.id, r.entry);
        } else if Clashes(m, r.id, r.entry) {
          ClashesGrow(m, u, r.id, r.entry);
        } else {
          assert r == last by {
            assert forall x :: x in rows ==> x in p || x == last;
          }
          assert Row(r.id, r.entry) in u;
        }
      }
    }
  }

  /** A batch whose every row clashes with the table stores nothing. */
  lemma {:induction false} IgnoreAllClashing(t: seq<Row>, rows: seq<Row>)
    requires Ascending(t)
    requires forall r :: r in rows ==> Clashes(t, r.id, r.entry)
    ensures IgnoreAll(t, rows) == t
    decreases |rows|
  {
    if rows != [] {
      var p, last := rows[..|rows| - 1], rows[|rows| - 1];
      assert forall r :: r in p ==> r in rows;
      IgnoreAllClashing(t, p);
      assert last in rows;
    }
  }

  /** Running the same INSERT OR IGNORE batch again changes nothing. */
  lemma IgnoreAllIdempotent(t: seq<Row>, rows: seq<Row>)
    requires Ascending(t)
    ensures IgnoreAll(IgnoreAll(t, rows), rows) == IgnoreAll(t, rows)
  {
    IgnoreAllCovers(t, rows);
    IgnoreAllClashing(IgnoreAll(t, rows), rows);
  }

  /** A union is as large as its left side plus what the right side adds. */
  lemma UnionCard<T>(a: set<T>, b: set<T>)
    ensures |a + b| == |a| + |b - a|
  {
    assert a + b == a + (b - a);
    assert a * (b - a) == {};
  }

  /** Adding `b` to `a` grows it by the members of `b` it lacked. */
  lemma GrowthCard<T>(a: set<T>, b: set<T>, c: set<T>)
    requires c == a + b
    ensures |c - a| == |b - a|
  {
    assert c - a == b - a;
  }

  /** A set splits into the part outside `b` and the part inside it. */
  lemma SplitCard<T>(a: set<T>, b: set<T>)
    ensures |a| == |a - b| + |a * b|
  {
    assert a == (a - b) + (a * b);
    assert (a - b) * (a * b) == {};
  }

  lemma {:induction false} DistinctCard<T>(t: seq<T>)
    requires Distinct(t)
    ensures |Elements(t)| == |t|
    decreases |t|
  {
    if t != [] {
      ElementsCons(t);
      assert t[0] !in t[1..];
      DistinctCard(t[1..]);
    }
  }

  // ---------------------------------------------------------------------------
  // Lookup caches: `{key(row): id for row in rows}` keeps the LAST row of each key

  function ToDict<K(==)>(rows: seq<(K, int)>): map<K, int>
    decreases |rows|
  {
    if rows == [] then map[] else ToDict(rows[..|rows| - 1])[rows[|rows| - 1].0 := rows[|rows| - 1].1]
  }

  /** A dictionary comprehension holds every key that occurs, bound to the id of its last row. */
  lemma {:induction false} ToDictLastWins<K>(rows: seq<(K, int)>, k: K)
    ensures k in ToDict(rows) <==> exists i :: 0 <= i < |rows| && rows[i].0 == k
    ensures forall i :: 0 <= i < |rows| && rows[i].0 == k && (forall j :: i < j < |rows| ==> rows[j].0 != k)
                        ==> ToDict(rows)[k] == rows[i].1
    decreases |rows|
  {
    if rows != [] {
      var n := |rows| - 1;
      ToDictLastWins(rows[..n], k);
      if rows[n].0 != k {
        forall i | 0 <= i < |rows| && rows[i].0 == k ensures i < n && rows[..n][i].0 == k { }
        forall i | 0 <= i < n && rows[..n][i].0 == k ensures rows[i].0 == k { }
      }
    }
  }

  /** Every entry of the dictionary is a row of the comprehension. */
  lemma {:induction false} ToDictFrom<K>(rows: seq<(K, int)>, k: K)
    requires k in ToDict(rows)
    ensures exists i :: 0 <= i < |rows| && rows[i] == (k, ToDict(rows)[k])
    decreases |rows|
  {
    var n := |rows| - 1;
    if rows[n].0 != k {
      ToDictFrom(rows[..n], k);
      var i :| 0 <= i < n && rows[..n][i] == (k, ToDict(rows[..n])[k]);
      assert rows[i] == (k, ToDict(rows)[k]);
    }
  }

  /** A rowid table's key column beside its rowids: the pairs (ks[i], i + 1). */
  function Indexed<K>(ks: seq<K>): (r: seq<(K, int)>)
    ensures |r| == |ks| && forall i :: 0 <= i < |ks| ==> r[i] == (ks[i], i + 1)
  {
    seq(|ks|, i requires 0 <= i < |ks| => (ks[i], i + 1))
  }

  /** A comprehension over a rowid table holds exactly its keys, each bound to the rowid of a row with that key. */
  lemma IndexedDict<K>(ks: seq<K>, k: K)
    ensures k in ToDict(Indexed(ks)) <==> k in ks
    ensures k in ks ==> var id := ToDict(Indexed(ks))[k]; 1 <= id <= |ks| && ks[id - 1] == k
  {
    var pairs := Indexed(ks);
    ToDictLastWins(pairs, k);
    if k in ks {
      var i :| 0 <= i < |ks| && ks[i] == k;
      assert pairs[i].0 == k;
      ToDictFrom(pairs, k);
      var j :| 0 <= j < |pairs| && pairs[j] == (k, ToDict(pairs)[k]);
      assert ToDict(pairs)[k] == j + 1 && ks[j] == k;
    } else {
      forall i | 0 <= i < |pairs| ensures pairs[i].0 != k {
        assert pairs[i].0 == ks[i];
      }
    }
  }

  // ---------------------------------------------------------------------------
  // Concatenation

  /** `for x in xs: out.extend(g(x))`. */
  function Flatten<A, B>(xs: seq<A>, g: A -> seq<B>): seq<B>
    decreases |xs|
  {
    if xs == [] then [] else Flatten(xs[..|xs| - 1], g) + g(xs[|xs| - 1])
  }

  lemma {:induction false} FlattenSpec<A, B>(xs: seq<A>, g: A -> seq<B>, y: B)
    ensures y in Flatten(xs, g) <==> exists x :: x in xs && y in g(x)
    decreases |xs|
  {
    if xs != [] {
      var n := |xs| - 1;
      FlattenSpec(xs[..n], g, y);
      assert xs == xs[..n] + [xs[n]];
    }
  }

  lemma FlattenSnoc<A, B>(xs: seq<A>, g: A -> seq<B>, i: nat)
    requires i < |xs|
    ensures Flatten(xs[..i + 1], g) == Flatten(xs[..i], g) + g(xs[i])
  {
    assert xs[..i + 1][..i] == xs[..i];
  }

  // ---------------------------------------------------------------------------
  // The database

  /**
   * The tables of the local store. `Valid` states the unique keys the model
   * assumes for them: the decision acronym; the id and the acronym of a
   * departement, rythme or etat; the INE of an etudiant; the (annee_but,
   * id_departement, id_rythme) triple of a formation; and the whole tuple of
   * an inscription (a set).
   */
  class Database {
    var decisions: seq<Label>
    var departements: seq<Row>
    var rythmes: seq<Row>
    var etats: seq<Row>
    var etudiants: seq<string>
    var formations: seq<Formation>
    var inscriptions: set<Inscription>

    ghost predicate Valid()
      reads this
    {
      && DistinctAcronyms(decisions)
      && Ascending(departements) && UniqueAcronyms(departements)
      && Ascending(rythmes) && UniqueAcronyms(rythmes)
      && Ascending(etats) && UniqueAcronyms(etats)
      && Distinct(etudiants)
      && Distinct(formations)
    }

    /** A database whose schema has just been created: every table empty. */
    constructor ()
      ensures Valid()
      ensures decisions == [] && departements == [] && rythmes == [] && etats == []
      ensures etudiants == [] && formations == [] && inscriptions == {}
    {
      decisions, departements, rythmes, etats := [], [], [], [];
      etudiants, formations, inscriptions := [], [], {};
    }

    /**
     * `db.rollback()` of a call that wrote only the rythme, departement and
     * formation tables: those three get back the contents they had before it.
     */
    method Rollback(rythmes0: seq<Row>, departements0: seq<Row>, formations0: seq<Formation>)
      requires Valid()
      requires Ascending(rythmes0) && UniqueAcronyms(rythmes0)
      requires Ascending(departements0) && UniqueAcronyms(departements0)
      requires Distinct(formations0)
      modifies this`rythmes, this`departements, this`formations
      ensures Valid()
      ensures rythmes == rythmes0 && departements == departements0 && formations == formations0
    {
      rythmes, departements, formations := rythmes0, departements0, formations0;
    }

    /** INSERT OR IGNORE INTO rythme; `added` is `cursor.rowcount > 0`. */
    method InsertOrIgnoreRythme(id: int, entry: Label) returns (added: bool)
      requires Valid()
      modifies this`rythmes
      ensures Valid()
      ensures added == !Clashes(old(rythmes), id, entry)
      ensures rythmes == Ignore(old(rythmes), id, entry)
      ensures |rythmes| == |old(rythmes)| + (if added then 1 else 0)
    {
      IgnoreSpec(rythmes, id, entry);
      added := !Clashes(rythmes, id, entry);
      rythmes := Ignore(rythmes, id, entry);
    }

    /** INSERT OR IGNORE INTO departement; `added` is `cursor.rowcount > 0`. */
    method InsertOrIgnoreDepartement(id: int, entry: Label) returns (added: bool)
      requires Valid()
      modifies this`departements
      ensures Valid()
      ensures added == !Clashes(old(departements), id, entry)
      ensures departements == Ignore(old(departements), id, entry)
      ensures |departements| == |old(departements)| + (if added then 1 else 0)
    {
      IgnoreSpec(departements, id, entry);
      added := !Clashes(departements, id, entry);
      departements := Ignore(departements, id, entry);
    }

    /** INSERT OR IGNORE INTO formation; `added` is `cursor.rowcount > 0`. */
    method InsertOrIgnoreFormation(f: Formation) returns (added: bool)
      requires Distinct(formations)
      modifies this`formations
      ensures Distinct(formations)
      ensures added == (f !in old(formations))
      ensures formations == InsertIgnore(old(formations), f)
    {
      added := f !in formations;
      formations := InsertIgnore(formations, f);
    }

    /** INSERT OR IGNORE INTO etudiant; `added` is `cursor.rowcount > 0`. */
    method InsertOrIgnoreEtudiant(ine: string) returns (added: bool)
      requires Distinct(etudiants)
      modifies this`etudiants
      ensures Distinct(etudiants)
      ensures added == (ine !in old(etudiants))
      ensures etudiants == InsertIgnore(old(etudiants), ine)
    {
      added := ine !in etudiants;
      etudiants := InsertIgnore(etudiants, ine);
    }

    /** INSERT OR IGNORE INTO inscription; `added` is `cursor.rowcount > 0`. */
    method InsertOrIgnoreInscription(r: Inscription) returns (added: bool)
      modifies this`inscriptions
      ensures added == (r !in old(inscriptions))
      ensures inscriptions == old(inscriptions) + {r}
    {
      added := r !in inscriptions;
      inscriptions := inscriptions + {r};
    }
  }
}
