/**
 * The per-record rules of `_import_inscriptions` that do not touch a table:
 * the decision code with its fallbacks, the enrollment state, the academic
 * year and the BUT level.
 */
module Classifier {
  import opened Wrappers
  import opened Text
  import opened Json

  /** Python's `x or y`. */
  function Or(x: Scalar, y: Scalar): Scalar
  {
    if Truthy(x) then x else y
  }

  /** `block.get('code')`, where a value that is not an object reads as `{}`. */
  function CodeOf(b: Option<Block>): Scalar
  {
    if b.Some? then b.value.code else Null
  }

  /** `ann_data.get('code') or dec_data.get('code') or sem_data.get('code')`. */
  function BlockCode(rec: Record): Scalar
  {
    Or(Or(CodeOf(rec.annee), CodeOf(rec.decision)), CodeOf(rec.semestre))
  }

  /** The code the `etat` flag stands in for when no block carries one. */
  function EtatCode(etat: Scalar): Option<string>
  {
    if etat == Str("D") then Some("DEM")
    else if etat == Str("DEF") then Some("DEF")
    else if etat == Str("ABAN") then Some("DEM")
    else if etat == Str("I") then Some("INS")
    else None
  }

  /** The decision code of a record, or None when the record is skipped for want of one. */
  function DecisionCode(rec: Record): (r: Option<Scalar>)
    ensures r.Some? ==> Truthy(r.value)
  {
    var c := BlockCode(rec);
    if Truthy(c) then Some(c)
    else match EtatCode(rec.etat)
      case Some(s) => Some(Str(s))
      case None => None
  }

  /**
   * The code is the first non-empty one among `annee.code`, `decision.code`
   * and `semestre.code`; failing all three it comes from `etat`
   * (D and ABAN give DEM, DEF gives DEF, I gives INS), and any other `etat`
   * leaves the record without a code.
   */
  lemma DecisionCodeChain(rec: Record)
    ensures Truthy(CodeOf(rec.annee)) ==> DecisionCode(rec) == Some(CodeOf(rec.annee))
    ensures !Truthy(CodeOf(rec.annee)) && Truthy(CodeOf(rec.decision)) ==> DecisionCode(rec) == Some(CodeOf(rec.decision))
    ensures !Truthy(CodeOf(rec.annee)) && !Truthy(CodeOf(rec.decision)) && Truthy(CodeOf(rec.semestre)) ==>
              DecisionCode(rec) == Some(CodeOf(rec.semestre))
    ensures !Truthy(CodeOf(rec.annee)) && !Truthy(CodeOf(rec.decision)) && !Truthy(CodeOf(rec.semestre)) ==>
              DecisionCode(rec) == (if rec.etat in {Str("D"), Str("ABAN")} then Some(Str("DEM"))
                                    else if rec.etat == Str("DEF") then Some(Str("DEF"))
                                    else if rec.etat == Str("I") then Some(Str("INS"))
                                    else None)
  {
  }

  /** A sub-object that is not a JSON object counts as one without a code. */
  lemma NonObjectHasNoCode(rec: Record, b: Block)
    requires b.code == Null
    ensures rec.decision.None? ==> DecisionCode(rec) == DecisionCode(rec.(decision := Some(b)))
    ensures rec.annee.None? ==> DecisionCode(rec) == DecisionCode(rec.(annee := Some(b)))
    ensures rec.semestre.None? ==> DecisionCode(rec) == DecisionCode(rec.(semestre := Some(b)))
  {
  }

  /** The codes that mark a student as withdrawn (compared case-sensitively). */
  const WithdrawnCodes: set<string> := {"DEM", "DEF", "ABAN", "NI", "D"}

  /** `id_etat`: 2 (withdrawn) for a withdrawal code, 1 (enrolled) otherwise. */
  function EtatId(code: Scalar): (r: int)
    ensures r == 2 <==> code.Str? && code.s in WithdrawnCodes
    ensures r == 1 || r == 2
  {
    if code.Str? && code.s in WithdrawnCodes then 2 else 1
  }

  /**
   * The academic year of a record: the file's year token, replaced by
   * `annee.annee_scolaire` when that is truthy and `int()` accepts it; None
   * (skip the record) when the result is missing or 0.
   */
  function AcademicYear(annee: Option<Block>, fileYear: Option<int>): (r: Option<int>)
    ensures r.Some? ==> r.value != 0
  {
    var scol := if annee.Some? then annee.value.anneeScolaire else Null;
    var y := if Truthy(scol) && ToInt(scol).Some? then ToInt(scol) else fileYear;
    if y.Some? && y.value != 0 then y else None
  }

  lemma AcademicYearSpec(annee: Option<Block>, fileYear: Option<int>)
    ensures annee.Some? && Truthy(annee.value.anneeScolaire) && ToInt(annee.value.anneeScolaire).Some? ==>
              AcademicYear(annee, fileYear) ==
                (if ToInt(annee.value.anneeScolaire).value != 0 then ToInt(annee.value.anneeScolaire) else None)
    ensures (annee.None? || !Truthy(annee.value.anneeScolaire) || ToInt(annee.value.anneeScolaire).None?) ==>
              AcademicYear(annee, fileYear) == (if fileYear.Some? && fileYear.value != 0 then fileYear else None)
  {
  }

  /** BUT level from `str(annee.get('ordre', '')).upper()`: 3 if it has a '3', else 2 if it has a '2', else 1. */
  function Niveau(annee: Option<Block>): int
  {
    var ordre := Upper(if annee.Some? then Render(annee.value.ordre) else "");
    if Contains(ordre, "3") then 3 else if Contains(ordre, "2") then 2 else 1
  }

  /** `c in s` for a one-character string is "some position holds c". */
  lemma {:induction false} ContainsChar(s: string, c: char)
    ensures Contains(s, [c]) <==> exists i :: 0 <= i < |s| && s[i] == c
    decreases |s|
  {
    if s != [] {
      ContainsChar(s[1..], c);
      assert [c] <= s <==> s[0] == c;
      if exists i :: 0 <= i < |s| && s[i] == c {
        var i :| 0 <= i < |s| && s[i] == c;
        if i > 0 { assert s[1..][i - 1] == c; }
      }
      if exists i :: 0 <= i < |s| - 1 && s[1..][i] == c {
        var i :| 0 <= i < |s| - 1 && s[1..][i] == c;
        assert s[i + 1] == c;
      }
    }
  }

  lemma UpperKeepsDigit(s: string, d: char)
    requires IsDigit(d)
    ensures Contains(Upper(s), [d]) <==> Contains(s, [d])
  {
    ContainsChar(s, d);
    ContainsChar(Upper(s), d);
  }

  /** Upper-casing `ordre` does not change which digits it holds. */
  lemma NiveauSpec(annee: Option<Block>)
    ensures var ordre := if annee.Some? then Render(annee.value.ordre) else "";
            Niveau(annee) == if Contains(ordre, "3") then 3 else if Contains(ordre, "2") then 2 else 1
  {
    var ordre := if annee.Some? then Render(annee.value.ordre) else "";
    UpperKeepsDigit(ordre, '3');
    UpperKeepsDigit(ordre, '2');
  }
}
