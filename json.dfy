/**
 * The parsed JSON the file-batch import reads: the records of a
 * `decisions_*.json` file and the entries of `departements.json`.
 */
module Json {
  import opened Wrappers
  import opened Text

  /** A JSON scalar as Python sees it after `json.load`. */
  datatype Scalar = Null | Bool(b: bool) | Int(i: int) | Str(s: string)

  /** Python's truth value: `None`, `False`, `0` and `""` are false. */
  predicate Truthy(v: Scalar)
  {
    match v
    case Null => false
    case Bool(b) => b
    case Int(i) => i != 0
    case Str(s) => s != ""
  }

  /** Python's `str(v)`. */
  function Render(v: Scalar): string
  {
    match v
    case Null => "None"
    case Bool(b) => if b then "True" else "False"
    case Int(i) => IntToString(i)
    case Str(s) => s
  }

  /** Python's `int(v)`: None where Python raises (TypeError on `None`, ValueError on a malformed string). */
  function ToInt(v: Scalar): Option<int>
  {
    match v
    case Null => None
    case Bool(b) => Some(if b then 1 else 0)
    case Int(i) => Some(i)
    case Str(s) => ParseInt(s)
  }

  /**
   * One of the `decision`, `annee` and `semestre` objects of a student record.
   * A key the object lacks reads as Null, as `dict.get` returns None for it.
   * Only `code` is read from `decision` and `semestre`.
   */
  datatype Block = Block(code: Scalar, anneeScolaire: Scalar, ordre: Scalar)

  /**
   * A student record of a decisions file. `etudid` is "" when the key is
   * absent or null; a sub-object is None when the value stored under its key
   * is not a JSON object (the source then reads it as `{}`).
   */
  datatype Record = Record(etudid: string, etat: Scalar, decision: Option<Block>,
                           annee: Option<Block>, semestre: Option<Block>)

  /**
   * The parsed content of a decisions file: a bare list of records, an object
   * (represented by the list under its `etudiants` key, [] when absent), or a
   * file that could not be opened or parsed.
   */
  datatype Content = Records(list: seq<Record>) | Wrapped(etudiants: seq<Record>) | Unreadable

  /** A file of the JSON directory: its base name and its parsed content. */
  datatype DataFile = DataFile(name: string, content: Content)

  /** An entry of `departements.json`. */
  datatype DeptEntry = DeptEntry(id: int, deptName: string, acronym: string)

  /** The records `_import_inscriptions` walks: the list itself, or the object's `etudiants`. */
  function StudentList(c: Content): seq<Record>
  {
    match c
    case Records(l) => l
    case Wrapped(e) => e
    case Unreadable => []
  }

  /** `glob("decisions_*.json")` on a base name. */
  predicate IsDecisionFile(name: string)
  {
    |name| >= 15 && name[..10] == "decisions_" && name[|name| - 5..] == ".json"
  }

  /** The files that match the glob, in directory order. */
  function DecisionFiles(dir: seq<DataFile>): (r: seq<DataFile>)
    ensures forall f :: f in r <==> f in dir && IsDecisionFile(f.name)
  {
    if dir == [] then []
    else (if IsDecisionFile(dir[0].name) then [dir[0]] else []) + DecisionFiles(dir[1..])
  }
}
