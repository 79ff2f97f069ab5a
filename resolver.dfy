/**
 * What a decisions file's name says: its department (by an ordered chain of
 * substring tests, first match wins), its academic year (the first four-digit
 * token) and its rhythm (full-time or work-study).
 */
module Resolver {
  import opened Wrappers
  import opened Text

  /**
   * The departement acronym `_get_dept_id_from_name` looks up for a file
   * name, following its chain of tests on the lower-cased name. A name that
   * mentions "passerelle" only ever resolves to a bridge department or to
   * nothing.
   */
  function DeptAcronym(name: string): (r: Option<string>)
    ensures Contains(Lower(name), "passerelle") ==> r in {None, Some("P_SD_INFO"), Some("P_CJ_GEA")}
  {
    var n := Lower(name);
    if Contains(n, "passerelle") then
      if ContainsAny(n, ["sd", "info"]) then Some("P_SD_INFO")
      else if ContainsAny(n, ["cj", "gea"]) then Some("P_CJ_GEA")
      else None
    else OrdinaryAcronym(n)
  }

  /** `_get_dept_id_from_name`: the id the departement cache holds for the chosen acronym. */
  function DeptIdFromName(name: string, cache: map<string, int>): (r: Option<int>)
    ensures Contains(Lower(name), "passerelle") ==>
              r in {None, Get(cache, "P_SD_INFO"), Get(cache, "P_CJ_GEA")}
  {
    match DeptAcronym(name)
    case None => None
    case Some(a) => Get(cache, a)
  }

  // ---------------------------------------------------------------------------
  // The same decision as an ordered rule table

  /** A rule fires on a name that contains `context` and one of `patterns`; its outcome then decides. */
  datatype Rule = Rule(context: string, patterns: seq<string>, outcome: Option<string>)

  predicate Fires(r: Rule, n: string)
  {
    Contains(n, r.context) && ContainsAny(n, r.patterns)
  }

  /** The outcome of the first rule that fires, None when none does. */
  function FirstMatch(rules: seq<Rule>, n: string): Option<string>
    decreases |rules|
  {
    if rules == [] then None
    else if Fires(rules[0], n) then rules[0].outcome
    else FirstMatch(rules[1..], n)
  }

  /** The department rules, in the order the source tries them. */
  const DeptRules: seq<Rule> := [
    Rule("passerelle", ["sd", "info"], Some("P_SD_INFO")),
    Rule("passerelle", ["cj", "gea"], Some("P_CJ_GEA")),
    Rule("passerelle", [""], None),
    Rule("", ["geii", "electrique"], Some("GEII")),
    Rule("", ["rt", "reseaux"], Some("RT")),
    Rule("", ["stid", "donn"], Some("STID")),
    Rule("", ["info", "informatique"], Some("INFO")),
    Rule("", ["cj", "juridique"], Some("CJ")),
    Rule("", ["gea"], Some("GEA"))
  ]

  /** First match wins: the result is the outcome of a rule that fires and that no earlier rule pre-empts. */
  lemma {:induction false} FirstMatchSpec(rules: seq<Rule>, n: string)
    ensures (forall i :: 0 <= i < |rules| ==> !Fires(rules[i], n)) ==> FirstMatch(rules, n) == None
    ensures forall i :: 0 <= i < |rules| && Fires(rules[i], n) && (forall j :: 0 <= j < i ==> !Fires(rules[j], n))
                        ==> FirstMatch(rules, n) == rules[i].outcome
    decreases |rules|
  {
    if rules != [] {
      FirstMatchSpec(rules[1..], n);
      if !Fires(rules[0], n) {
        forall i | 0 < i < |rules| && Fires(rules[i], n) && (forall j :: 0 <= j < i ==> !Fires(rules[j], n))
          ensures FirstMatch(rules, n) == rules[i].outcome
        {
          assert rules[1..][i - 1] == rules[i];
          forall j | 0 <= j < i - 1 ensures !Fires(rules[1..][j], n) {
            assert rules[1..][j] == rules[j + 1];
          }
        }
        if forall i :: 0 <= i < |rules| ==> !Fires(rules[i], n) {
          forall i | 0 <= i < |rules| - 1 ensures !Fires(rules[1..][i], n) {
            assert rules[1..][i] == rules[i + 1];
          }
        }
      }
    }
  }

  lemma ContainsEmpty(n: string)
    ensures Contains(n, "")
  {
  }

  lemma FirstMatchStep(rules: seq<Rule>, k: nat, n: string)
    requires k < |rules|
    ensures FirstMatch(rules[k..], n) == if Fires(rules[k], n) then rules[k].outcome else FirstMatch(rules[k + 1..], n)
  {
    assert rules[k..][0] == rules[k];
    assert rules[k..][1..] == rules[k + 1..];
  }

  /** The value of the chain below the "passerelle" test, as the rule table's tail decides it. */
  function OrdinaryAcronym(n: string): Option<string>
  {
    if ContainsAny(n, ["geii", "electrique"]) then Some("GEII")
    else if ContainsAny(n, ["rt", "reseaux"]) then Some("RT")
    else if ContainsAny(n, ["stid", "donn"]) then Some("STID")
    else if ContainsAny(n, ["info", "informatique"]) then Some("INFO")
    else if ContainsAny(n, ["cj", "juridique"]) then Some("CJ")
    else if Contains(n, "gea") then Some("GEA")
    else None
  }

  /** A rule without context fires exactly when one of its patterns occurs. */
  lemma PlainStep(rules: seq<Rule>, k: nat, n: string)
    requires k < |rules| && rules[k].context == ""
    ensures FirstMatch(rules[k..], n) ==
            if ContainsAny(n, rules[k].patterns) then rules[k].outcome else FirstMatch(rules[k + 1..], n)
  {
    ContainsEmpty(n);
    FirstMatchStep(rules, k, n);
  }

  // The rule table's tail, one rule at a time from the last one up.

  lemma GeaRule(n: string)
    ensures FirstMatch(DeptRules[8..], n) == if Contains(n, "gea") then Some("GEA") else None
  {
    assert DeptRules[9..] == [];
    PlainStep(DeptRules, 8, n);
  }

  lemma CjRule(n: string)
    ensures FirstMatch(DeptRules[7..], n) ==
            if ContainsAny(n, ["cj", "juridique"]) then Some("CJ")
            else if Contains(n, "gea") then Some("GEA") else None
  {
    GeaRule(n);
    PlainStep(DeptRules, 7, n);
  }

  lemma InfoRule(n: string)
    ensures FirstMatch(DeptRules[6..], n) ==
            if ContainsAny(n, ["info", "informatique"]) then Some("INFO")
            else if ContainsAny(n, ["cj", "juridique"]) then Some("CJ")
            else if Contains(n, "gea") then Some("GEA") else None
  {
    CjRule(n);
    PlainStep(DeptRules, 6, n);
  }

  lemma StidRule(n: string)
    ensures FirstMatch(DeptRules[5..], n) ==
            if ContainsAny(n, ["stid", "donn"]) then Some("STID")
            else if ContainsAny(n, ["info", "informatique"]) then Some("INFO")
            else if ContainsAny(n, ["cj", "juridique"]) then Some("CJ")
            else if Contains(n, "gea") then Some("GEA") else None
  {
    InfoRule(n);
    PlainStep(DeptRules, 5, n);
  }

  lemma RtRule(n: string)
    ensures FirstMatch(DeptRules[4..], n) ==
            if ContainsAny(n, ["rt", "reseaux"]) then Some("RT")
            else if ContainsAny(n, ["stid", "donn"]) then Some("STID")
            else if ContainsAny(n, ["info", "informatique"]) then Some("INFO")
            else if ContainsAny(n, ["cj", "juridique"]) then Some("CJ")
            else if Contains(n, "gea") then Some("GEA") else None
  {
    StidRule(n);
    PlainStep(DeptRules, 4, n);
  }

  lemma TailRules(n: string)
    ensures FirstMatch(DeptRules[3..], n) == OrdinaryAcronym(n)
  {
    RtRule(n);
    PlainStep(DeptRules, 3, n);
  }

  /** On a name without "passerelle" the three bridge rules never fire. */
  lemma SkipBridgeRules(n: string)
    requires !Contains(n, "passerelle")
    ensures FirstMatch(DeptRules, n) == FirstMatch(DeptRules[3..], n)
  {
    var r := DeptRules;
    FirstMatchStep(r, 2, n);
    FirstMatchStep(r, 1, n);
    FirstMatchStep(r, 0, n);
    assert r[0..] == r;
  }

  /** On a name with "passerelle" the third bridge rule catches whatever the first two leave. */
  lemma BridgeRules(n: string)
    requires Contains(n, "passerelle")
    ensures FirstMatch(DeptRules, n) ==
            if ContainsAny(n, ["sd", "info"]) then Some("P_SD_INFO")
            else if ContainsAny(n, ["cj", "gea"]) then Some("P_CJ_GEA")
            else None
  {
    var r := DeptRules;
    ContainsEmpty(n);
    FirstMatchStep(r, 2, n);
    FirstMatchStep(r, 1, n);
    FirstMatchStep(r, 0, n);
    assert r[0..] == r;
  }

  /** The chain of tests in the source decides exactly as the rule table does. */
  lemma DeptAcronymIsFirstMatch(name: string)
    ensures DeptAcronym(name) == FirstMatch(DeptRules, Lower(name))
  {
    var n := Lower(name);
    if Contains(n, "passerelle") {
      BridgeRules(n);
    } else {
      SkipBridgeRules(n);
      TailRules(n);
    }
  }

  // ---------------------------------------------------------------------------
  // Rhythm

  /** The rhythm id of a file: 2 (work-study) when its lower-cased name has one of the work-study markers, else 1. */
  function FileRythme(name: string): int
  {
    if ContainsAny(Lower(name), ["fa", "apprentissage", "alternance", "alt"]) then 2 else 1
  }

  /** A slice that contains `q` also contains every prefix of `q`. */
  lemma {:induction false} ContainsPrefix(n: string, p: string, q: string)
    requires p <= q && Contains(n, q)
    ensures Contains(n, p)
    decreases |n|
  {
    if !(q <= n) {
      ContainsPrefix(n[1..], p, q);
    }
  }

  /** The "alternance" marker is redundant: "alt" catches every name it catches. */
  lemma FileRythmeMarkers(name: string)
    ensures FileRythme(name) == (if ContainsAny(Lower(name), ["fa", "apprentissage", "alt"]) then 2 else 1)
  {
    var n := Lower(name);
    if Contains(n, "alternance") {
      ContainsPrefix(n, "alt", "alternance");
    }
  }
}
