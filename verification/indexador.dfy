/** `determine_indexador`: the rate-index category of a sheet, read from its
    name by a case-insensitive substring test, first match wins. */
module Indexador {
  import opened Text

  const IpcaSpread := "IPCA +"
  const DiPercent := "% do DI"
  const DiSpread := "DI +"
  const MaturedEarly := "Vencidos Antecipadamente"
  const Unknown := "Desconhecido"

  /** The category is always one of the five names the chain can return. */
  function DetermineIndexador(sheetName: string): (category: string)
    ensures category == IpcaSpread || category == DiPercent || category == DiSpread
      || category == MaturedEarly || category == Unknown
  {
    var name := Lower(sheetName);
    if Contains(name, "ipca_spread") then IpcaSpread
    else if Contains(name, "di_percentual") then DiPercent
    else if Contains(name, "di_spread") then DiSpread
    else if Contains(name, "vencidos_antecipadamente") then MaturedEarly
    else Unknown
  }

  /** A classification rule: a lower-case pattern and the category it selects. */
  datatype Rule = Rule(pattern: string, category: string)

  /** The rules in the order they are tried. */
  const Rules: seq<Rule> := [
    Rule("ipca_spread", IpcaSpread),
    Rule("di_percentual", DiPercent),
    Rule("di_spread", DiSpread),
    Rule("vencidos_antecipadamente", MaturedEarly)
  ]

  ghost predicate Occurs(s: string, p: string)
  {
    exists i :: OccursAt(s, p, i)
  }

  /** The category of the first rule whose pattern occurs in `name`, or `otherwise`. */
  function FirstMatch(rules: seq<Rule>, name: string, otherwise: string): string
  {
    if rules == [] then otherwise
    else if Contains(name, rules[0].pattern) then rules[0].category
    else FirstMatch(rules[1..], name, otherwise)
  }

  /** First match wins: the result is the category of a rule whose pattern
      occurs and no earlier pattern occurs, or `otherwise` when none occurs. */
  lemma {:induction false} FirstMatchWins(rules: seq<Rule>, name: string, otherwise: string)
    ensures var r := FirstMatch(rules, name, otherwise);
      || (exists k :: 0 <= k < |rules| && Occurs(name, rules[k].pattern)
            && (forall j :: 0 <= j < k ==> !Occurs(name, rules[j].pattern))
            && r == rules[k].category)
      || ((forall k :: 0 <= k < |rules| ==> !Occurs(name, rules[k].pattern)) && r == otherwise)
  {
    if rules != [] && !Contains(name, rules[0].pattern) {
      var tail := rules[1..];
      FirstMatchWins(tail, name, otherwise);
      var r := FirstMatch(rules, name, otherwise);
      if forall k :: 0 <= k < |tail| ==> !Occurs(name, tail[k].pattern) {
        forall k | 0 <= k < |rules| ensures !Occurs(name, rules[k].pattern) {
          if k > 0 {
            assert rules[k] == tail[k - 1];
          }
        }
      } else {
        var k :| 0 <= k < |tail| && Occurs(name, tail[k].pattern)
          && (forall j :: 0 <= j < k ==> !Occurs(name, tail[j].pattern)) && r == tail[k].category;
        assert rules[k + 1] == tail[k];
        forall j | 0 <= j < k + 1 ensures !Occurs(name, rules[j].pattern) {
          if j > 0 {
            assert rules[j] == tail[j - 1];
          }
        }
      }
    }
  }

  /** The chain of `if`/`elif` tests is the rule table tried in order on the
      lower-cased name: the first pattern that occurs decides, "Desconhecido" otherwise. */
  lemma DetermineIndexadorIsFirstMatch(sheetName: string)
    ensures DetermineIndexador(sheetName) == FirstMatch(Rules, Lower(sheetName), Unknown)
  {
    var name := Lower(sheetName);
    var r1, r2, r3 := Rules[1..], Rules[2..], Rules[3..];
    assert r1[1..] == r2 && r2[1..] == r3 && r3[1..] == [];
    assert FirstMatch(r3, name, Unknown)
      == if Contains(name, "vencidos_antecipadamente") then MaturedEarly else Unknown;
    assert FirstMatch(r2, name, Unknown)
      == if Contains(name, "di_spread") then DiSpread else FirstMatch(r3, name, Unknown);
    assert FirstMatch(r1, name, Unknown)
      == if Contains(name, "di_percentual") then DiPercent else FirstMatch(r2, name, Unknown);
  }

  /** Classification ignores case: a name and its lower-cased form get the same category. */
  lemma DetermineIndexadorIgnoresCase(sheetName: string)
    ensures DetermineIndexador(Lower(sheetName)) == DetermineIndexador(sheetName)
  {
    LowerIdempotent(sheetName);
  }
}
