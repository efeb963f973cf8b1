/**
  apply_rules of mapper.py as the loops it is written with: the description
  is normalised once, then a pass over the rules in list order runs, for each
  rule, a pass over its negations (the flag `isNegated`) and a pass over its
  conditions (the flag `isMatch`), and returns at the first rule that
  survives both. The rule pass and the two inner passes are methods of their
  own, called where apply_rules runs them.
 */
module Engine {
  import opened Wrappers
  import opened Normalizer
  import opened Rules

  /** The negation pass: stops at the first negation keyword found in the text. */
  method CheckNegations<M>(rule: Rule<M>, text: string) returns (isNegated: bool)
    ensures isNegated <==> Negated(rule, text)
  {
    var negations := rule.Negations();
    isNegated := false;
    var n := 0;
    while n < |negations|
      invariant 0 <= n <= |negations|
      invariant !isNegated
      invariant forall m :: 0 <= m < n ==> !Contains(text, negations[m])
    {
      if Contains(text, negations[n]) {
        isNegated := true;
        break;
      }
      n := n + 1;
    }
  }

  /** The condition pass: stops at the first condition that disqualifies the rule. */
  method CheckConditions<M>(rule: Rule<M>, text: string) returns (isMatch: bool)
    ensures isMatch <==> forall j :: 0 <= j < |rule.Conditions()| ==> ConditionPasses(rule.Conditions()[j], text)
  {
    var conditions := rule.Conditions();
    isMatch := true;
    var c := 0;
    while c < |conditions|
      invariant 0 <= c <= |conditions|
      invariant isMatch
      invariant forall m :: 0 <= m < c ==> ConditionPasses(conditions[m], text)
    {
      var keywords := conditions[c].Keywords();
      var conditionType := conditions[c].kind;
      if conditionType == Some("AND") {
        if !AllPresent(keywords, text) {
          isMatch := false;
          break;
        }
      } else if conditionType == Some("OR") {
        if !AnyPresent(keywords, text) {
          isMatch := false;
          break;
        }
      } else if conditionType == Some("NOT_AND") {
        if AllPresent(keywords, text) {
          isMatch := false;
          break;
        }
      }
      c := c + 1;
    }
  }

  /** The rule pass over already normalised text: the mappings of the first rule that matches, or none. */
  method EvaluateRules<M>(text: string, rules: seq<Rule<M>>) returns (result: seq<M>)
    ensures result == FirstMatch(rules, text)
  {
    var i := 0;
    while i < |rules|
      invariant 0 <= i <= |rules|
      invariant forall j :: 0 <= j < i ==> !RuleMatches(rules[j], text)
    {
      var rule := rules[i];
      var isNegated := CheckNegations(rule, text);
      if isNegated {
        i := i + 1;
        continue;
      }
      var isMatch := CheckConditions(rule, text);
      if isMatch {
        FirstMatchWins(rules, text, i);
        return rule.Mappings();
      }
      i := i + 1;
    }
    NoMatchIsEmpty(rules, text);
    return [];
  }

  /** apply_rules: normalise the description once, then run the rule pass on it. */
  method ApplyRules<M>(description: string, rules: seq<Rule<M>>) returns (result: seq<M>)
    ensures result == FirstMatch(rules, Normalize(description))
  {
    var text := Normalize(description);
    result := EvaluateRules(text, rules);
  }
}
