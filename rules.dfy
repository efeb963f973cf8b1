/**
  Rules, conditions and the pure meaning of rule evaluation in mapper.py:
  substring tests on the normalised description, the negation veto, the
  AND / OR / NOT_AND conditions, and first-match selection.
 */
module Rules {
  import opened Wrappers
  import opened Ascii
  import opened Normalizer

  /**
    One condition record. `kind` is the `type` key and `keywords` the
    `keywords` key; either may be absent from the record.
   */
  datatype Condition = Condition(kind: Option<string>, keywords: Option<seq<string>>) {
    /** `condition.get('keywords', [])` */
    function Keywords(): seq<string> { keywords.GetOr([]) }
  }

  /**
    One rule record; every key may be absent. `M` is the type of the mapping
    records, which the engine passes through untouched.
   */
  datatype Rule<M> = Rule(
    priority: Option<int>,
    negations: Option<seq<string>>,
    conditions: Option<seq<Condition>>,
    mappings: Option<seq<M>>)
  {
    /** `rule.get('negations', [])` */
    function Negations(): seq<string> { negations.GetOr([]) }
    /** `rule.get('conditions', [])` */
    function Conditions(): seq<Condition> { conditions.GetOr([]) }
    /** `rule.get('mappings', [])` */
    function Mappings(): seq<M> { mappings.GetOr([]) }
  }

  // ---- substring containment: Python's `keyword in text` ----

  /** `kw` occurs in `text` starting at position `p`. */
  ghost predicate OccursAt(text: string, kw: string, p: nat) {
    p + |kw| <= |text| && text[p..p + |kw|] == kw
  }

  /** `kw in text` for strings: `kw` is a contiguous piece of `text` (the empty string always is). */
  predicate Contains(text: string, kw: string) {
    kw <= text || (text != [] && Contains(text[1..], kw))
  }

  /** `kw` occurs somewhere in `text`. */
  ghost predicate Appears(text: string, kw: string) {
    exists p: nat :: OccursAt(text, kw, p)
  }

  /** The recursive test agrees with "occurs at some position". */
  lemma {:induction false} ContainsIff(text: string, kw: string)
    ensures Contains(text, kw) <==> Appears(text, kw)
  {
    if Contains(text, kw) {
      if kw <= text {
        assert OccursAt(text, kw, 0);
      } else {
        ContainsIff(text[1..], kw);
        var p: nat :| OccursAt(text[1..], kw, p);
        assert text[1..][p..p + |kw|] == text[p + 1..p + 1 + |kw|];
        assert OccursAt(text, kw, p + 1);
      }
    } else {
      forall p: nat ensures !OccursAt(text, kw, p) {
        NotContainsNotAt(text, kw, p);
      }
    }
  }

  lemma {:induction false} NotContainsNotAt(text: string, kw: string, p: nat)
    requires !Contains(text, kw)
    ensures !OccursAt(text, kw, p)
  {
    if p > 0 && text != [] {
      NotContainsNotAt(text[1..], kw, p - 1);
    }
  }

  /** Every character of a contained keyword is a character of the text. */
  lemma {:induction false} ContainedCharsOccur(text: string, kw: string, i: nat)
    requires Contains(text, kw) && i < |kw|
    ensures kw[i] in text
  {
    if kw <= text {
      assert text[i] == kw[i];
    } else {
      ContainedCharsOccur(text[1..], kw, i);
    }
  }

  /**
    Keywords are not normalised: a keyword holding a character that
    normalised text cannot hold (an upper-case letter, punctuation, a tab)
    is never found in a normalised description.
   */
  lemma KeywordOutsideAlphabetNeverMatches(description: string, kw: string, i: nat)
    requires i < |kw| && !IsNormalChar(kw[i])
    ensures !Contains(Normalize(description), kw)
  {
    var t := Normalize(description);
    if Contains(t, kw) {
      ContainedCharsOccur(t, kw, i);
    }
  }

  // ---- condition and rule semantics ----

  /** `all(k in text for k in keywords)`; true of an empty list. */
  predicate AllPresent(keywords: seq<string>, text: string) {
    forall k :: 0 <= k < |keywords| ==> Contains(text, keywords[k])
  }

  /** `any(k in text for k in keywords)`; false of an empty list. */
  predicate AnyPresent(keywords: seq<string>, text: string) {
    exists k :: 0 <= k < |keywords| && Contains(text, keywords[k])
  }

  /**
    Whether a condition lets its rule through. The type is compared with the
    exact strings "AND", "OR" and "NOT_AND"; any other type, and a missing
    one, never disqualifies.
   */
  predicate ConditionPasses(c: Condition, text: string) {
    if c.kind == Some("AND") then AllPresent(c.Keywords(), text)
    else if c.kind == Some("OR") then AnyPresent(c.Keywords(), text)
    else if c.kind == Some("NOT_AND") then !AllPresent(c.Keywords(), text)
    else true
  }

  /** Some negation keyword of the rule occurs in the text. */
  predicate Negated<M>(r: Rule<M>, text: string) {
    AnyPresent(r.Negations(), text)
  }

  /** The rule survives the negation veto and all its conditions. */
  predicate RuleMatches<M>(r: Rule<M>, text: string) {
    !Negated(r, text) && forall j :: 0 <= j < |r.Conditions()| ==> ConditionPasses(r.Conditions()[j], text)
  }

  /** The position of the first rule that matches, if any. */
  function Winner<M>(rules: seq<Rule<M>>, text: string): (w: Option<nat>)
    ensures w.Some? ==> w.value < |rules| && RuleMatches(rules[w.value], text)
    ensures w.Some? ==> forall j :: 0 <= j < w.value ==> !RuleMatches(rules[j], text)
    ensures w.None? <==> forall j :: 0 <= j < |rules| ==> !RuleMatches(rules[j], text)
  {
    if rules == [] then None
    else if RuleMatches(rules[0], text) then Some(0)
    else match Winner(rules[1..], text)
      case Some(k) => Some(k + 1)
      case None => None
  }

  /** What apply_rules returns for normalised text `text`: the winner's mappings, or none at all. */
  function FirstMatch<M>(rules: seq<Rule<M>>, text: string): seq<M> {
    match Winner(rules, text)
    case Some(i) => rules[i].Mappings()
    case None => []
  }

  // ---- properties of evaluation ----

  /**
    The meaning of each condition type in terms of occurrence, including the
    empty keyword list: AND passes, OR fails and NOT_AND fails on any text.
   */
  lemma ConditionMeaning(c: Condition, text: string)
    ensures c.kind == Some("AND") ==>
      (ConditionPasses(c, text) <==> forall k :: 0 <= k < |c.Keywords()| ==> Appears(text, c.Keywords()[k]))
    ensures c.kind == Some("OR") ==>
      (ConditionPasses(c, text) <==> exists k :: 0 <= k < |c.Keywords()| && Appears(text, c.Keywords()[k]))
    ensures c.kind == Some("NOT_AND") ==>
      (!ConditionPasses(c, text) <==> forall k :: 0 <= k < |c.Keywords()| ==> Appears(text, c.Keywords()[k]))
    ensures c.kind !in {Some("AND"), Some("OR"), Some("NOT_AND")} ==> ConditionPasses(c, text)
    ensures c.Keywords() == [] ==>
      (c.kind == Some("AND") ==> ConditionPasses(c, text)) &&
      (c.kind == Some("OR") ==> !ConditionPasses(c, text)) &&
      (c.kind == Some("NOT_AND") ==> !ConditionPasses(c, text))
  {
    forall k | 0 <= k < |c.Keywords()| ensures Contains(text, c.Keywords()[k]) <==> Appears(text, c.Keywords()[k]) {
      ContainsIff(text, c.Keywords()[k]);
    }
  }

  /** A rule one of whose negation keywords occurs in the text is never the winner. */
  lemma NegationVeto<M>(rules: seq<Rule<M>>, text: string, i: nat, k: nat)
    requires i < |rules| && k < |rules[i].Negations()|
    requires Contains(text, rules[i].Negations()[k])
    ensures Winner(rules, text) != Some(i)
  {
  }

  /** The earliest matching rule supplies the result. */
  lemma FirstMatchWins<M>(rules: seq<Rule<M>>, text: string, i: nat)
    requires i < |rules| && RuleMatches(rules[i], text)
    requires forall j :: 0 <= j < i ==> !RuleMatches(rules[j], text)
    ensures Winner(rules, text) == Some(i)
    ensures FirstMatch(rules, text) == rules[i].Mappings()
  {
  }

  /** Once some rule matches, rules placed after the list do not change the result. */
  lemma LaterRulesIrrelevant<M>(rules: seq<Rule<M>>, later: seq<Rule<M>>, text: string)
    requires Winner(rules, text).Some?
    ensures Winner(rules + later, text) == Winner(rules, text)
    ensures FirstMatch(rules + later, text) == FirstMatch(rules, text)
  {
    var i := Winner(rules, text).value;
    assert (rules + later)[i] == rules[i];
    assert forall j :: 0 <= j < i ==> (rules + later)[j] == rules[j];
    FirstMatchWins(rules + later, text, i);
  }

  /** When no rule of a prefix matches, evaluation falls through to the rules after it. */
  lemma FallThrough<M>(rules: seq<Rule<M>>, later: seq<Rule<M>>, text: string)
    requires forall j :: 0 <= j < |rules| ==> !RuleMatches(rules[j], text)
    ensures FirstMatch(rules + later, text) == FirstMatch(later, text)
  {
    assert forall j :: 0 <= j < |later| ==> (rules + later)[|rules| + j] == later[j];
    match Winner(later, text)
    case Some(i) =>
      FirstMatchWins(rules + later, text, |rules| + i);
    case None =>
      assert forall j :: 0 <= j < |rules + later| ==> !RuleMatches((rules + later)[j], text) by {
        forall j | 0 <= j < |rules + later| ensures !RuleMatches((rules + later)[j], text) {
          if j >= |rules| { assert (rules + later)[j] == later[j - |rules|]; }
        }
      }
  }

  /**
    A catch-all: a rule none of whose negations occurs and whose conditions
    all have unrecognised or missing types (in particular, a rule without
    conditions) matches.
   */
  lemma CatchAllMatches<M>(r: Rule<M>, text: string)
    requires !Negated(r, text)
    requires forall j :: 0 <= j < |r.Conditions()| ==>
      r.Conditions()[j].kind !in {Some("AND"), Some("OR"), Some("NOT_AND")}
    ensures RuleMatches(r, text)
  {
  }

  /** When no rule matches, in particular for an empty rule list, the result is empty. */
  lemma NoMatchIsEmpty<M>(rules: seq<Rule<M>>, text: string)
    requires forall j :: 0 <= j < |rules| ==> !RuleMatches(rules[j], text)
    ensures FirstMatch(rules, text) == []
  {
  }

  /**
    A blank description normalises to the empty text, and a rule without
    conditions whose negation keywords are all non-empty still matches it:
    such a description is not a no-match.
   */
  lemma BlankDescriptionReachesCatchAll<M>(description: string, r: Rule<M>)
    requires AllSpaces(description)
    requires r.Conditions() == []
    requires forall k :: 0 <= k < |r.Negations()| ==> r.Negations()[k] != ""
    ensures FirstMatch([r], Normalize(description)) == r.Mappings()
  {
    BlankNormalizesToEmpty(description);
    forall k | 0 <= k < |r.Negations()| ensures !Contains("", r.Negations()[k]) {
      ContainsIff("", r.Negations()[k]);
    }
    FirstMatchWins([r], "", 0);
  }

  lemma BlankNormalizesToEmpty(description: string)
    requires AllSpaces(description)
    ensures Normalize(description) == ""
  {
    if description != "" {
      var lowered := Lower(description);
      assert lowered == description;
      assert ReplaceAmpersand(lowered) == description;
      assert RemovePunctuation(description) == description;
      assert DropLeadingSpaces(description) == [];
      assert CollapseSpaces(description) == " ";
    }
  }
}
