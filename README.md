# rules-mapper: the rule-matching engine in Dafny

This project models the rule-matching engine of `mapper.py` and proves properties of it. The engine sorts free-text transaction descriptions into taxonomy mappings using an ordered, hand-written rule set. It has three parts:

- **Normaliser** (`normalize`). It lower-cases the description, replaces `&` with `and`, deletes every character that is neither a word character nor white space, collapses each white-space run to one space and trims the ends.
- **Rule evaluator** (`apply_rules`). It normalises the description once and then walks the rules in list order. A rule is vetoed when any of its negation keywords is a substring of the normalised text. Otherwise every condition must let it through:
  - `AND`: all keywords present.
  - `OR`: at least one keyword present.
  - `NOT_AND`: disqualifies when all keywords are present.
  - Any other type, or a missing one, does nothing.
  
  The first surviving rule's `mappings` are returned; if no rule survives, the result is `[]`.
- **Priority ordering** (the `sorted` call in `load_rules`). Rules are stably sorted by `priority`, and a missing priority counts as 999.

Files and modules:

| file | module | contents |
|---|---|---|
| `wrappers.dfy` | `Wrappers` | `Option`, used for keys that a rule record may lack |
| `ascii.dfy` | `Ascii` | ASCII character classes for `str.lower()`, `\w` and `\s` |
| `normalizer.dfy` | `Normalizer` | the four normalisation steps as functions, the output invariant `IsNormalized`, idempotence |
| `rules.dfy` | `Rules` | `Condition` and `Rule<M>` records whose keys may be missing, with getters that default to `[]`; substring containment; pure meaning of conditions and rules; `Winner` / `FirstMatch`; evaluation lemmas |
| `engine.dfy` | `Engine` | `apply_rules` as the loops with the flags `isNegated` and `isMatch`, proved equal to `FirstMatch` |
| `ordering.dfy` | `Ordering` | the sort key, a stable insertion sort, and proofs that it is sorted, a permutation, stable and unique |

Modelling decisions:
- A rule record is `Rule(priority, negations, conditions, mappings)`, where each field is an `Option`. The getters `Negations()`, `Conditions()` and `Mappings()` play the part of `rule.get(key, [])`.
- A condition is `Condition(kind, keywords)`. `Keywords()` defaults to `[]`. A missing `type` is `None`.
- Mapping records have the type parameter `M` and are returned verbatim.
- The condition type is compared with the exact strings `"AND"`, `"OR"` and `"NOT_AND"`, as the source does. So `"and"` or `"AND "` is an unrecognised type, and such a condition never disqualifies its rule.
- Keywords are not normalised. `KeywordOutsideAlphabetNeverMatches` proves that a keyword holding a character that normalised text cannot hold is never found. Upper-case letters are such characters.
- `Contains` is Python's `kw in text` on strings. `ContainsIff` shows it agrees with "occurs at some position". The empty keyword is contained in every text.
- Stability of the sort is stated through `WithPriority(s, k)`, the subsequence of rules with key `k`. The sorted list has, for every `k`, the same subsequence as the input. `StableOrderIsUnique` shows that being sorted and meeting this condition fully determine the result: this is what `sorted` with a key produces.

A blank description is not a no-match: it normalises to the empty text (mapper.py:11-12, 22), so it still matches any rule without conditions whose negation keywords are all non-empty, and a rule whose only condition is `AND` on `[""]` and whose negation keywords are all non-empty. `BlankDescriptionReachesCatchAll` proves the first case.

## Model

| member | source | states |
|---|---|---|
| Ascii.ToLower | mapper.py:15 | ASCII case folding: an upper-case letter becomes the corresponding lower-case letter, every other character is unchanged, and no upper-case letter results |
| Ascii.IsWordChar | mapper.py:21 | `\w` over ASCII: letters, digits and the underscore |
| Ascii.IsSpace | mapper.py:21-22 | `\s` and `str.isspace()` over ASCII: the characters 9-13, 28-31 and the space |
| Normalizer.Lower | mapper.py:15 | `lower()` keeps the length and folds each character in place |
| Normalizer.ReplaceAmpersand | mapper.py:18 | the result contains no `&`, every character comes from the input or from "and", and a text with no `&` is unchanged |
| Normalizer.ReplaceAmpersandChar | mapper.py:18 | an `&` becomes exactly "and" and every other character is kept; with the concatenation law this determines the replacement on every text |
| Normalizer.ReplaceAmpersandAppend | mapper.py:18 | the replacement works character by character: it distributes over concatenation |
| Normalizer.RemovePunctuation | mapper.py:21 | only word characters and white space remain, deleting adds no upper-case letter, and a text made only of such characters is unchanged |
| Normalizer.RemovePunctuationChar | mapper.py:21 | a word or white-space character is kept and every other character is deleted; with the concatenation law this determines the filter on every text |
| Normalizer.RemovePunctuationAppend | mapper.py:21 | deletion is a filter: it distributes over concatenation |
| Normalizer.DropLeadingSpaces | mapper.py:22 | the result is the suffix of the input left after removing the leading white space, and it does not start with white space |
| Normalizer.DropTrailingSpaces | mapper.py:22 | the result is the prefix of the input left after removing the trailing white space, and it does not end with white space |
| Normalizer.CollapseSpaces | mapper.py:22 | `re.sub(r'\s+', ' ', s)`: every white-space character of the result is a single space, no two white-space characters are adjacent, the non-space characters come from the input, and the result starts with white space exactly when the input does |
| Normalizer.CollapseSpacesIsLocal | mapper.py:22 | run-by-run collapsing equals the reference definition that keeps non-space characters and turns only the last character of each white-space run into a space |
| Normalizer.CollapseSpacesIdentity | mapper.py:22 | collapsing leaves unchanged a text whose only white space is single spaces |
| Normalizer.Strip | mapper.py:22 | `strip()`: the result neither starts nor ends with white space, and a text that already does neither is unchanged |
| Normalizer.StripRemovesOnlyOuterSpaces | mapper.py:22 | `strip()` deletes only white space at the two ends: the result is the piece of the input between an all-white-space prefix and an all-white-space suffix |
| Normalizer.Normalize | mapper.py:7-24 | an empty description gives the empty string, and every result is normalised: only lower-case letters, digits, underscores and spaces, no leading or trailing space, no two adjacent spaces |
| Normalizer.NormalizedIsFixpoint | mapper.py:15-22 | normalisation returns a normalised text unchanged |
| Normalizer.NormalizeIdempotent | mapper.py:7-24 | normalize(normalize(x)) == normalize(x) |
| Normalizer.NormalizeFixpointIff | mapper.py:7-24 | the texts that normalisation leaves unchanged are exactly the normalised texts |
| Rules.Condition.Keywords | mapper.py:136 | `condition.get('keywords', [])`: the keyword list, or `[]` when the key is absent |
| Rules.Rule.Negations | mapper.py:126 | `rule.get('negations', [])`: the negation keywords, or `[]` when the key is absent |
| Rules.Rule.Conditions | mapper.py:135 | `rule.get('conditions', [])`: the conditions, or `[]` when the key is absent |
| Rules.Rule.Mappings | mapper.py:159 | `rule.get('mappings', [])`: the mappings, or `[]` when the key is absent |
| Rules.ContainsIff | mapper.py:127 | `kw in text` holds exactly when `kw` occurs at some position of `text` |
| Rules.KeywordOutsideAlphabetNeverMatches | mapper.py:120-153 | keywords are matched unnormalised: a keyword with an upper-case letter, punctuation or a non-space white-space character never occurs in a normalised description |
| Rules.AllPresent | mapper.py:141 | `all(k in text for k in keywords)`, true of an empty list |
| Rules.AnyPresent | mapper.py:147 | `any(k in text for k in keywords)`, false of an empty list |
| Rules.ConditionPasses | mapper.py:137-155 | one condition's test, with the type compared as an exact string; its meaning is stated by `ConditionMeaning` |
| Rules.Negated | mapper.py:125-131 | some negation keyword is a substring of the text; the engine's negation loop is proved to compute it (`CheckNegations`) |
| Rules.RuleMatches | mapper.py:125-158 | the rule is not vetoed and every condition passes; the rule loop returns this rule's mappings exactly when it is the first one for which this holds (`EvaluateRules`, `FirstMatchWins`) |
| Rules.ConditionMeaning | mapper.py:136-155 | AND passes iff every keyword occurs; OR passes iff some keyword occurs; NOT_AND fails iff every keyword occurs; an unrecognised or missing type passes; with no keywords, AND passes and both OR and NOT_AND fail |
| Rules.Winner | mapper.py:122-162 | the position returned is that of a matching rule with no matching rule before it, and there is none exactly when no rule matches |
| Rules.FirstMatch | mapper.py:122-162 | the pure result of evaluation: the first matching rule's mappings, or `[]`; the engine is proved equal to it |
| Rules.NegationVeto | mapper.py:125-131 | a rule one of whose negation keywords occurs in the text is never the winning rule |
| Rules.FirstMatchWins | mapper.py:122-159 | the earliest matching rule wins and its mappings are the result |
| Rules.LaterRulesIrrelevant | mapper.py:158-159 | once a rule of a list matches, rules appended after the list do not change the result |
| Rules.FallThrough | mapper.py:122-162 | when no rule of a prefix matches, the result is that of the rules after the prefix |
| Rules.CatchAllMatches | mapper.py:134-158 | a rule with no occurring negation whose conditions all have unrecognised or missing types matches; a rule with no conditions is one such rule |
| Rules.NoMatchIsEmpty | mapper.py:161-162 | when no rule matches, and so for an empty rule list, the result is `[]` |
| Rules.BlankDescriptionReachesCatchAll | mapper.py:11-22 | a blank description normalises to the empty text, and a rule without conditions whose negation keywords are all non-empty still returns its mappings for it |
| Engine.CheckNegations | mapper.py:125-131 | the negation loop sets its flag exactly when some negation keyword occurs in the text |
| Engine.CheckConditions | mapper.py:134-155 | the condition loop leaves its flag set exactly when every condition of the rule passes |
| Engine.EvaluateRules | mapper.py:122-162 | the loop over the rules returns exactly the first-match result (the winner's mappings, or `[]`) |
| Engine.ApplyRules | mapper.py:115-162 | apply_rules returns the first-match result for the normalised description |
| Ordering.PriorityKey | mapper.py:44 | the sort key `x.get('priority', 999)` |
| Ordering.Insert | mapper.py:44 | inserting into a sorted list gives a sorted list one longer |
| Ordering.SortByPriority | mapper.py:44 | the result is non-decreasing in priority (999 when absent) and as long as the input |
| Ordering.SortByPriorityIsStable | mapper.py:44 | for each priority, the rules having it keep their relative order from the input |
| Ordering.SortByPriorityPermutes | mapper.py:44 | the result is a permutation of the loaded rules |
| Ordering.StableOrderIsUnique | mapper.py:44 | two sorted lists with the same per-priority subsequences are equal |
| Ordering.SortByPriorityIsTheStableSort | mapper.py:44 | any sorted arrangement that keeps each priority's rules in input order is the one sorting returns |
| Ordering.SortedWinnerHasLeastPriority | mapper.py:44 | after sorting, when some rule of the rule set matches, a rule wins, and its priority is at most that of every matching rule |
| Ordering.WinnerWithinPriority | mapper.py:122-159 | the winning rule of a list is also the first matching rule among the rules of its own priority |
| Ordering.SortedWinnerIsFirstOfItsPriority | mapper.py:44 | ties: the rule that wins after sorting is the first matching rule, in load order, among the loaded rules of its priority |

## Left out

- Reading and decoding the rules file, and its error messages (mapper.py:32-41), are I/O and a JSON library. The engine takes an already parsed rule list.
- Discovering, choosing and reading description files (mapper.py:46-110) is directory listing, interactive input and file reading.
- The console program (mapper.py:166-205) only prints.
- Unicode behaviour of `str.lower()`, `\w`, `\s` and `str.strip()` is not modelled. The character classes are ASCII only, so a non-ASCII letter or non-ASCII white space is deleted as punctuation, whereas Python keeps or collapses it. The `re` engine itself is replaced by hand-written recursive functions over character sequences.
- A `None` description (the `not description` test at mapper.py:11) is not modelled: descriptions are strings. The empty-string case is modelled.
- Record values of the wrong JSON type are not modelled. Examples are a `null` keyword list or a non-string keyword, which make the source raise when evaluated. An `Option` field stands only for a key that is absent.
- Priorities are modelled as integers; a fractional priority, which the source sorts normally among the integers, is outside the model.
- The contents of mapping records are not modelled: they are opaque values of the type parameter `M`, returned as they are.
- Engine: the negation pass, the condition pass and the rule pass are separate methods, called where apply_rules runs them inline. The flags, the `break`s, the `continue` and the early return are as in the source.
