/**
  The ordering load_rules gives the parsed rules: Python's stable `sorted`
  with the key `rule.get('priority', 999)`. Stability is stated through the
  per-priority subsequences: the rules of each priority appear in the result
  in exactly the order they had in the input.
 */
module Ordering {
  import opened Wrappers
  import opened Rules

  /** `x.get('priority', 999)` */
  function PriorityKey<M>(r: Rule<M>): int {
    r.priority.GetOr(999)
  }

  predicate IsSortedByPriority<M>(s: seq<Rule<M>>) {
    forall i, j :: 0 <= i < j < |s| ==> PriorityKey(s[i]) <= PriorityKey(s[j])
  }

  /** The rules of `s` whose key is `k`, in their order in `s`. */
  function WithPriority<M>(s: seq<Rule<M>>, k: int): seq<Rule<M>> {
    if s == [] then []
    else (if PriorityKey(s[0]) == k then [s[0]] else []) + WithPriority(s[1..], k)
  }

  /** `x` placed into sorted `t` before the first rule whose key is not smaller. */
  function Insert<M>(x: Rule<M>, t: seq<Rule<M>>): (r: seq<Rule<M>>)
    requires IsSortedByPriority(t)
    ensures IsSortedByPriority(r)
    ensures |r| == |t| + 1
    ensures r[0] == x || (t != [] && r[0] == t[0])
  {
    if t == [] || PriorityKey(x) <= PriorityKey(t[0]) then [x] + t
    else [t[0]] + Insert(x, t[1..])
  }

  /** `sorted(rules, key=lambda x: x.get('priority', 999))`, as an insertion sort. */
  function SortByPriority<M>(rules: seq<Rule<M>>): (r: seq<Rule<M>>)
    ensures IsSortedByPriority(r)
    ensures |r| == |rules|
  {
    if rules == [] then [] else Insert(rules[0], SortByPriority(rules[1..]))
  }

  lemma {:induction false} InsertKeepsPriorityOrder<M>(x: Rule<M>, t: seq<Rule<M>>, k: int)
    requires IsSortedByPriority(t)
    ensures WithPriority(Insert(x, t), k) == WithPriority([x] + t, k)
  {
    if t != [] && PriorityKey(x) > PriorityKey(t[0]) {
      var rest := Insert(x, t[1..]);
      InsertKeepsPriorityOrder(x, t[1..], k);
      assert ([t[0]] + rest)[1..] == rest;
      assert ([x] + t)[1..] == t;
      assert ([x] + t[1..])[1..] == t[1..];
      if PriorityKey(x) == k {
        assert WithPriority(t, k) == WithPriority(t[1..], k);
      }
    }
  }

  /** Sorting is stable: the rules of each priority keep their relative order. */
  lemma {:induction false} SortByPriorityIsStable<M>(rules: seq<Rule<M>>, k: int)
    ensures WithPriority(SortByPriority(rules), k) == WithPriority(rules, k)
  {
    if rules != [] {
      var rest := SortByPriority(rules[1..]);
      SortByPriorityIsStable(rules[1..], k);
      InsertKeepsPriorityOrder(rules[0], rest, k);
      assert ([rules[0]] + rest)[1..] == rest;
    }
  }

  lemma {:induction false} InsertPermutes<M>(x: Rule<M>, t: seq<Rule<M>>)
    requires IsSortedByPriority(t)
    ensures multiset(Insert(x, t)) == multiset([x] + t)
  {
    if t != [] && PriorityKey(x) > PriorityKey(t[0]) {
      InsertPermutes(x, t[1..]);
      assert t == [t[0]] + t[1..];
    }
  }

  /** Sorting returns a permutation of the loaded rules. */
  lemma {:induction false} SortByPriorityPermutes<M>(rules: seq<Rule<M>>)
    ensures multiset(SortByPriority(rules)) == multiset(rules)
  {
    if rules != [] {
      SortByPriorityPermutes(rules[1..]);
      InsertPermutes(rules[0], SortByPriority(rules[1..]));
      assert rules == [rules[0]] + rules[1..];
    }
  }

  lemma HeadHasOwnPriority<M>(s: seq<Rule<M>>)
    requires s != []
    ensures WithPriority(s, PriorityKey(s[0])) != []
  {
  }

  lemma {:induction false} SortedHeadIsLeast<M>(s: seq<Rule<M>>, k: int)
    requires IsSortedByPriority(s) && WithPriority(s, k) != []
    ensures PriorityKey(s[0]) <= k
  {
    if PriorityKey(s[0]) != k {
      SortedHeadIsLeast(s[1..], k);
    }
  }

  /**
    A sorted list with the same per-priority subsequences as another sorted
    list is that list: the two conditions determine the result.
   */
  lemma {:induction false} StableOrderIsUnique<M>(a: seq<Rule<M>>, b: seq<Rule<M>>)
    requires IsSortedByPriority(a) && IsSortedByPriority(b)
    requires forall k :: WithPriority(a, k) == WithPriority(b, k)
    ensures a == b
    decreases |a|
  {
    if a == [] || b == [] {
      if a != [] {
        HeadHasOwnPriority(a);
      } else if b != [] {
        HeadHasOwnPriority(b);
      }
    } else {
      var ka, kb := PriorityKey(a[0]), PriorityKey(b[0]);
      assert WithPriority(a, ka) == [a[0]] + WithPriority(a[1..], ka);
      assert WithPriority(b, kb) == [b[0]] + WithPriority(b[1..], kb);
      SortedHeadIsLeast(b, ka);
      SortedHeadIsLeast(a, kb);
      assert ka == kb;
      var wa, wb := WithPriority(a, ka), WithPriority(b, ka);
      assert wa == wb;
      assert a[0] == wa[0] == wb[0] == b[0];
      forall k ensures WithPriority(a[1..], k) == WithPriority(b[1..], k) {
        if k == ka {
          assert WithPriority(a[1..], k) == wa[1..] == wb[1..] == WithPriority(b[1..], k);
        } else {
          assert WithPriority(a, k) == WithPriority(a[1..], k);
          assert WithPriority(b, k) == WithPriority(b[1..], k);
        }
      }
      StableOrderIsUnique(a[1..], b[1..]);
      assert a == [a[0]] + a[1..] && b == [b[0]] + b[1..];
    }
  }

  /** Any sorted, per-priority-order-preserving arrangement of the rules is the one sorting returns. */
  lemma SortByPriorityIsTheStableSort<M>(rules: seq<Rule<M>>, r: seq<Rule<M>>)
    requires IsSortedByPriority(r)
    requires forall k :: WithPriority(r, k) == WithPriority(rules, k)
    ensures r == SortByPriority(rules)
  {
    forall k ensures WithPriority(r, k) == WithPriority(SortByPriority(rules), k) {
      SortByPriorityIsStable(rules, k);
    }
    StableOrderIsUnique(r, SortByPriority(rules));
  }

  lemma {:induction false} WithPriorityIsDrawnFrom<M>(s: seq<Rule<M>>, k: int, x: Rule<M>)
    requires x in WithPriority(s, k)
    ensures exists p :: 0 <= p < |s| && s[p] == x
  {
    if s[0] != x {
      WithPriorityIsDrawnFrom(s[1..], k, x);
      var p :| 0 <= p < |s| - 1 && s[1..][p] == x;
      assert s[p + 1] == x;
    }
  }

  /**
    Evaluating the sorted rules: when some loaded rule matches, some rule
    wins, and the winner's priority is no greater than that of any matching
    rule.
   */
  lemma SortedWinnerHasLeastPriority<M>(rules: seq<Rule<M>>, text: string, j: nat)
    requires j < |rules| && RuleMatches(rules[j], text)
    ensures Winner(SortByPriority(rules), text).Some?
    ensures PriorityKey(SortByPriority(rules)[Winner(SortByPriority(rules), text).value]) <= PriorityKey(rules[j])
  {
    var sorted := SortByPriority(rules);
    var k := PriorityKey(rules[j]);
    WithPriorityHasMember(rules, j);
    SortByPriorityIsStable(rules, k);
    WithPriorityIsDrawnFrom(sorted, k, rules[j]);
    var p :| 0 <= p < |sorted| && sorted[p] == rules[j];
    assert RuleMatches(sorted[p], text);
  }

  lemma {:induction false} WithPriorityHasMember<M>(s: seq<Rule<M>>, j: nat)
    requires j < |s|
    ensures s[j] in WithPriority(s, PriorityKey(s[j]))
  {
    if j > 0 {
      WithPriorityHasMember(s[1..], j - 1);
    }
  }

  /** The winner of a list is also the winner among the rules of its own priority. */
  lemma {:induction false} WinnerWithinPriority<M>(s: seq<Rule<M>>, text: string)
    requires Winner(s, text).Some?
    ensures var w, k := Winner(s, text).value, PriorityKey(s[Winner(s, text).value]);
      Winner(WithPriority(s, k), text).Some? &&
      WithPriority(s, k)[Winner(WithPriority(s, k), text).value] == s[w]
  {
    var w := Winner(s, text).value;
    var k := PriorityKey(s[w]);
    if w == 0 {
      assert WithPriority(s, k) == [s[0]] + WithPriority(s[1..], k);
    } else {
      assert Winner(s[1..], text) == Some(w - 1);
      WinnerWithinPriority(s[1..], text);
      var tail := WithPriority(s[1..], k);
      var u := Winner(tail, text).value;
      if PriorityKey(s[0]) == k {
        assert WithPriority(s, k) == [s[0]] + tail;
        assert !RuleMatches(s[0], text);
        FirstMatchWins([s[0]] + tail, text, u + 1);
      } else {
        assert WithPriority(s, k) == tail;
      }
    }
  }

  /**
    Ties: the rule that wins after sorting is, among the loaded rules of its
    priority, the first in load order that matches.
   */
  lemma SortedWinnerIsFirstOfItsPriority<M>(rules: seq<Rule<M>>, text: string)
    requires Winner(SortByPriority(rules), text).Some?
    ensures var sorted := SortByPriority(rules);
      var k := PriorityKey(sorted[Winner(sorted, text).value]);
      Winner(WithPriority(rules, k), text).Some? &&
      WithPriority(rules, k)[Winner(WithPriority(rules, k), text).value] == sorted[Winner(sorted, text).value]
  {
    var sorted := SortByPriority(rules);
    var k := PriorityKey(sorted[Winner(sorted, text).value]);
    WinnerWithinPriority(sorted, text);
    SortByPriorityIsStable(rules, k);
  }
}
