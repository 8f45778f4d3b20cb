/** Rules: which transactions they match, what they add, and what they leave alone. */
module LedgerRules {
  import opened Options
  import opened LedgerIds
  import opened LedgerChain

  /** Conditions and actions that are absent are None, "" or []. */
  datatype Rule = Rule(
    id: string, active: bool, priority: int,
    sourcePattern: string, destinationPattern: string, min: Option<real>, max: Option<real>, notationPattern: string, currency: string,
    addTags: seq<string>, setCategory: string, addNote: string, requireApproval: bool)

  /** RegExp(pattern, flags).test(text); None where the pattern is malformed and the constructor throws. */
  type Tester = (string, string, string) -> Option<bool>

  function DebitTotal(postings: seq<Posting>): real {
    if postings == [] then 0.0
    else
      var p := postings[|postings| - 1];
      DebitTotal(postings[..|postings| - 1]) + (if p.kind == "debit" then p.amount.value else 0.0)
  }

  /** Some(true) for a match, None where a test throws before the answer is known. */
  function Matches(t: Transaction, rule: Rule, test: Tester): Option<bool> {
    var source := if rule.sourcePattern == "" then Some(true) else test(rule.sourcePattern, "", t.source);
    if source != Some(true) then source
    else
      var destination := if rule.destinationPattern == "" then Some(true) else test(rule.destinationPattern, "", t.destination);
      if destination != Some(true) then destination
      else if rule.min.Some? && DebitTotal(t.postings) < rule.min.value then Some(false)
      else if rule.max.Some? && DebitTotal(t.postings) > rule.max.value then Some(false)
      else
        var notation := if rule.notationPattern == "" then Some(true) else test(rule.notationPattern, "i", t.notation);
        if notation != Some(true) then notation
        else if rule.currency != "" && (t.postings == [] || t.postings[0].amount.unit != rule.currency) then Some(false)
        else Some(true)
  }

  function Applied(t: Transaction, rule: Rule): Transaction {
    t.(tags := t.tags + rule.addTags,
       category := if rule.setCategory != "" then rule.setCategory else t.category,
       notes := if rule.addNote != "" then t.notes + "\n" + rule.addNote else t.notes,
       requiresApproval := t.requiresApproval || rule.requireApproval,
       appliedRules := t.appliedRules + [rule.id])
  }

  // ---- Order of the rules -------------------------------------------------------------------------------------------------

  function Actives(rules: seq<Rule>): seq<Rule> {
    if rules == [] then []
    else Actives(rules[..|rules| - 1]) + (if rules[|rules| - 1].active then [rules[|rules| - 1]] else [])
  }

  /** Into a list of falling priorities, after the rules of the same priority. */
  function Insert(rules: seq<Rule>, rule: Rule): seq<Rule> {
    if rules == [] then [rule]
    else if rules[0].priority < rule.priority then [rule] + rules
    else [rules[0]] + Insert(rules[1..], rule)
  }

  /** sort((a, b) => b.priority - a.priority), which is stable. */
  function ByPriority(rules: seq<Rule>): seq<Rule> {
    if rules == [] then [] else Insert(ByPriority(rules[..|rules| - 1]), rules[|rules| - 1])
  }

  predicate Falling(rules: seq<Rule>) { forall i, j :: 0 <= i < j < |rules| ==> rules[i].priority >= rules[j].priority }

  lemma {:induction false} InsertFalling(rules: seq<Rule>, rule: Rule)
    requires Falling(rules)
    ensures Falling(Insert(rules, rule)) && multiset(Insert(rules, rule)) == multiset(rules) + multiset{rule}
    ensures forall r :: r in Insert(rules, rule) ==> r == rule || r in rules
  {
    if rules != [] {
      var head, tail := rules[0], rules[1..];
      assert rules == [head] + tail;
      if head.priority < rule.priority {
        forall r | r in rules ensures rule.priority >= r.priority {
          var k :| 0 <= k < |rules| && rules[k] == r;
        }
        ConsFalling(rule, rules);
      } else {
        TailFalls(rules);
        hide Falling;
        InsertFalling(tail, rule);
        ConsFalling(head, Insert(tail, rule));
      }
    }
  }

  lemma TailFalls(rules: seq<Rule>)
    requires Falling(rules) && rules != []
    ensures Falling(rules[1..]) && forall r :: r in rules[1..] ==> rules[0].priority >= r.priority
  {}

  lemma ConsFalling(rule: Rule, rules: seq<Rule>)
    requires Falling(rules) && forall r :: r in rules ==> rule.priority >= r.priority
    ensures Falling([rule] + rules)
  {
    var all := [rule] + rules;
    forall i, j | 0 <= i < j < |all| ensures all[i].priority >= all[j].priority {
      assert all[j] == rules[j - 1];
      if i > 0 { assert all[i] == rules[i - 1]; }
    }
  }

  lemma {:induction false} SortedByPriority(rules: seq<Rule>)
    ensures Falling(ByPriority(rules)) && multiset(ByPriority(rules)) == multiset(rules)
  {
    if rules != [] {
      SortedByPriority(rules[..|rules| - 1]);
      InsertFalling(ByPriority(rules[..|rules| - 1]), rules[|rules| - 1]);
      assert rules == rules[..|rules| - 1] + [rules[|rules| - 1]];
    }
  }

  // ---- Processing -----------------------------------------------------------------------------------------------------------

  /** The rules one after the other, each seeing what the ones before it added. */
  function Processed(t: Transaction, rules: seq<Rule>, test: Tester): Transaction {
    if rules == [] then t
    else
      var before := Processed(t, rules[..|rules| - 1], test);
      var rule := rules[|rules| - 1];
      if Matches(before, rule, test) == Some(true) then Applied(before, rule) else before
  }

  /** What a rule may not touch. */
  predicate SameEntry(a: Transaction, b: Transaction) {
    && a.id == b.id && a.notation == b.notation && a.source == b.source && a.destination == b.destination
    && a.ruleId == b.ruleId && a.postings == b.postings && a.timestamp == b.timestamp
  }

  /** The ids of the rules that match the transaction. */
  function MatchingIds(t: Transaction, rules: seq<Rule>, test: Tester): seq<string> {
    if rules == [] then []
    else
      MatchingIds(t, rules[..|rules| - 1], test)
      + (if Matches(t, rules[|rules| - 1], test) == Some(true) then [rules[|rules| - 1].id] else [])
  }

  /**
   * Rules change neither postings, accounts, id, notation nor time, so whether a rule matches does not depend on the rules
   * before it, and the applied rules are those that match the transaction as it came.
   */
  lemma {:induction false} ProcessingKeepsEntry(t: Transaction, rules: seq<Rule>, test: Tester)
    ensures SameEntry(t, Processed(t, rules, test))
    ensures Processed(t, rules, test).appliedRules == t.appliedRules + MatchingIds(t, rules, test)
  {
    hide DebitTotal;
    if rules != [] {
      var init := rules[..|rules| - 1];
      ProcessingKeepsEntry(t, init, test);
      SameMatch(t, Processed(t, init, test), rules[|rules| - 1], test);
      hide Matches;
    }
  }

  lemma SameMatch(a: Transaction, b: Transaction, rule: Rule, test: Tester)
    requires SameEntry(a, b)
    ensures Matches(a, rule, test) == Matches(b, rule, test)
  {}

  method ProcessTransactionWithRules(transaction: Transaction, rules: seq<Rule>, test: Tester) returns (t: Transaction)
    ensures t == Processed(transaction.(appliedRules := []), ByPriority(Actives(rules)), test)
    ensures SameEntry(transaction, t)
  {
    var actives := ByPriority(Actives(rules));
    ghost var start := transaction.(appliedRules := []);
    t := transaction.(appliedRules := []);
    var i := 0;
    assert actives[..0] == [];
    while i < |actives|
      invariant 0 <= i <= |actives| && t == Processed(start, actives[..i], test)
    {
      assert actives[..i + 1][..i] == actives[..i];
      if Matches(t, actives[i], test) == Some(true) {
        t := Applied(t, actives[i]);
      }
      i := i + 1;
    }
    assert actives[..i] == actives;
    ProcessingKeepsEntry(start, actives, test);
  }
}
