/** What the rules of the ledger do to a transaction, said of the rules that meet it and their order. */
module RuleMeaning {
  import opened Options
  import opened LedgerChain
  import opened LedgerRules

  /** Each condition of a rule that is present holds; a pattern that cannot be read holds of nothing. */
  predicate Meets(t: Transaction, rule: Rule, test: Tester) {
    && (rule.sourcePattern == "" || test(rule.sourcePattern, "", t.source) == Some(true))
    && (rule.destinationPattern == "" || test(rule.destinationPattern, "", t.destination) == Some(true))
    && (rule.min.Some? ==> rule.min.value <= Debited(t.postings))
    && (rule.max.Some? ==> Debited(t.postings) <= rule.max.value)
    && (rule.notationPattern == "" || test(rule.notationPattern, "i", t.notation) == Some(true))
    && (rule.currency == "" || (t.postings != [] && t.postings[0].amount.unit == rule.currency))
  }

  /** The debits among postings, from the first on. */
  function Debited(postings: seq<Posting>): real {
    if postings == [] then 0.0 else (if postings[0].kind == "debit" then postings[0].amount.value else 0.0) + Debited(postings[1..])
  }

  lemma {:induction false} DebitsBothWays(postings: seq<Posting>)
    ensures Debited(postings) == DebitTotal(postings)
  {
    if postings != [] {
      DebitsBothWays(postings[1..]);
      FirstDebit(postings);
    }
  }

  lemma {:induction false} FirstDebit(postings: seq<Posting>)
    requires postings != []
    ensures DebitTotal(postings) == (if postings[0].kind == "debit" then postings[0].amount.value else 0.0) + DebitTotal(postings[1..])
  {
    if |postings| > 1 {
      FirstDebit(postings[..|postings| - 1]);
      assert postings[1..][..|postings| - 2] == postings[..|postings| - 1][1..];
    }
  }

  lemma MatchesIsMeets(t: Transaction, rule: Rule, test: Tester)
    ensures Matches(t, rule, test) == Some(true) <==> Meets(t, rule, test)
  {
    DebitsBothWays(t.postings);
    hide DebitTotal, Debited;
  }

  // ---- Which rules act, and in what order ---------------------------------------------------------------------------------

  /** Of higher priority, or of the same and listed before. */
  predicate ActsBefore(rules: seq<Rule>, i: nat, j: nat) {
    i < |rules| && j < |rules| && (rules[i].priority > rules[j].priority || (rules[i].priority == rules[j].priority && i < j))
  }

  predicate InTurn(rules: seq<Rule>, p: seq<nat>) { forall a, b :: 0 <= a < b < |p| ==> ActsBefore(rules, p[a], p[b]) }

  /** The positions of the active rules that meet the transaction, in the order in which they act. */
  predicate Acting(p: seq<nat>, rules: seq<Rule>, t: Transaction, test: Tester) {
    && Within(p, rules) && InTurn(rules, p)
    && forall i :: 0 <= i < |rules| ==> (i in p <==> rules[i].active && Meets(t, rules[i], test))
  }

  // ---- What they do ---------------------------------------------------------------------------------------------------------

  predicate Within(p: seq<nat>, rules: seq<Rule>) { forall k :: 0 <= k < |p| ==> p[k] < |rules| }

  function AllTags(p: seq<nat>, rules: seq<Rule>): seq<string>
    requires Within(p, rules)
  {
    if p == [] then [] else AllTags(p[..|p| - 1], rules) + rules[p[|p| - 1]].addTags
  }

  function AllNotes(p: seq<nat>, rules: seq<Rule>): string
    requires Within(p, rules)
  {
    if p == [] then ""
    else AllNotes(p[..|p| - 1], rules) + (if rules[p[|p| - 1]].addNote == "" then "" else "\n" + rules[p[|p| - 1]].addNote)
  }

  /** The category that the last of the rules with one sets. */
  predicate IsCategory(category: string, p: seq<nat>, rules: seq<Rule>)
    requires Within(p, rules)
  {
    if category == "" then forall k :: 0 <= k < |p| ==> rules[p[k]].setCategory == ""
    else exists k :: 0 <= k < |p| && rules[p[k]].setCategory == category
                     && forall l :: k < l < |p| ==> rules[p[l]].setCategory == ""
  }

  predicate NeedsApproval(p: seq<nat>, rules: seq<Rule>)
    requires Within(p, rules)
  {
    exists k :: 0 <= k < |p| && rules[p[k]].requireApproval
  }

  /** A new transaction after the rules at these positions have acted on it. */
  predicate ActedOn(t: Transaction, p: seq<nat>, rules: seq<Rule>)
    requires Within(p, rules)
  {
    && |t.appliedRules| == |p| && (forall k :: 0 <= k < |p| ==> t.appliedRules[k] == rules[p[k]].id)
    && t.tags == AllTags(p, rules) && t.notes == AllNotes(p, rules) && IsCategory(t.category, p, rules)
    && t.requiresApproval == NeedsApproval(p, rules)
  }

  /** The transaction is what the active rules that meet it make of it, acting in falling priority. */
  ghost predicate RulesSay(t: Transaction, rules: seq<Rule>, test: Tester) {
    exists p :: Acting(p, rules, t, test) && ActedOn(t, p, rules)
  }

  predicate IsNew(t: Transaction) { t.tags == [] && t.category == "" && t.notes == "" && !t.requiresApproval && t.appliedRules == [] }

  // ---- The order ------------------------------------------------------------------------------------------------------------

  lemma {:induction false} InsertedAt(rules: seq<Rule>, rule: Rule) returns (k: nat)
    ensures k <= |rules| && Insert(rules, rule) == rules[..k] + [rule] + rules[k..]
    ensures (forall i :: 0 <= i < k ==> rules[i].priority >= rule.priority) && (k < |rules| ==> rules[k].priority < rule.priority)
  {
    if rules == [] || rules[0].priority < rule.priority {
      k := 0;
      assert rules[..0] == [] && rules[0..] == rules;
    } else {
      var j := InsertedAt(rules[1..], rule);
      k := j + 1;
      assert rules[..k] == [rules[0]] + rules[1..][..j] && rules[k..] == rules[1..][j..];
    }
  }

  predicate Places(p: seq<nat>, sorted: seq<Rule>, rules: seq<Rule>) {
    |p| == |sorted| && forall k :: 0 <= k < |p| ==> p[k] < |rules| && sorted[k] == rules[p[k]]
  }

  predicate AllActive(p: seq<nat>, rules: seq<Rule>) { forall i :: 0 <= i < |rules| ==> (i in p <==> rules[i].active) }

  lemma {:induction false} OrderOf(rules: seq<Rule>) returns (p: seq<nat>)
    ensures Places(p, ByPriority(Actives(rules)), rules) && InTurn(rules, p) && AllActive(p, rules)
  {
    hide *;
    if rules == [] {
      p := [];
      NoOrder();
    } else {
      var n := |rules| - 1;
      p := OrderOf(rules[..n]);
      OneMoreRule(rules);
      if rules[n].active {
        var sorted := ByPriority(Actives(rules[..n]));
        var k := InsertedAt(sorted, rules[n]);
        SameSize(p, sorted, rules[..n]);
        PutIn(rules, sorted, p, k);
        p := p[..k] + [n] + p[k..];
      } else {
        Kept(rules, ByPriority(Actives(rules)), p);
      }
    }
  }

  lemma NoOrder()
    ensures Places([], ByPriority(Actives([])), []) && InTurn([], []) && AllActive([], [])
  {}

  lemma SameSize(p: seq<nat>, sorted: seq<Rule>, rules: seq<Rule>)
    requires Places(p, sorted, rules)
    ensures |p| == |sorted|
  {}

  lemma OneMoreRule(rules: seq<Rule>)
    requires rules != []
    ensures var n := |rules| - 1; var before := Actives(rules[..n]);
            ByPriority(Actives(rules)) == if rules[n].active then Insert(ByPriority(before), rules[n]) else ByPriority(before)
  {
    var n := |rules| - 1;
    var before := Actives(rules[..n]);
    hide Insert;
    if rules[n].active {
      assert (before + [rules[n]])[..|before|] == before;
    } else {
      assert before + [] == before;
    }
  }

  lemma Kept(rules: seq<Rule>, sorted: seq<Rule>, p: seq<nat>)
    requires rules != [] && !rules[|rules| - 1].active
    requires Places(p, sorted, rules[..|rules| - 1]) && InTurn(rules[..|rules| - 1], p) && AllActive(p, rules[..|rules| - 1])
    ensures Places(p, sorted, rules) && InTurn(rules, p) && AllActive(p, rules)
  {
    var n := |rules| - 1;
    assert forall i :: 0 <= i < n ==> rules[..n][i] == rules[i];
    forall a, b | 0 <= a < b < |p| ensures ActsBefore(rules, p[a], p[b]) { assert ActsBefore(rules[..n], p[a], p[b]); }
  }

  lemma PutIn(rules: seq<Rule>, sorted: seq<Rule>, p: seq<nat>, k: nat)
    requires rules != [] && rules[|rules| - 1].active && k <= |sorted|
    requires Places(p, sorted, rules[..|rules| - 1]) && InTurn(rules[..|rules| - 1], p) && AllActive(p, rules[..|rules| - 1])
    requires forall i :: 0 <= i < k ==> sorted[i].priority >= rules[|rules| - 1].priority
    requires k < |sorted| ==> sorted[k].priority < rules[|rules| - 1].priority
    ensures |p| == |sorted|
    ensures var n := |rules| - 1; var q := p[..k] + [n] + p[k..];
            Places(q, sorted[..k] + [rules[n]] + sorted[k..], rules) && InTurn(rules, q) && AllActive(q, rules)
  {
    var n := |rules| - 1;
    StillPlaces(rules, sorted, p);
    hide *;
    SameSize(p, sorted, rules);
    forall i | 0 <= i < k ensures rules[p[i]].priority >= rules[n].priority && p[i] < n { PlaceAt(p, sorted, rules[..n], i); }
    if k < |p| { PlaceAt(p, sorted, rules[..n], k); }
    PlacesPutIn(rules, sorted, p, k);
    TurnPutIn(rules, p, k);
    ActivePutIn(rules, p, k);
  }

  lemma StillPlaces(rules: seq<Rule>, sorted: seq<Rule>, p: seq<nat>)
    requires rules != [] && Places(p, sorted, rules[..|rules| - 1])
    ensures Places(p, sorted, rules) && Within(p, rules) && forall k :: 0 <= k < |p| ==> p[k] < |rules| - 1
  {}

  lemma PlacesPutIn(rules: seq<Rule>, sorted: seq<Rule>, p: seq<nat>, k: nat)
    requires rules != [] && Places(p, sorted, rules) && |p| == |sorted| && k <= |p|
    ensures var n := |rules| - 1; Places(p[..k] + [n] + p[k..], sorted[..k] + [rules[n]] + sorted[k..], rules)
  {
    var n := |rules| - 1;
    var q, longer := p[..k] + [n] + p[k..], sorted[..k] + [rules[n]] + sorted[k..];
    forall j | 0 <= j < |q| ensures q[j] < |rules| && longer[j] == rules[q[j]] {
      if j < k { assert q[j] == p[j] && longer[j] == sorted[j]; }
      if j > k { assert q[j] == p[j - 1] && longer[j] == sorted[j - 1]; }
    }
  }

  lemma TurnPutIn(rules: seq<Rule>, p: seq<nat>, k: nat)
    requires rules != [] && InTurn(rules[..|rules| - 1], p) && k <= |p| && Within(p, rules)
    requires forall i :: 0 <= i < |p| ==> p[i] < |rules| - 1
    requires forall i :: 0 <= i < k ==> rules[p[i]].priority >= rules[|rules| - 1].priority
    requires k < |p| ==> rules[p[k]].priority < rules[|rules| - 1].priority
    ensures InTurn(rules, p[..k] + [|rules| - 1] + p[k..])
  {
    var n := |rules| - 1;
    var q := p[..k] + [n] + p[k..];
    forall a, b | 0 <= a < b < |q| ensures ActsBefore(rules, q[a], q[b]) {
      if a != k && b != k {
        assert ActsBefore(rules[..n], p[if a < k then a else a - 1], p[if b < k then b else b - 1]);
      } else if b > k + 1 {
        assert ActsBefore(rules[..n], p[k], p[b - 1]);
      }
    }
  }

  lemma ActivePutIn(rules: seq<Rule>, p: seq<nat>, k: nat)
    requires rules != [] && AllActive(p, rules[..|rules| - 1]) && rules[|rules| - 1].active && k <= |p|
    ensures AllActive(p[..k] + [|rules| - 1] + p[k..], rules)
  {
    var n := |rules| - 1;
    var q := p[..k] + [n] + p[k..];
    assert p == p[..k] + p[k..] && q[k] == n;
    forall i | 0 <= i < n ensures i in q <==> rules[i].active { assert i in p <==> rules[..n][i].active; }
  }

  // ---- One rule after the other -------------------------------------------------------------------------------------------

  lemma NothingDone(t: Transaction, rules: seq<Rule>)
    requires IsNew(t)
    ensures ActedOn(t, [], rules)
  {}

  lemma OneMoreActs(t: Transaction, q: seq<nat>, rules: seq<Rule>, i: nat)
    requires Within(q, rules) && i < |rules| && ActedOn(t, q, rules)
    ensures ActedOn(Applied(t, rules[i]), q + [i], rules)
  {
    CategoryMore(t.category, q, rules, i);
    ApprovalMore(q, rules, i);
    TagsMore(q, rules, i);
    hide IsCategory, NeedsApproval, AllTags, AllNotes, Within;
  }

  lemma TagsMore(q: seq<nat>, rules: seq<Rule>, i: nat)
    requires Within(q, rules) && i < |rules|
    ensures Within(q + [i], rules) && AllTags(q + [i], rules) == AllTags(q, rules) + rules[i].addTags
    ensures AllNotes(q + [i], rules) == AllNotes(q, rules) + (if rules[i].addNote == "" then "" else "\n" + rules[i].addNote)
  {
    assert (q + [i])[..|q|] == q;
  }

  lemma ApprovalMore(q: seq<nat>, rules: seq<Rule>, i: nat)
    requires Within(q, rules) && i < |rules|
    ensures Within(q + [i], rules) && (NeedsApproval(q + [i], rules) <==> NeedsApproval(q, rules) || rules[i].requireApproval)
  {
    var longer := q + [i];
    if k :| 0 <= k < |q| && rules[q[k]].requireApproval { assert rules[longer[k]].requireApproval; }
    if rules[i].requireApproval { assert rules[longer[|q|]].requireApproval; }
  }

  lemma CategoryMore(category: string, q: seq<nat>, rules: seq<Rule>, i: nat)
    requires Within(q, rules) && i < |rules| && IsCategory(category, q, rules)
    ensures IsCategory(if rules[i].setCategory != "" then rules[i].setCategory else category, q + [i], rules)
  {
    var longer := q + [i];
    if rules[i].setCategory != "" {
      assert rules[longer[|q|]].setCategory == rules[i].setCategory;
    } else if category != "" {
      var k :| 0 <= k < |q| && rules[q[k]].setCategory == category && forall l :: k < l < |q| ==> rules[q[l]].setCategory == "";
      assert rules[longer[k]].setCategory == category;
    }
  }

  lemma CategoryIsOne(c: string, d: string, q: seq<nat>, rules: seq<Rule>)
    requires Within(q, rules) && IsCategory(c, q, rules) && IsCategory(d, q, rules)
    ensures c == d
  {
    if c != "" && d != "" {
      var k :| 0 <= k < |q| && rules[q[k]].setCategory == c && forall l :: k < l < |q| ==> rules[q[l]].setCategory == "";
      var l :| 0 <= l < |q| && rules[q[l]].setCategory == d && forall m :: l < m < |q| ==> rules[q[m]].setCategory == "";
    }
  }

  /** The positions among the first m places whose rules meet the transaction. */
  predicate Chosen(q: seq<nat>, p: seq<nat>, m: nat, rules: seq<Rule>, t: Transaction, test: Tester)
    requires m <= |p|
  {
    && Within(q, rules) && InTurn(rules, q)
    && forall i :: 0 <= i < |rules| ==> (i in q <==> i in p[..m] && Meets(t, rules[i], test))
  }

  lemma NoneChosen(p: seq<nat>, rules: seq<Rule>, t: Transaction, test: Tester)
    ensures Chosen([], p, 0, rules, t, test) && Within([], rules)
  {}

  lemma OneMoreChosen(q: seq<nat>, p: seq<nat>, m: nat, rules: seq<Rule>, t: Transaction, test: Tester)
    requires m < |p| && p[m] < |rules| && InTurn(rules, p) && Chosen(q, p, m, rules, t, test)
    ensures var r := if Meets(t, rules[p[m]], test) then q + [p[m]] else q; Chosen(r, p, m + 1, rules, t, test) && Within(r, rules)
  {
    hide Meets;
    assert p[..m + 1] == p[..m] + [p[m]];
    assert forall j :: 0 <= j < m ==> ActsBefore(rules, p[j], p[m]);
    if Meets(t, rules[p[m]], test) {
      var longer := q + [p[m]];
      forall a, b | 0 <= a < b < |longer| ensures ActsBefore(rules, longer[a], longer[b]) {
        if b < |q| {
          assert ActsBefore(rules, q[a], q[b]);
        } else {
          assert q[a] in q;
          var j :| 0 <= j < m && p[j] == q[a];
        }
      }
    }
  }

  lemma {:induction false} Turns(t: Transaction, sorted: seq<Rule>, p: seq<nat>, rules: seq<Rule>, test: Tester, m: nat)
    returns (q: seq<nat>)
    requires IsNew(t) && Places(p, sorted, rules) && InTurn(rules, p) && m <= |p|
    ensures m <= |sorted| && Chosen(q, p, m, rules, t, test) && Within(q, rules)
    ensures ActedOn(Processed(t, sorted[..m], test), q, rules) && SameEntry(t, Processed(t, sorted[..m], test))
  {
    hide *;
    SameSize(p, sorted, rules);
    if m == 0 {
      q := [];
      NoneChosen(p, rules, t, test);
      NothingDone(t, rules);
      NothingProcessed(t, sorted, test);
    } else {
      var r := Turns(t, sorted, p, rules, test, m - 1);
      PlaceAt(p, sorted, rules, m - 1);
      var before := Processed(t, sorted[..m - 1], test);
      var rule := rules[p[m - 1]];
      OneMoreChosen(r, p, m - 1, rules, t, test);
      MatchesIsMeets(t, rule, test);
      SameMatch(t, before, rule, test);
      OneMoreProcessed(t, sorted, m, test);
      OneMoreActs(before, r, rules, p[m - 1]);
      AppliedKeeps(t, before, rule);
      q := if Meets(t, rule, test) then r + [p[m - 1]] else r;
    }
  }

  lemma PlaceAt(p: seq<nat>, sorted: seq<Rule>, rules: seq<Rule>, k: nat)
    requires Places(p, sorted, rules) && k < |p|
    ensures |p| == |sorted| && p[k] < |rules| && sorted[k] == rules[p[k]]
  {}

  lemma NothingProcessed(t: Transaction, sorted: seq<Rule>, test: Tester)
    ensures Processed(t, sorted[..0], test) == t && SameEntry(t, t)
  {}

  lemma OneMoreProcessed(t: Transaction, sorted: seq<Rule>, m: nat, test: Tester)
    requires 0 < m <= |sorted|
    ensures var before := Processed(t, sorted[..m - 1], test);
            Processed(t, sorted[..m], test)
            == if Matches(before, sorted[m - 1], test) == Some(true) then Applied(before, sorted[m - 1]) else before
  {
    assert sorted[..m][..m - 1] == sorted[..m - 1];
  }

  lemma AppliedKeeps(t: Transaction, before: Transaction, rule: Rule)
    requires SameEntry(t, before)
    ensures SameEntry(t, Applied(before, rule))
  {}

  /** A new transaction, processed with any rules, is what the rules say. */
  lemma ProcessedIsSaid(t: Transaction, rules: seq<Rule>, test: Tester)
    requires IsNew(t)
    ensures RulesSay(Processed(t, ByPriority(Actives(rules)), test), rules, test)
  {
    hide *;
    var sorted := ByPriority(Actives(rules));
    var p := OrderOf(rules);
    SameSize(p, sorted, rules);
    var q := Turns(t, sorted, p, rules, test, |p|);
    assert sorted[..|p|] == sorted;
    ChosenAct(q, p, rules, t, Processed(t, sorted, test), test);
  }

  lemma ChosenAct(q: seq<nat>, p: seq<nat>, rules: seq<Rule>, t: Transaction, u: Transaction, test: Tester)
    requires AllActive(p, rules) && Chosen(q, p, |p|, rules, t, test) && Within(q, rules) && SameEntry(t, u) && ActedOn(u, q, rules)
    ensures RulesSay(u, rules, test)
  {
    forall i | 0 <= i < |rules| ensures i in q <==> rules[i].active && Meets(u, rules[i], test) {
      assert p[..|p|] == p;
      assert Meets(t, rules[i], test) == Meets(u, rules[i], test);
    }
    hide Meets, ActedOn;
    assert Acting(q, rules, u, test);
  }

  // ---- One meaning ----------------------------------------------------------------------------------------------------------

  lemma {:induction false} OneTurn(rules: seq<Rule>, p: seq<nat>, q: seq<nat>)
    requires InTurn(rules, p) && InTurn(rules, q) && forall i :: i in p <==> i in q
    ensures p == q
    decreases |p|
  {
    SameEmptiness(p, q);
    if p != [] {
      LastActsLast(rules, p, q[|q| - 1]);
      LastActsLast(rules, q, p[|p| - 1]);
      WithoutLast(rules, p);
      WithoutLast(rules, q);
      var before, before' := p[..|p| - 1], q[..|q| - 1];
      forall i ensures i in before <==> i in before' { assert i in p <==> i in q; }
      OneTurn(rules, before, before');
    }
  }

  lemma SameEmptiness(p: seq<nat>, q: seq<nat>)
    requires forall i :: i in p <==> i in q
    ensures p == [] <==> q == []
    ensures p != [] ==> q[|q| - 1] in p && p[|p| - 1] in q
  {
    if p != [] { assert p[0] in p && p[|p| - 1] in p; }
    if q != [] { assert q[0] in q && q[|q| - 1] in q; }
  }

  lemma LastActsLast(rules: seq<Rule>, p: seq<nat>, i: nat)
    requires InTurn(rules, p) && i in p
    ensures i == p[|p| - 1] || ActsBefore(rules, i, p[|p| - 1])
  {
    var k :| 0 <= k < |p| && p[k] == i;
  }

  lemma WithoutLast(rules: seq<Rule>, p: seq<nat>)
    requires InTurn(rules, p) && p != []
    ensures InTurn(rules, p[..|p| - 1]) && forall i :: i in p[..|p| - 1] <==> i in p && i != p[|p| - 1]
  {
    var n := |p| - 1;
    forall a, b | 0 <= a < b < n ensures ActsBefore(rules, p[..n][a], p[..n][b]) { assert ActsBefore(rules, p[a], p[b]); }
    forall i | i in p[..n] ensures i != p[n] {
      var k :| 0 <= k < n && p[k] == i;
      assert ActsBefore(rules, p[k], p[n]);
    }
    assert p == p[..n] + [p[n]];
  }

  /** The rules that act on a transaction, and their order, are determined. */
  lemma ActingIsOne(p: seq<nat>, q: seq<nat>, rules: seq<Rule>, t: Transaction, test: Tester)
    requires Acting(p, rules, t, test) && Acting(q, rules, t, test)
    ensures p == q
  {
    hide Meets;
    forall i ensures i in p <==> i in q {
      if i in p { var k :| 0 <= k < |p| && p[k] == i; }
      if i in q { var k :| 0 <= k < |q| && q[k] == i; }
    }
    OneTurn(rules, p, q);
  }
}
