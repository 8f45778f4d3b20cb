/** The ledger as the api uses it: counter, chain and store, over whole runs of requests. */
module Ledger {
  import opened Bytes
  import opened Options
  import opened LedgerIds
  import opened LedgerChain
  import opened LedgerRules
  import opened LedgerBalance
  import opened Decimals
  import opened RuleMeaning

  // ---- Ids in a chain -----------------------------------------------------------------------------------------------------

  function TxIds(txs: seq<Transaction>): seq<string> {
    if txs == [] then [] else TxIds(txs[..|txs| - 1]) + [txs[|txs| - 1].id]
  }

  function Ids(chain: Chain): seq<string> {
    if chain == [] then [] else Ids(chain[..|chain| - 1]) + TxIds(chain[|chain| - 1].transactions)
  }

  /** The greatest number among ids, or 0. */
  function MaxNumber(ids: seq<string>): nat {
    if ids == [] then 0
    else
      var m, n := MaxNumber(ids[..|ids| - 1]), Number(ids[|ids| - 1]);
      if n.Some? && n.value > m then n.value else m
  }

  lemma {:induction false} MaxIsGreatest(ids: seq<string>, i: nat)
    requires i < |ids| && Number(ids[i]).Some?
    ensures Number(ids[i]).value <= MaxNumber(ids)
    decreases |ids|
  {
    if i < |ids| - 1 { MaxIsGreatest(ids[..|ids| - 1], i); }
  }

  lemma MaxSnoc(ids: seq<string>, id: string)
    ensures MaxNumber(ids + [id])
            == if Number(id).Some? && Number(id).value > MaxNumber(ids) then Number(id).value else MaxNumber(ids)
  {
    assert (ids + [id])[..|ids|] == ids;
  }

  /** Every id has a number, and each is greater than those before it. */
  predicate Rising(ids: seq<string>) {
    && (forall i :: 0 <= i < |ids| ==> Number(ids[i]).Some?)
    && (forall i, j :: 0 <= i < j < |ids| ==> Number(ids[i]).value < Number(ids[j]).value)
  }

  lemma RisingHasNoDuplicates(ids: seq<string>, i: nat, j: nat)
    requires Rising(ids) && i < j < |ids|
    ensures ids[i] != ids[j]
  {}

  lemma RisingGrows(ids: seq<string>, n: nat)
    requires Rising(ids) && n > MaxNumber(ids)
    ensures Rising(ids + [Id(n)])
  {
    NumberOfId(n);
    hide Number, Id, MaxNumber;
    forall i | 0 <= i < |ids| ensures Number(ids[i]).value < n { MaxIsGreatest(ids, i); }
  }

  // ---- What a stored chain keeps ----------------------------------------------------------------------------------------------

  /** A chain as runs of the api leave it. */
  predicate GoodChain(codec: Codec, chain: Chain) {
    codec.ValidChain(chain) && codec.PlainChain(chain) && Rising(Ids(chain)) && AllTransfers(chain)
  }

  /** There is no stored chain yet, or a good one. */
  predicate GoodStore(codec: Codec, store: Store) {
    Loaded(codec, store).Some? ==> GoodChain(codec, Loaded(codec, store).value)
  }

  lemma GenesisIsGood(codec: Codec, now: string)
    ensures GoodChain(codec, [codec.NewBlock(0, "0", [], now)])
  {
    var chain := [codec.NewBlock(0, "0", [], now)];
    assert chain[..0] == [];
    assert Ids(chain) == TxIds([]) == [];
  }

  /** A chain with one more block, of one transaction. */
  function Grown(codec: Codec, chain: Chain, tx: Transaction, now: string): Chain
    requires chain != []
  {
    var last := chain[|chain| - 1];
    chain + [codec.NewBlock(last.index + 1, last.hash, [tx], now)]
  }

  lemma IdsGrow(codec: Codec, chain: Chain, tx: Transaction, now: string)
    requires chain != []
    ensures Ids(Grown(codec, chain, tx, now)) == Ids(chain) + [tx.id]
    ensures TxIds([tx]) == [tx.id]
  {
    hide Number;
    var longer := Grown(codec, chain, tx, now);
    assert longer[..|chain|] == chain && [tx][..0] == [];
    assert TxIds([tx]) == TxIds([]) + [tx.id] == [tx.id];
  }

  lemma PlainGrows(codec: Codec, chain: Chain, tx: Transaction, now: string)
    requires chain != [] && codec.PlainChain(chain) && AllTransfers(chain)
    requires IsTransfer(tx.postings) && codec.PlainPostings(tx.postings)
    ensures codec.PlainChain(Grown(codec, chain, tx, now)) && AllTransfers(Grown(codec, chain, tx, now))
  {
    hide IsTransfer, Codec.PlainPostings;
    var longer := Grown(codec, chain, tx, now);
    forall i | 0 <= i < |longer| ensures codec.Plain(longer[i].transactions) {
      if i < |chain| { assert longer[i] == chain[i]; } else { assert longer[i].transactions == [tx]; }
    }
    forall i, j | 0 <= i < |longer| && 0 <= j < |longer[i].transactions| ensures IsTransfer(longer[i].transactions[j].postings) {
      if i < |chain| { assert longer[i] == chain[i]; } else { assert longer[i].transactions == [tx]; }
    }
  }

  lemma ChainGrows(codec: Codec, chain: Chain, tx: Transaction, now: string, n: nat)
    requires GoodChain(codec, chain) && IsTransfer(tx.postings) && codec.PlainPostings(tx.postings)
    requires n > MaxNumber(Ids(chain)) && tx.id == Id(n)
    ensures chain != [] && GoodChain(codec, Grown(codec, chain, tx, now))
    ensures TxIds(Grown(codec, chain, tx, now)[|chain|].transactions) == [tx.id]
  {
    ValidIsNotEmpty(codec, chain);
    hide Codec.ValidChain, Codec.PlainChain, AllTransfers, Rising, Codec.PlainPostings, IsTransfer, Ids, TxIds, MaxNumber, Number, Id;
    codec.NewBlockFollows(chain, [tx], now);
    RisingGrows(Ids(chain), n);
    IdsGrow(codec, chain, tx, now);
    PlainGrows(codec, chain, tx, now);
  }

  lemma ValidIsNotEmpty(codec: Codec, chain: Chain)
    requires codec.ValidChain(chain)
    ensures chain != []
  {}

  // ---- The three rules of a fresh ledger ----------------------------------------------------------------------------------------

  const RULE := Rule("", true, 0, "", "", None, None, "", "", [], "", "", false)

  const DEFAULT_RULES := [
    RULE.(id := "RULE_001", priority := 100, min := Some(10000.0), requireApproval := true,
          addNote := "Large transaction requires manual approval"),
    RULE.(id := "RULE_002", priority := 50, notationPattern := "office|supplies|stationery", destinationPattern := "^Expenses:",
          setCategory := "Office Supplies", addTags := ["office", "supplies", "deductible"]),
    RULE.(id := "RULE_003", priority := 90, currency := "USD", addTags := ["validated-currency"])]

  /** One call of the api: a transfer, or a restart of the process, after which the counter holds anything. */
  datatype Request =
    | Transfer(notation: string, source: string, destination: string, amount: Option<real>, currency: string, now: string)
    | Restart(counter: int)

  // ---- What a request asks for ------------------------------------------------------------------------------------------------

  function UnitOf(currency: string): string { if currency == "" then "USD" else currency }

  /** What createAmount, createPosting and createTransaction ask of a transfer. */
  predicate TransferFits(r: Request) {
    r.Transfer? && r.amount.Some? && !IsBlank(r.notation) && !IsBlank(r.source) && !IsBlank(r.destination) && !IsBlank(UnitOf(r.currency))
  }

  function PostingsOf(r: Request): seq<Posting>
    requires r.Transfer? && r.amount.Some?
  {
    var amount := Amount(r.amount.value, UnitOf(r.currency));
    [Posting(r.source, amount, "credit"), Posting(r.destination, amount, "debit")]
  }

  /** The transaction of a transfer, after the rules. */
  function TransactionOf(r: Request, id: string, rules: seq<Rule>, test: Tester): Transaction
    requires r.Transfer? && r.amount.Some?
  {
    Processed(Transaction(id, r.notation, r.source, r.destination, None, PostingsOf(r), r.now, [], "", "", false, []),
              ByPriority(Actives(rules)), test)
  }

  function NextId(chain: Chain): string { Id(MaxNumber(Ids(chain)) + 1) }

  /** The stored chain that a transfer starts from. */
  function StartOf(codec: Codec, stored: Option<Chain>, now: string): Chain {
    if stored.Some? then stored.value else [codec.NewBlock(0, "0", [], now)]
  }

  function InForce(rules: seq<Rule>): seq<Rule> { if rules == [] then DEFAULT_RULES else rules }

  /** The stored chain after a request. */
  function After(codec: Codec, test: Tester, rules: seq<Rule>, stored: Option<Chain>, r: Request): (after: Option<Chain>)
    requires stored.Some? ==> stored.value != []
    ensures after.Some? ==> after.value != []
  {
    if r.Restart? then stored
    else
      var start := StartOf(codec, stored, r.now);
      Some(if TransferFits(r) then Grown(codec, start, TransactionOf(r, NextId(start), rules, test), r.now) else start)
  }

  /** The stored chain after a run of requests. */
  function Served(codec: Codec, test: Tester, rules: seq<Rule>, stored: Option<Chain>, requests: seq<Request>): (after: Option<Chain>)
    requires stored.Some? ==> stored.value != []
    ensures after.Some? ==> after.value != []
  {
    if requests == [] then stored
    else
      var n := |requests| - 1;
      After(codec, test, rules, Served(codec, test, rules, stored, requests[..n]), requests[n])
  }

  /** How many transfers of a run are accepted. */
  function Accepted(requests: seq<Request>): nat {
    if requests == [] then 0
    else Accepted(requests[..|requests| - 1]) + (if TransferFits(requests[|requests| - 1]) then 1 else 0)
  }

  /** The ids numbered m + 1 to m + n. */
  function IdsFrom(m: nat, n: nat): seq<string> {
    if n == 0 then [] else IdsFrom(m, n - 1) + [Id(m + n)]
  }

  function IdsIn(stored: Option<Chain>): seq<string> { if stored.Some? then Ids(stored.value) else [] }

  lemma {:induction false} MaxOfIdsFrom(ids: seq<string>, n: nat)
    ensures MaxNumber(ids + IdsFrom(MaxNumber(ids), n)) == MaxNumber(ids) + n
  {
    hide Number, Id;
    var m := MaxNumber(ids);
    if n == 0 {
      assert ids + IdsFrom(m, 0) == ids;
    } else {
      MaxOfIdsFrom(ids, n - 1);
      NumberOfId(m + n);
      MaxSnoc(ids + IdsFrom(m, n - 1), Id(m + n));
      assert ids + IdsFrom(m, n) == (ids + IdsFrom(m, n - 1)) + [Id(m + n)];
    }
  }

  /** The ids of a run are the next numbers in order, one for each accepted transfer, whatever the restarts in between. */
  lemma {:induction false} IdsOfRun(codec: Codec, test: Tester, rules: seq<Rule>, stored: Option<Chain>, requests: seq<Request>)
    requires stored.Some? ==> stored.value != []
    ensures IdsIn(Served(codec, test, rules, stored, requests))
            == IdsIn(stored) + IdsFrom(MaxNumber(IdsIn(stored)), Accepted(requests))
  {
    hide MaxNumber, Id, TransferFits, After, IdsIn;
    var ids := IdsIn(stored);
    var m := MaxNumber(ids);
    if requests == [] {
      assert ids + IdsFrom(m, 0) == ids;
    } else {
      var n := |requests| - 1;
      IdsOfRun(codec, test, rules, stored, requests[..n]);
      var k := Accepted(requests[..n]);
      MaxOfIdsFrom(ids, k);
      IdsOfRequest(codec, test, rules, Served(codec, test, rules, stored, requests[..n]), requests[n]);
      assert (ids + IdsFrom(m, k)) + [Id(m + k + 1)] == ids + (IdsFrom(m, k) + [Id(m + k + 1)]);
    }
  }

  /** A request adds the next id if it is an accepted transfer, and none otherwise. */
  lemma IdsOfRequest(codec: Codec, test: Tester, rules: seq<Rule>, stored: Option<Chain>, r: Request)
    requires stored.Some? ==> stored.value != []
    ensures IdsIn(After(codec, test, rules, stored, r))
            == if TransferFits(r) then IdsIn(stored) + [Id(MaxNumber(IdsIn(stored)) + 1)] else IdsIn(stored)
  {
    hide MaxNumber, Id, TransactionOf, Grown, Ids, IsBlank, NextId;
    if TransferFits(r) {
      IdsOfTransfer(codec, test, rules, stored, r);
    } else if r.Transfer? {
      IdsOfStart(codec, stored, r);
    }
  }

  /** No run changes or loses a stored block, and it adds one block for each accepted transfer. */
  lemma {:induction false} RunsOnlyAppend(codec: Codec, test: Tester, rules: seq<Rule>, stored: Option<Chain>, requests: seq<Request>)
    requires stored.Some? && stored.value != []
    ensures var after := Served(codec, test, rules, stored, requests);
            after.Some? && stored.value <= after.value && |after.value| == |stored.value| + Accepted(requests)
  {
    if requests != [] {
      var n := |requests| - 1;
      hide TransactionOf, NextId, IsBlank;
      RunsOnlyAppend(codec, test, rules, stored, requests[..n]);
      FitsIsTransfer(requests[n]);
    }
  }

  lemma FitsIsTransfer(r: Request)
    ensures TransferFits(r) ==> r.Transfer? && r.amount.Some?
  {}

  lemma IdsOfStart(codec: Codec, stored: Option<Chain>, r: Request)
    requires r.Transfer?
    ensures Ids(StartOf(codec, stored, r.now)) == IdsIn(stored)
  {
    if stored.None? {
      var chain := StartOf(codec, stored, r.now);
      assert chain[..0] == [];
      assert TxIds(chain[0].transactions) == [];
    }
  }

  lemma IdsOfTransfer(codec: Codec, test: Tester, rules: seq<Rule>, stored: Option<Chain>, r: Request)
    requires stored.Some? ==> stored.value != []
    requires TransferFits(r)
    ensures IdsIn(After(codec, test, rules, stored, r)) == IdsIn(stored) + [Id(MaxNumber(IdsIn(stored)) + 1)]
  {
    hide MaxNumber, Id, Ids, Grown, IsBlank, Processed;
    var start := StartOf(codec, stored, r.now);
    IdsOfStart(codec, stored, r);
    var tx := TransactionOf(r, NextId(start), rules, test);
    KeptByRules(r, NextId(start), rules, test);
    IdsGrow(codec, start, tx, r.now);
  }

  lemma KeptByRules(r: Request, id: string, rules: seq<Rule>, test: Tester)
    requires r.Transfer? && r.amount.Some?
    ensures var tx := TransactionOf(r, id, rules, test);
            tx.id == id && tx.postings == PostingsOf(r) && tx.timestamp == r.now && tx.source == r.source && tx.destination == r.destination
  {
    hide Processed;
    var t := Transaction(id, r.notation, r.source, r.destination, None, PostingsOf(r), r.now, [], "", "", false, []);
    ProcessingKeepsEntry(t, ByPriority(Actives(rules)), test);
  }

  /** A transfer takes its amount from the source and gives it to the destination, and touches no other balance. */
  lemma TransferMoves(codec: Codec, test: Tester, rules: seq<Rule>, chain: Chain, r: Request, account: string,
                      included: string -> bool, currency: string)
    requires codec.ValidChain(chain) && TransferFits(r)
    ensures After(codec, test, rules, Some(chain), r).Some?
    ensures BalanceAt(After(codec, test, rules, Some(chain), r).value, account, included, currency)
            == BalanceAt(chain, account, included, currency)
               + (if included(r.now) && currency == UnitOf(r.currency) && account == r.destination then r.amount.value else 0.0)
               - (if included(r.now) && currency == UnitOf(r.currency) && account == r.source then r.amount.value else 0.0)
  {
    ValidIsNotEmpty(codec, chain);
    codec.IndexIsPosition(chain, |chain| - 1);
    hide IsBlank, Processed, NextId, Codec.ValidChain, TransactionOf, Grown, PostedOn, BalanceAt, PostingsOf, UnitOf;
    var tx := TransactionOf(r, NextId(chain), rules, test);
    KeptByRules(r, NextId(chain), rules, test);
    BalanceOfGrown(codec, chain, tx, r.now, account, included, currency);
    PostedByTransfer(r, account, currency);
  }

  lemma BalanceOfGrown(codec: Codec, chain: Chain, tx: Transaction, now: string, account: string, included: string -> bool,
                       currency: string)
    requires chain != [] && chain[|chain| - 1].index >= 0
    ensures BalanceAt(Grown(codec, chain, tx, now), account, included, currency)
            == BalanceAt(chain, account, included, currency)
               + (if included(tx.timestamp) then PostedOn(tx.postings, account, currency) else 0.0)
  {
    hide PostedOn, PostingsAdded;
    var longer := Grown(codec, chain, tx, now);
    assert longer[..|chain|] == chain;
    var b := Balance(chain, account, included);
    assert [tx][..0] == [];
    assert TransactionsAdded(b, [], account, included) == b;
    PostingsAt(b, tx.postings, account, currency);
  }

  lemma PostedByTransfer(r: Request, account: string, currency: string)
    requires r.Transfer? && r.amount.Some?
    ensures PostedOn(PostingsOf(r), account, currency)
            == (if currency == UnitOf(r.currency) && account == r.destination then r.amount.value else 0.0)
               - (if currency == UnitOf(r.currency) && account == r.source then r.amount.value else 0.0)
  {
    var ps := PostingsOf(r);
    assert ps[..1] == [ps[0]] && ps[..1][..0] == [];
    assert PostedOn([], account, currency) == 0.0;
    assert PostedOn(ps[..1], account, currency)
        == if account == r.source && currency == UnitOf(r.currency) then -r.amount.value else 0.0;
  }

  // ---- What a transfer leaves in the chain ----------------------------------------------------------------------------------

  predicate HasText(s: string) { exists i :: 0 <= i < |s| && !IsSpace(s[i]) }

  /** What is accepted: an amount, and texts that are more than white space; the currency may be absent. */
  predicate IsAcceptable(notation: string, source: string, destination: string, amount: Option<real>, currency: string) {
    && amount.Some? && HasText(notation) && HasText(source) && HasText(destination) && (currency == "" || HasText(currency))
  }

  lemma TransferFitsIff(notation: string, source: string, destination: string, amount: Option<real>, currency: string, now: string)
    ensures TransferFits(Transfer(notation, source, destination, amount, currency, now))
            <==> IsAcceptable(notation, source, destination, amount, currency)
  {
    forall s: string ensures IsBlank(s) <==> !HasText(s) {}
    assert "USD"[0] == 'U';
    hide IsSpace;
    assert !IsSpace('U') && HasText("USD");
  }

  /** TX_ and at least six digits, without more zeros in front than that takes. */
  predicate IsIdOf(id: string, n: nat) {
    && |id| >= 9 && id[..3] == "TX_" && AllDigits(id[3..]) && Value(id[3..]) == n && (|id| > 9 ==> id[3] != '0')
  }

  predicate IsAt(chain: Chain, i: nat, j: nat) { i < |chain| && j < |chain[i].transactions| }

  /** One more than the greatest number of a stored id, or 1. */
  ghost predicate IsNext(chain: Chain, n: nat) {
    && n > 0
    && (forall i: nat, j: nat :: IsAt(chain, i, j) && Number(chain[i].transactions[j].id).Some? ==> Number(chain[i].transactions[j].id).value < n)
    && (n == 1 || IsTaken(chain, n - 1))
  }

  predicate IsTaken(chain: Chain, n: int) {
    exists i, j :: 0 <= i < |chain| && 0 <= j < |chain[i].transactions| && Number(chain[i].transactions[j].id) == Some(n)
  }

  predicate IsHashed(codec: Codec, b: Block) { b.hash == codec.hash(codec.hashed(b.index, b.previousHash, b.transactions, b.timestamp)) }

  predicate IsGenesis(codec: Codec, b: Block, now: string) {
    b.index == 0 && b.previousHash == "0" && b.transactions == [] && b.timestamp == now && IsHashed(codec, b)
  }

  /** The transfer as it was asked for: the amount out of the source and into the destination. */
  predicate IsRequested(t: Transaction, r: Request, id: string)
    requires r.Transfer? && r.amount.Some?
  {
    var amount := Amount(r.amount.value, if r.currency == "" then "USD" else r.currency);
    && t.id == id && t.notation == r.notation && t.source == r.source && t.destination == r.destination && t.ruleId == None
    && t.timestamp == r.now && t.postings == [Posting(r.source, amount, "credit"), Posting(r.destination, amount, "debit")]
  }

  /** The chain after a transfer: the blocks that were there, or a genesis block, and one more block with the transfer. */
  ghost predicate Records(codec: Codec, test: Tester, rules: seq<Rule>, before: Option<Chain>, after: Chain, r: Request, id: string)
    requires r.Transfer? && r.amount.Some?
  {
    && |after| >= 2
    && (if before.Some? then after[..|after| - 1] == before.value else |after| == 2 && IsGenesis(codec, after[0], r.now))
    && var last, previous := after[|after| - 1], after[|after| - 2];
    && last.index == |after| - 1 && last.previousHash == previous.hash && last.timestamp == r.now && IsHashed(codec, last)
    && |last.transactions| == 1 && IsRequested(last.transactions[0], r, id) && RulesSay(last.transactions[0], rules, test)
    && exists n :: IsIdOf(id, n) && IsNext(after[..|after| - 1], n)
  }

  lemma IdIs(n: nat)
    ensures IsIdOf(Id(n), n)
  {
    PaddedDigits(n);
    ValueOfText(n);
    var id := Id(n);
    assert id[..3] == "TX_" && id[3..] == Padded(Text(n));
    assert |id| > 9 ==> id[3..] == Text(n);
  }

  lemma {:induction false} MaxIsTaken(ids: seq<string>)
    ensures MaxNumber(ids) == 0 || exists i :: 0 <= i < |ids| && Number(ids[i]) == Some(MaxNumber(ids))
  {
    hide Number;
    if ids != [] { MaxIsTaken(ids[..|ids| - 1]); }
  }

  lemma {:induction false} TxIdsAre(txs: seq<Transaction>)
    ensures |TxIds(txs)| == |txs| && forall j :: 0 <= j < |txs| ==> TxIds(txs)[j] == txs[j].id
  {
    if txs != [] { TxIdsAre(txs[..|txs| - 1]); }
  }

  lemma {:induction false} IdIsAt(chain: Chain, k: nat) returns (i: nat, j: nat)
    requires k < |Ids(chain)|
    ensures IsAt(chain, i, j) && chain[i].transactions[j].id == Ids(chain)[k]
  {
    var n := |chain| - 1;
    TxIdsAre(chain[n].transactions);
    if k < |Ids(chain[..n])| {
      i, j := IdIsAt(chain[..n], k);
    } else {
      i, j := n, k - |Ids(chain[..n])|;
    }
  }

  lemma {:induction false} AtIsId(chain: Chain, i: nat, j: nat) returns (k: nat)
    requires IsAt(chain, i, j)
    ensures k < |Ids(chain)| && chain[i].transactions[j].id == Ids(chain)[k]
    decreases |chain|
  {
    var n := |chain| - 1;
    TxIdsAre(chain[n].transactions);
    if i < n {
      k := AtIsId(chain[..n], i, j);
    } else {
      k := |Ids(chain[..n])| + j;
    }
  }

  lemma NextIsNext(chain: Chain)
    ensures IsNext(chain, MaxNumber(Ids(chain)) + 1)
  {
    hide Number, MaxNumber, Ids;
    var ids := Ids(chain);
    forall i: nat, j: nat | IsAt(chain, i, j) && Number(chain[i].transactions[j].id).Some?
      ensures Number(chain[i].transactions[j].id).value <= MaxNumber(ids)
    {
      var k := AtIsId(chain, i, j);
      MaxIsGreatest(ids, k);
    }
    MaxIsTaken(ids);
    if MaxNumber(ids) != 0 {
      var k :| 0 <= k < |ids| && Number(ids[k]) == Some(MaxNumber(ids));
      var i, j := IdIsAt(chain, k);
    }
  }

  lemma StartIs(codec: Codec, before: Option<Chain>, now: string)
    requires before.Some? ==> before.value != [] && codec.ValidChain(before.value)
    ensures var start := StartOf(codec, before, now);
            && start != [] && start[|start| - 1].index == |start| - 1
            && (if before.Some? then start == before.value else |start| == 1 && IsGenesis(codec, start[0], now))
  {
    var start := StartOf(codec, before, now);
    assert codec.ValidChain(start);
    codec.IndexIsPosition(start, |start| - 1);
  }

  lemma LastBlock(codec: Codec, start: Chain, tx: Transaction, now: string)
    requires start != [] && start[|start| - 1].index == |start| - 1
    ensures var after := Grown(codec, start, tx, now);
            && |after| == |start| + 1 && after[..|start|] == start && after[|start|].index == |start| && IsHashed(codec, after[|start|])
            && after[|start|].previousHash == after[|start| - 1].hash && after[|start|].timestamp == now && after[|start|].transactions == [tx]
  {}

  lemma NextIdIs(chain: Chain)
    ensures exists n :: IsIdOf(NextId(chain), n) && IsNext(chain, n)
  {
    hide *;
    var n := MaxNumber(Ids(chain)) + 1;
    IdIs(n);
    NextIsNext(chain);
    assert IsIdOf(NextId(chain), n) by { assert NextId(chain) == Id(n) by { NextIdOf(chain); } }
  }

  lemma NextIdOf(chain: Chain)
    ensures NextId(chain) == Id(MaxNumber(Ids(chain)) + 1)
  {}

  /** The chain of the definition is the one described. */
  lemma AfterRecords(codec: Codec, test: Tester, rules: seq<Rule>, before: Option<Chain>, r: Request)
    requires (before.Some? ==> before.value != [] && codec.ValidChain(before.value)) && r.Transfer? && r.amount.Some? && TransferFits(r)
    ensures After(codec, test, rules, before, r).Some?
    ensures Records(codec, test, rules, before, After(codec, test, rules, before, r).value, r, NextId(StartOf(codec, before, r.now)))
  {
    hide RulesSay, IsRequested, TransactionOf, IsIdOf, IsNext, Codec.ValidChain, TransferFits, IsGenesis, IsHashed, Grown, NextId, StartOf;
    var start := StartOf(codec, before, r.now);
    StartIs(codec, before, r.now);
    RequestedIs(r, NextId(start), rules, test);
    LastBlock(codec, start, TransactionOf(r, NextId(start), rules, test), r.now);
    NextIdIs(start);
  }

  lemma RequestedIs(r: Request, id: string, rules: seq<Rule>, test: Tester)
    requires r.Transfer? && r.amount.Some?
    ensures IsRequested(TransactionOf(r, id, rules, test), r, id) && RulesSay(TransactionOf(r, id, rules, test), rules, test)
  {
    var t := Transaction(id, r.notation, r.source, r.destination, None, PostingsOf(r), r.now, [], "", "", false, []);
    hide Processed, RulesSay, Actives, ByPriority;
    ProcessingKeepsEntry(t, ByPriority(Actives(rules)), test);
    ProcessedIsSaid(t, rules, test);
  }

  const NOTE := "\n" + "Large transaction requires manual approval"

  /** What the rules of a fresh ledger make of a transaction. */
  predicate FreshRulesSay(t: Transaction, test: Tester) {
    var large := Debited(t.postings) >= 10000.0;
    var dollars := t.postings != [] && t.postings[0].amount.unit == "USD";
    var office := test("^Expenses:", "", t.destination) == Some(true)
                  && test("office|supplies|stationery", "i", t.notation) == Some(true);
    && t.requiresApproval == large && t.notes == (if large then NOTE else "")
    && t.category == (if office then "Office Supplies" else "")
    && t.tags == (if dollars then ["validated-currency"] else []) + (if office then ["office", "supplies", "deductible"] else [])
    && t.appliedRules == (if large then ["RULE_001"] else []) + (if dollars then ["RULE_003"] else [])
                         + (if office then ["RULE_002"] else [])
  }

  lemma FreshRulesAct(t: Transaction, test: Tester)
    requires RulesSay(t, DEFAULT_RULES, test)
    ensures FreshRulesSay(t, test)
  {
    var p :| Acting(p, DEFAULT_RULES, t, test) && ActedOn(t, p, DEFAULT_RULES);
    var q := FreshActing(t, test);
    ActingIsOne(p, q, DEFAULT_RULES, t, test);
    FreshActedOn(t, q, test);
  }

  /** Approval before the currency check before the category. */
  function FreshOrder(t: Transaction, test: Tester): seq<nat> {
    (if Meets(t, DEFAULT_RULES[0], test) then [0] else []) + (if Meets(t, DEFAULT_RULES[2], test) then [2] else [])
    + (if Meets(t, DEFAULT_RULES[1], test) then [1] else [])
  }

  lemma FreshActing(t: Transaction, test: Tester) returns (q: seq<nat>)
    ensures q == FreshOrder(t, test) && Acting(q, DEFAULT_RULES, t, test)
  {
    q := FreshOrder(t, test);
    assert DEFAULT_RULES[0].priority == 100 && DEFAULT_RULES[2].priority == 90 && DEFAULT_RULES[1].priority == 50;
    assert DEFAULT_RULES[0].active && DEFAULT_RULES[1].active && DEFAULT_RULES[2].active;
    hide Meets, DEFAULT_RULES, RULE;
  }

  lemma FreshActedOn(t: Transaction, q: seq<nat>, test: Tester)
    requires q == FreshOrder(t, test) && Within(q, DEFAULT_RULES) && ActedOn(t, q, DEFAULT_RULES)
    ensures FreshRulesSay(t, test)
  {
    FreshMeets(t, test);
    FreshEffects(Meets(t, DEFAULT_RULES[0], test), Meets(t, DEFAULT_RULES[2], test), Meets(t, DEFAULT_RULES[1], test), q);
    FreshIds(t, q, test);
    var category := if Meets(t, DEFAULT_RULES[1], test) then "Office Supplies" else "";
    CategoryIsOne(t.category, category, q, DEFAULT_RULES);
    hide Meets, DEFAULT_RULES, AllTags, AllNotes, IsCategory, NeedsApproval, Within, Debited;
  }

  lemma FreshIds(t: Transaction, q: seq<nat>, test: Tester)
    requires q == FreshOrder(t, test) && Within(q, DEFAULT_RULES) && ActedOn(t, q, DEFAULT_RULES)
    ensures t.appliedRules == (if Meets(t, DEFAULT_RULES[0], test) then ["RULE_001"] else [])
                              + (if Meets(t, DEFAULT_RULES[2], test) then ["RULE_003"] else [])
                              + (if Meets(t, DEFAULT_RULES[1], test) then ["RULE_002"] else [])
  {
    assert DEFAULT_RULES[0].id == "RULE_001" && DEFAULT_RULES[2].id == "RULE_003" && DEFAULT_RULES[1].id == "RULE_002";
    hide Meets, DEFAULT_RULES, AllTags, AllNotes, IsCategory, NeedsApproval;
  }

  predicate Effect(q: seq<nat>, rules: seq<Rule>, tags: seq<string>, notes: string, category: string, approval: bool) {
    && Within(q, rules) && AllTags(q, rules) == tags && AllNotes(q, rules) == notes && IsCategory(category, q, rules)
    && NeedsApproval(q, rules) == approval
  }

  lemma FreshEffects(a: bool, b: bool, c: bool, q: seq<nat>)
    requires q == (if a then [0] else []) + (if b then [2] else []) + (if c then [1] else [])
    ensures Effect(q, DEFAULT_RULES, (if b then ["validated-currency"] else []) + (if c then ["office", "supplies", "deductible"] else []),
                   if a then NOTE else "", if c then "Office Supplies" else "", a)
  {
    hide *;
    var q1 := if a then [0] else [];
    var q2 := q1 + (if b then [2] else []);
    FirstEffect(a, q1);
    SecondEffect(a, b, q1, q2);
    ThirdEffect(a, b, c, q2, q);
  }

  lemma FirstEffect(a: bool, q: seq<nat>)
    requires q == if a then [0] else []
    ensures Effect(q, DEFAULT_RULES, [], if a then NOTE else "", "", a)
  {
    NoEffect();
    FreshParts();
    hide *;
    if a {
      Acts([], DEFAULT_RULES, 0, [], "", "", false);
      var none: seq<string> := [];
      assert [] + [0] == q && none + [] == none;
      assert "" + NOTE == NOTE;
    }
  }

  lemma SecondEffect(a: bool, b: bool, q: seq<nat>, r: seq<nat>)
    requires r == if b then q + [2] else q + []
    requires Effect(q, DEFAULT_RULES, [], if a then NOTE else "", "", a)
    ensures Effect(r, DEFAULT_RULES, if b then ["validated-currency"] else [],
                   if a then NOTE else "", "", a)
  {
    FreshParts();
    hide *;
    var notes := if a then NOTE else "";
    assert q + [] == q && notes + "" == notes;
    if b {
      Acts(q, DEFAULT_RULES, 2, [], notes, "", a);
      assert [] + ["validated-currency"] == ["validated-currency"];
    }
  }

  lemma ThirdEffect(a: bool, b: bool, c: bool, q: seq<nat>, r: seq<nat>)
    requires r == if c then q + [1] else q + []
    requires Effect(q, DEFAULT_RULES, if b then ["validated-currency"] else [],
                    if a then NOTE else "", "", a)
    ensures Effect(r, DEFAULT_RULES, (if b then ["validated-currency"] else []) + (if c then ["office", "supplies", "deductible"] else []),
                   if a then NOTE else "", if c then "Office Supplies" else "", a)
  {
    FreshParts();
    hide *;
    var notes, tags := if a then NOTE else "", if b then ["validated-currency"] else [];
    assert q + [] == q && notes + "" == notes && tags + [] == tags;
    if c { Acts(q, DEFAULT_RULES, 1, tags, notes, "", a); }
  }

  lemma NoEffect()
    ensures Effect([], DEFAULT_RULES, [], "", "", false)
  {}

  lemma FreshParts()
    ensures |DEFAULT_RULES| == 3
    ensures var r := DEFAULT_RULES[0];
            r.addTags == [] && r.addNote != "" && NOTE == "\n" + r.addNote && r.setCategory == "" && r.requireApproval
    ensures var r := DEFAULT_RULES[2]; r.addTags == ["validated-currency"] && r.addNote == "" && r.setCategory == "" && !r.requireApproval
    ensures var r := DEFAULT_RULES[1];
            r.addTags == ["office", "supplies", "deductible"] && r.addNote == "" && r.setCategory == "Office Supplies" && !r.requireApproval
  {
    assert "Large transaction requires manual approval"[0] == 'L';
  }

  lemma Acts(q: seq<nat>, rules: seq<Rule>, i: nat, tags: seq<string>, notes: string, category: string, approval: bool)
    requires i < |rules| && Effect(q, rules, tags, notes, category, approval)
    ensures Effect(q + [i], rules, tags + rules[i].addTags, notes + (if rules[i].addNote == "" then "" else "\n" + rules[i].addNote),
                   if rules[i].setCategory != "" then rules[i].setCategory else category, approval || rules[i].requireApproval)
  {
    hide Within, AllTags, AllNotes, IsCategory, NeedsApproval;
    TagsMore(q, rules, i);
    ApprovalMore(q, rules, i);
    CategoryMore(category, q, rules, i);
  }

  lemma FreshMeets(t: Transaction, test: Tester)
    ensures Meets(t, DEFAULT_RULES[0], test) <==> Debited(t.postings) >= 10000.0
    ensures Meets(t, DEFAULT_RULES[2], test) <==> t.postings != [] && t.postings[0].amount.unit == "USD"
    ensures Meets(t, DEFAULT_RULES[1], test)
            <==> test("^Expenses:", "", t.destination) == Some(true) && test("office|supplies|stationery", "i", t.notation) == Some(true)
  {
    hide Debited;
  }

  // ---- Rules in the store ---------------------------------------------------------------------------------------------------

  /** JSON of rules; None where parsing throws, which loadRules catches. */
  datatype RuleCodec = RuleCodec(writeAll: seq<Rule> -> string, readAll: string -> Option<seq<Rule>>, write: Rule -> string) {
    /** The rules of a fresh ledger read back. */
    predicate Faithful() { writeAll(DEFAULT_RULES) != "" && readAll(writeAll(DEFAULT_RULES)) == Some(DEFAULT_RULES) }
  }

  const RULES_KEY := "rules:all"

  function RuleKey(id: string): string { "rule:" + id }

  function RulesPut(rc: RuleCodec, store: Store, rules: seq<Rule>, n: nat): Store
    requires n <= |rules|
  {
    if n == 0 then store else RulesPut(rc, store, rules, n - 1)[RuleKey(rules[n - 1].id) := rc.write(rules[n - 1])]
  }

  function RulesSaved(rc: RuleCodec, store: Store, rules: seq<Rule>): Store {
    RulesPut(rc, store[RULES_KEY := rc.writeAll(rules)], rules, |rules|)
  }

  function LoadedRules(rc: RuleCodec, store: Store): seq<Rule> {
    var s := Fetch(store, RULES_KEY);
    if s == "" || rc.readAll(s).None? then [] else rc.readAll(s).value
  }

  lemma {:induction false} RulesPutElsewhere(rc: RuleCodec, store: Store, rules: seq<Rule>, n: nat, key: string)
    requires n <= |rules| && (|key| < 5 || key[4] != ':')
    ensures Fetch(RulesPut(rc, store, rules, n), key) == Fetch(store, key)
  {
    if n > 0 {
      RulesPutElsewhere(rc, store, rules, n - 1, key);
      assert RuleKey(rules[n - 1].id)[4] == ':';
    }
  }

  /** Loading the rules after saving those of a fresh ledger gives them. */
  lemma RulesLoadAfterSave(rc: RuleCodec, store: Store)
    requires rc.Faithful()
    ensures LoadedRules(rc, RulesSaved(rc, store, DEFAULT_RULES)) == DEFAULT_RULES
  {
    hide *;
    assert RULES_KEY[4] != ':' by { RulesKeyIs(); }
    var before := store[RULES_KEY := rc.writeAll(DEFAULT_RULES)];
    RulesPutElsewhere(rc, before, DEFAULT_RULES, |DEFAULT_RULES|, RULES_KEY);
    RulesRead(rc, store);
  }

  lemma RulesKeyIs()
    ensures |RULES_KEY| > 4 && RULES_KEY[4] == 's' && RULES_KEY != LENGTH_KEY && RULES_KEY[0] == 'r'
  {
    assert LENGTH_KEY[0] == 'c';
  }

  lemma RulesRead(rc: RuleCodec, store: Store)
    requires rc.Faithful()
    requires Fetch(RulesPut(rc, store[RULES_KEY := rc.writeAll(DEFAULT_RULES)], DEFAULT_RULES, |DEFAULT_RULES|), RULES_KEY)
             == Fetch(store[RULES_KEY := rc.writeAll(DEFAULT_RULES)], RULES_KEY)
    ensures LoadedRules(rc, RulesSaved(rc, store, DEFAULT_RULES)) == DEFAULT_RULES
  {
    hide RulesPut;
  }

  /** Two stores with the same texts under the keys of the chain. */
  ghost predicate SameChainKeys(codec: Codec, s: Store, t: Store) {
    Fetch(s, LENGTH_KEY) == Fetch(t, LENGTH_KEY) && forall i: nat :: Fetch(s, codec.BlockKey(i)) == Fetch(t, codec.BlockKey(i))
  }

  lemma {:induction false} SameBlocks(codec: Codec, s: Store, t: Store, n: nat)
    requires SameChainKeys(codec, s, t)
    ensures BlocksGot(codec, s, n) == BlocksGot(codec, t, n)
  {
    if n > 0 { SameBlocks(codec, s, t, n - 1); }
  }

  /** Saving rules does not touch the chain. */
  lemma RulesKeepChain(codec: Codec, rc: RuleCodec, store: Store, rules: seq<Rule>)
    ensures Loaded(codec, RulesSaved(rc, store, rules)) == Loaded(codec, store)
  {
    var before, after := store[RULES_KEY := rc.writeAll(rules)], RulesSaved(rc, store, rules);
    RulesKeyIs();
    LengthKeyIs();
    hide ParseInt, Codec.BlockKey;
    RulesPutElsewhere(rc, before, rules, |rules|, LENGTH_KEY);
    forall i: nat ensures Fetch(after, codec.BlockKey(i)) == Fetch(store, codec.BlockKey(i)) {
      BlockKeyIs(codec, i);
      RulesPutElsewhere(rc, before, rules, |rules|, codec.BlockKey(i));
    }
    assert SameChainKeys(codec, after, store);
    forall n: nat ensures BlocksGot(codec, after, n) == BlocksGot(codec, store, n) { SameBlocks(codec, after, store, n); }
  }

  lemma BlockKeyIs(codec: Codec, i: nat)
    ensures |codec.BlockKey(i)| > 4 && codec.BlockKey(i)[4] == 'n' && codec.BlockKey(i)[0] == 'c'
  {}

  lemma LengthKeyIs()
    ensures |LENGTH_KEY| > 4 && LENGTH_KEY[4] == 'n' && LENGTH_KEY[0] == 'c'
  {}

  /** Saving a chain does not touch the rules. */
  lemma ChainKeepsRules(codec: Codec, rc: RuleCodec, store: Store, chain: Chain)
    ensures LoadedRules(rc, Saved(codec, store, chain)) == LoadedRules(rc, store)
  {
    RulesKeyIs();
    hide Codec.BlockKey;
    forall i: nat ensures codec.BlockKey(i) != RULES_KEY { BlockKeyIs(codec, i); }
    var before := store[LENGTH_KEY := Decimals.Text(|chain|)];
    PutElsewhere(codec, before, chain, |chain|, RULES_KEY);
  }

  class LedgerState {
    const codec: Codec
    const ruleCodec: RuleCodec
    const test: Tester
    var store: Store
    var counter: int

    constructor (codec: Codec, ruleCodec: RuleCodec, test: Tester, store: Store, counter: int)
      ensures this.codec == codec && this.ruleCodec == ruleCodec && this.test == test && this.store == store && this.counter == counter
    {
      this.codec := codec;
      this.ruleCodec := ruleCodec;
      this.test := test;
      this.store := store;
      this.counter := counter;
    }

    /** The counter becomes the greatest number of a stored transaction. */
    method InitializeTransactionCounter(chain: Chain)
      modifies this`counter
      ensures counter == MaxNumber(Ids(chain)) >= 0
    {
      hide Number;
      var maxId := 0;
      var i := 0;
      ghost var ids: seq<string> := [];
      assert chain[..0] == [];
      while i < |chain|
        invariant 0 <= i <= |chain| && ids == Ids(chain[..i]) && maxId == MaxNumber(ids)
      {
        assert chain[..i + 1][..i] == chain[..i];
        var txs := chain[i].transactions;
        var j := 0;
        assert txs[..0] == [] && ids + [] == ids;
        while j < |txs|
          invariant 0 <= j <= |txs| && maxId == MaxNumber(ids + TxIds(txs[..j]))
        {
          assert txs[..j + 1][..j] == txs[..j];
          assert ids + TxIds(txs[..j + 1]) == (ids + TxIds(txs[..j])) + [txs[j].id];
          MaxSnoc(ids + TxIds(txs[..j]), txs[j].id);
          var n := Number(txs[j].id);
          if n.Some? && n.value > maxId { maxId := n.value; }
          j := j + 1;
        }
        assert txs[..j] == txs;
        ids := ids + TxIds(txs);
        i := i + 1;
      }
      assert chain[..i] == chain;
      counter := maxId;
    }

    /** A transaction with the next id; None where a check throws, and then the counter stays. */
    method CreateTransaction(notation: string, source: string, destination: string, ruleId: Option<string>,
                             postings: seq<Posting>, now: string) returns (tx: Option<Transaction>)
      requires counter >= 0
      modifies this`counter
      ensures tx.Some? <==> !IsBlank(notation) && !IsBlank(source) && !IsBlank(destination)
                            && (ruleId.Some? ==> !IsBlank(ruleId.value))
                            && PostingsPass(postings)
      ensures tx.Some? ==> counter == old(counter) + 1
                           && tx.value == Transaction(Id(counter), notation, source, destination, ruleId, postings, now,
                                                      [], "", "", false, [])
      ensures tx.None? ==> counter == old(counter)
    {
      if IsBlank(notation) || IsBlank(source) || IsBlank(destination) { return None; }
      if ruleId.Some? && IsBlank(ruleId.value) { return None; }
      if postings == [] { return None; }
      var totalDebits, totalCredits := 0.0, 0.0;
      var currency := postings[0].amount.unit;
      var i := 0;
      while i < |postings|
        invariant 0 <= i <= |postings| && counter == old(counter)
        invariant totalDebits == DebitTotal(postings[..i]) && totalCredits == CreditTotal(postings[..i])
        invariant forall k :: 0 <= k < i ==> postings[k].account != "" && postings[k].kind != "" && postings[k].amount.unit == currency
      {
        var p := postings[i];
        assert postings[..i + 1][..i] == postings[..i];
        if p.account == "" || p.kind == "" { return None; }
        if p.amount.unit != currency { return None; }
        if p.kind == "debit" { totalDebits := totalDebits + p.amount.value; }
        else if p.kind == "credit" { totalCredits := totalCredits + p.amount.value; }
        i := i + 1;
      }
      assert postings[..i] == postings;
      if Abs(totalDebits - totalCredits) > TOLERANCE { return None; }
      counter := counter + 1;
      tx := Some(Transaction(Id(counter), notation, source, destination, ruleId, postings, now, [], "", "", false, []));
    }

    method IsValidChain(chain: Chain) returns (valid: bool)
      requires chain != []
      ensures valid == codec.ValidChain(chain)
    {
      if chain[0].index != 0 || chain[0].previousHash != "0" { return false; }
      var i := 1;
      while i < |chain|
        invariant 1 <= i <= |chain|
        invariant forall k :: 1 <= k < i ==> codec.Follows(chain[k - 1], chain[k])
      {
        var cur, prev := chain[i], chain[i - 1];
        if cur.index != prev.index + 1 || cur.previousHash != prev.hash || cur.hash != codec.HashOf(cur) {
          assert !codec.Follows(prev, cur);
          return false;
        }
        i := i + 1;
      }
      valid := true;
    }

    /** A longer valid chain, or None where a check throws. */
    method AddBlock(chain: Chain, transactions: seq<Transaction>, now: string) returns (r: Option<Chain>)
      ensures r.Some? <==> chain != [] && transactions != [] && codec.ValidChain(chain)
      ensures r.Some? ==> var last := chain[|chain| - 1];
                          r.value == chain + [codec.NewBlock(last.index + 1, last.hash, transactions, now)]
                          && codec.ValidChain(r.value)
    {
      if chain == [] || transactions == [] { return None; }
      var valid := IsValidChain(chain);
      if !valid { return None; }
      var last := chain[|chain| - 1];
      var newChain := chain + [codec.NewBlock(last.index + 1, last.hash, transactions, now)];
      codec.NewBlockFollows(chain, transactions, now);
      valid := IsValidChain(newChain);
      if !valid { return None; }
      r := Some(newChain);
    }

    /** The length and every block are put; what was stored under later block keys stays behind. */
    method SaveChain(chain: Chain) returns (ok: bool)
      requires chain != []
      modifies this`store
      ensures ok == codec.ValidChain(chain)
      ensures store == if ok then Saved(codec, old(store), chain) else old(store)
    {
      ok := IsValidChain(chain);
      if !ok { return; }
      store := store[LENGTH_KEY := Decimals.Text(|chain|)];
      ghost var before := store;
      var i := 0;
      while i < |chain|
        invariant 0 <= i <= |chain| && store == BlocksPut(codec, before, chain, i)
      {
        store := store[codec.BlockKey(i) := codec.write(chain[i])];
        i := i + 1;
      }
    }

    method LoadChain() returns (chain: Option<Chain>)
      ensures chain == Loaded(codec, store)
    {
      var lenStr := Fetch(store, LENGTH_KEY);
      var len := ParseInt(if lenStr == "" then "0" else lenStr);
      if len.None? || len.value == 0 { return None; }
      var blocks: Chain := [];
      var i := 0;
      while i < len.value
        invariant 0 <= i && (len.value >= 0 ==> i <= len.value) && (len.value < 0 ==> i == 0)
        invariant BlocksGot(codec, store, i) == Some(blocks)
      {
        var s := Fetch(store, codec.BlockKey(i));
        if s == "" {
          assert BlocksGot(codec, store, i + 1) == None;
          StaysMissing(i + 1, len.value);
          return None;
        }
        blocks := blocks + [codec.read(s)];
        i := i + 1;
      }
      chain := Some(blocks);
    }

    lemma {:induction false} StaysMissing(m: nat, n: nat)
      requires m <= n && BlocksGot(codec, store, m) == None
      ensures BlocksGot(codec, store, n) == None
      decreases n
    {
      if m < n { StaysMissing(m, n - 1); }
    }

    /** The rules under one key, and each of them under its own. */
    method SaveRules(rules: seq<Rule>)
      modifies this`store
      ensures store == RulesSaved(ruleCodec, old(store), rules)
    {
      store := store[RULES_KEY := ruleCodec.writeAll(rules)];
      ghost var before := store;
      var i := 0;
      while i < |rules|
        invariant 0 <= i <= |rules| && store == RulesPut(ruleCodec, before, rules, i)
      {
        store := store[RuleKey(rules[i].id) := ruleCodec.write(rules[i])];
        i := i + 1;
      }
    }

    method LoadRules() returns (rules: seq<Rule>)
      ensures rules == LoadedRules(ruleCodec, store)
    {
      var s := Fetch(store, RULES_KEY);
      if s == "" { return []; }
      var parsed := ruleCodec.readAll(s);
      rules := if parsed.None? then [] else parsed.value;
    }

    /** The stored chain and rules, or new ones that are stored; and the counter that goes with the chain. */
    method EnsureInitialized(now: string) returns (chain: Chain, rules: seq<Rule>)
      requires codec.Faithful() && ruleCodec.Faithful()
      modifies this
      ensures Loaded(codec, store) == Some(chain) && counter == MaxNumber(Ids(chain)) >= 0
      ensures chain == StartOf(codec, Loaded(codec, old(store)), now)
      ensures rules == LoadedRules(ruleCodec, store) == InForce(LoadedRules(ruleCodec, old(store)))
      ensures Loaded(codec, old(store)).Some? && LoadedRules(ruleCodec, old(store)) != [] ==> store == old(store)
    {
      hide Loaded, Saved, Ids, MaxNumber, Codec.Faithful, RuleCodec.Faithful, RulesSaved, LoadedRules;
      var loaded := LoadChain();
      if loaded.None? {
        chain := [codec.NewBlock(0, "0", [], now)];
        GenesisIsGood(codec, now);
        var ok := SaveChain(chain);
        LoadAfterSave(codec, old(store), chain);
        ChainKeepsRules(codec, ruleCodec, old(store), chain);
      } else {
        chain := loaded.value;
      }
      rules := LoadRules();
      if rules == [] {
        rules := DEFAULT_RULES;
        RulesKeepChain(codec, ruleCodec, store, rules);
        RulesLoadAfterSave(ruleCodec, store);
        SaveRules(rules);
      }
      InitializeTransactionCounter(chain);
    }

    /**
     * bc_addTransaction. On success the stored chain is the old one (or a genesis block) with one new block, of the transfer
     * that was asked for under the next id; on failure it is the old one. Either way it stays good.
     */
    method AddTransaction(notation: string, source: string, destination: string, amount: Option<real>, currency: string, now: string)
      returns (id: Option<string>)
      requires codec.Faithful() && ruleCodec.Faithful() && GoodStore(codec, store)
      requires amount.Some? ==> codec.isNumber(amount.value)
      modifies this
      ensures GoodStore(codec, store) && Loaded(codec, store).Some?
      ensures LoadedRules(ruleCodec, store) == InForce(LoadedRules(ruleCodec, old(store)))
      ensures Loaded(codec, old(store)).Some? ==> Loaded(codec, old(store)).value != []
      ensures var r := Transfer(notation, source, destination, amount, currency, now); var before := Loaded(codec, old(store));
              && id == (if TransferFits(r) then Some(NextId(StartOf(codec, before, now))) else None)
              && Loaded(codec, store) == After(codec, test, InForce(LoadedRules(ruleCodec, old(store))), before, r)
      ensures id.Some? <==> IsAcceptable(notation, source, destination, amount, currency)
      ensures id.Some? ==>
                Records(codec, test, InForce(LoadedRules(ruleCodec, old(store))), Loaded(codec, old(store)), Loaded(codec, store).value,
                        Transfer(notation, source, destination, amount, currency, now), id.value)
    {
      hide GoodChain, Loaded, LoadedRules, InForce, Saved, Ids, MaxNumber, Codec.Faithful, Codec.ValidChain, Processed, IsBlank, Grown,
        Actives, ByPriority, PostingsPass, Records, IsAcceptable, IsSpace;
      ghost var r := Transfer(notation, source, destination, amount, currency, now);
      TransferFitsIff(notation, source, destination, amount, currency, now);
      if TransferFits(r) { StoredRecords(r); }
      var chain, rules := EnsureInitialized(now);
      assert GoodChain(codec, chain) by {
        if Loaded(codec, old(store)).None? { GenesisIsGood(codec, now); }
      }
      GoodIsNotEmpty(codec, chain);
      assert chain == StartOf(codec, Loaded(codec, old(store)), now);
      var unit := UnitOf(currency);
      if amount.None? || IsBlank(unit) { return None; }
      if IsBlank(source) || IsBlank(destination) { return None; }
      var postings := [Posting(source, Amount(amount.value, unit), "credit"), Posting(destination, Amount(amount.value, unit), "debit")];
      TransferPasses(postings);
      var tx := CreateTransaction(notation, source, destination, None, postings, now);
      if tx.None? { return None; }
      id := Append(chain, rules, tx.value, now);
    }

    lemma StoredRecords(r: Request)
      requires GoodStore(codec, store) && r.Transfer? && r.amount.Some? && TransferFits(r)
      ensures Loaded(codec, store).Some? ==> Loaded(codec, store).value != []
      ensures var rules, before := InForce(LoadedRules(ruleCodec, store)), Loaded(codec, store);
              && After(codec, test, rules, before, r).Some?
              && Records(codec, test, rules, before, After(codec, test, rules, before, r).value, r, NextId(StartOf(codec, before, r.now)))
    {
      var before := Loaded(codec, store);
      if before.Some? { GoodIsNotEmpty(codec, before.value); }
      hide Loaded, LoadedRules, TransferFits, Records, After, InForce;
      AfterRecords(codec, test, InForce(LoadedRules(ruleCodec, store)), before, r);
    }

    lemma TransferPasses(postings: seq<Posting>)
      requires IsTransfer(postings)
      ensures PostingsPass(postings)
    {
      TransferNet(postings, "");
    }

    lemma GoodIsNotEmpty(codec: Codec, chain: Chain)
      requires GoodChain(codec, chain)
      ensures chain != []
    {
      ValidIsNotEmpty(codec, chain);
    }

    /** The last three steps of bc_addTransaction. */
    method Append(chain: Chain, rules: seq<Rule>, tx: Transaction, now: string) returns (id: Option<string>)
      requires codec.Faithful() && GoodChain(codec, chain) && IsTransfer(tx.postings) && codec.PlainPostings(tx.postings)
      requires counter > 0 && counter == MaxNumber(Ids(chain)) + 1 && tx.id == Id(counter)
      modifies this`store
      ensures id == Some(tx.id) && GoodStore(codec, store) && chain != []
      ensures LoadedRules(ruleCodec, store) == LoadedRules(ruleCodec, old(store))
      ensures Loaded(codec, store)
              == Some(Grown(codec, chain, Processed(tx.(appliedRules := []), ByPriority(Actives(rules)), test), now))
    {
      hide Loaded, Saved, Ids, MaxNumber, Codec.Faithful, Processed, TxIds;
      var processed := ProcessTransactionWithRules(tx, rules, test);
      ChainGrows(codec, chain, processed, now, counter);
      var longer := AddBlock(chain, [processed], now);
      assert longer.value == Grown(codec, chain, processed, now);
      LoadAfterSave(codec, store, longer.value);
      ChainKeepsRules(codec, ruleCodec, store, longer.value);
      var ok := SaveChain(longer.value);
      id := Some(processed.id);
    }

    /** The balances of an account, by currency. */
    method GetAccountBalance(chain: Chain, account: string, included: string -> bool) returns (balances: Balances)
      ensures balances == Balance(chain, account, included)
    {
      balances := map[];
      var i := 0;
      assert chain[..0] == [];
      while i < |chain|
        invariant 0 <= i <= |chain| && balances == Balance(chain[..i], account, included)
      {
        assert chain[..i + 1][..i] == chain[..i];
        if chain[i].index != 0 {
          balances := AddTransactions(balances, chain[i].transactions, account, included);
        }
        i := i + 1;
      }
      assert chain[..i] == chain;
    }

    method AddTransactions(start: Balances, txs: seq<Transaction>, account: string, included: string -> bool) returns (b: Balances)
      ensures b == TransactionsAdded(start, txs, account, included)
    {
      b := start;
      var i := 0;
      assert txs[..0] == [];
      while i < |txs|
        invariant 0 <= i <= |txs| && b == TransactionsAdded(start, txs[..i], account, included)
      {
        assert txs[..i + 1][..i] == txs[..i];
        if included(txs[i].timestamp) {
          b := AddPostings(b, txs[i].postings, account);
        }
        i := i + 1;
      }
      assert txs[..i] == txs;
    }

    method AddPostings(start: Balances, ps: seq<Posting>, account: string) returns (b: Balances)
      ensures b == PostingsAdded(start, ps, account)
    {
      b := start;
      var i := 0;
      assert ps[..0] == [];
      while i < |ps|
        invariant 0 <= i <= |ps| && b == PostingsAdded(start, ps[..i], account)
      {
        assert ps[..i + 1][..i] == ps[..i];
        var p := ps[i];
        if p.account == account {
          b := b[p.amount.unit := At(b, p.amount.unit) + (if p.kind == "debit" then p.amount.value else -p.amount.value)];
        }
        i := i + 1;
      }
      assert ps[..i] == ps;
    }

    // ---- Whole runs -----------------------------------------------------------------------------------------------------------

    lemma OneMoreRequest(stored: Option<Chain>, rules: seq<Rule>, requests: seq<Request>, i: nat)
      requires i < |requests| && (stored.Some? ==> stored.value != [])
      ensures Served(codec, test, rules, stored, requests[..i + 1])
              == After(codec, test, rules, Served(codec, test, rules, stored, requests[..i]), requests[i])
    {
      assert requests[..i + 1][..i] == requests[..i];
    }

    lemma StoredIsNotEmpty()
      requires GoodStore(codec, store)
      ensures Loaded(codec, store).Some? ==> Loaded(codec, store).value != []
    {
      if Loaded(codec, store).Some? { GoodIsNotEmpty(codec, Loaded(codec, store).value); }
    }

    /** One request of a run. */
    method ServeOne(r: Request)
      requires codec.Faithful() && ruleCodec.Faithful() && GoodStore(codec, store)
      requires r.Transfer? && r.amount.Some? ==> codec.isNumber(r.amount.value)
      modifies this
      ensures GoodStore(codec, store) && InForce(LoadedRules(ruleCodec, store)) == InForce(LoadedRules(ruleCodec, old(store)))
      ensures Loaded(codec, old(store)).Some? ==> Loaded(codec, old(store)).value != []
      ensures Loaded(codec, store) == After(codec, test, InForce(LoadedRules(ruleCodec, old(store))), Loaded(codec, old(store)), r)
    {
      StoredIsNotEmpty();
      hide GoodStore, Loaded, Codec.Faithful, TransferFits, NextId, StartOf, Grown, TransactionOf;
      match r {
        case Transfer(notation, source, destination, amount, currency, now) =>
          var id := AddTransaction(notation, source, destination, amount, currency, now);
        case Restart(c) =>
          counter := c;
      }
    }

    /**
     * Any run of transfers and restarts, from any store without a stored chain or with a good one: the store stays good, so
     * its chain is valid, its ids rise and its transactions are exact transfers; and it has exactly the accepted transfers
     * after the blocks that were there before.
     */
    method Serve(requests: seq<Request>)
      requires codec.Faithful() && ruleCodec.Faithful() && GoodStore(codec, store)
      requires forall i :: 0 <= i < |requests| && requests[i].Transfer? && requests[i].amount.Some?
                           ==> codec.isNumber(requests[i].amount.value)
      modifies this
      ensures GoodStore(codec, store)
      ensures Loaded(codec, old(store)).Some? ==> Loaded(codec, old(store)).value != []
      ensures Loaded(codec, store) == Served(codec, test, InForce(LoadedRules(ruleCodec, old(store))), Loaded(codec, old(store)), requests)
    {
      StoredIsNotEmpty();
      ghost var stored, inForce := Loaded(codec, store), InForce(LoadedRules(ruleCodec, store));
      assert Served(codec, test, inForce, stored, requests[..0]) == stored;
      hide GoodStore, Loaded, Codec.Faithful, Served, After, InForce;
      var i := 0;
      while i < |requests|
        invariant 0 <= i <= |requests| && GoodStore(codec, store) && InForce(LoadedRules(ruleCodec, store)) == inForce
        invariant Loaded(codec, store) == Served(codec, test, inForce, stored, requests[..i])
      {
        ServeOne(requests[i]);
        OneMoreRequest(stored, inForce, requests, i);
        i := i + 1;
      }
      assert requests[..i] == requests;
    }
  }
}
