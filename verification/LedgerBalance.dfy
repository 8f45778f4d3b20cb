/** Balances: what every created transaction adds up to over all accounts. */
module LedgerBalance {
  import opened Bytes
  import opened Options
  import opened LedgerIds
  import opened LedgerChain
  import opened LedgerRules

  /** The tolerance of the balance check. */
  const TOLERANCE := 0.001

  function CreditTotal(postings: seq<Posting>): real {
    if postings == [] then 0.0
    else
      var p := postings[|postings| - 1];
      CreditTotal(postings[..|postings| - 1]) + (if p.kind == "credit" then p.amount.value else 0.0)
  }

  function Abs(x: real): real { if x < 0.0 then -x else x }

  /** trim() === '' */
  predicate IsBlank(s: string) { forall i :: 0 <= i < |s| ==> IsSpace(s[i]) }

  /** The two kinds that createPosting lets through; createTransaction asks only that there is a kind. */
  const SIDES := {"debit", "credit"}

  predicate Sided(ps: seq<Posting>) { forall i :: 0 <= i < |ps| ==> ps[i].kind in SIDES }

  /** What a posting of any other kind is worth: it enters neither total, and balances take it for a credit. */
  function OtherTotal(ps: seq<Posting>): real {
    if ps == [] then 0.0
    else
      var p := ps[|ps| - 1];
      OtherTotal(ps[..|ps| - 1]) + (if p.kind in SIDES then 0.0 else p.amount.value)
  }

  predicate OneCurrency(ps: seq<Posting>) { forall i :: 0 <= i < |ps| ==> ps[i].amount.unit == ps[0].amount.unit }

  predicate Balanced(ps: seq<Posting>) {
    ps != [] && OneCurrency(ps) && Abs(DebitTotal(ps) - CreditTotal(ps)) <= TOLERANCE
  }

  /** The checks of createTransaction on its postings. */
  predicate PostingsPass(ps: seq<Posting>) {
    (forall i :: 0 <= i < |ps| ==> ps[i].account != "" && ps[i].kind != "") && Balanced(ps)
  }

  // ---- Balances ---------------------------------------------------------------------------------------------------------------

  function Signed(p: Posting): real { if p.kind == "debit" then p.amount.value else -p.amount.value }

  type Balances = map<string, real>

  function At(b: Balances, currency: string): real { if currency in b then b[currency] else 0.0 }

  function PostingsAdded(b: Balances, ps: seq<Posting>, account: string): Balances {
    if ps == [] then b
    else
      var before := PostingsAdded(b, ps[..|ps| - 1], account);
      var p := ps[|ps| - 1];
      if p.account == account then before[p.amount.unit := At(before, p.amount.unit) + Signed(p)] else before
  }

  /** `included` tells the timestamps that are not after the cutoff. */
  function TransactionsAdded(b: Balances, txs: seq<Transaction>, account: string, included: string -> bool): Balances {
    if txs == [] then b
    else
      var before := TransactionsAdded(b, txs[..|txs| - 1], account, included);
      var tx := txs[|txs| - 1];
      if included(tx.timestamp) then PostingsAdded(before, tx.postings, account) else before
  }

  function Balance(chain: Chain, account: string, included: string -> bool): Balances {
    if chain == [] then map[]
    else
      var before := Balance(chain[..|chain| - 1], account, included);
      var block := chain[|chain| - 1];
      if block.index == 0 then before else TransactionsAdded(before, block.transactions, account, included)
  }

  // ---- The same over all accounts -----------------------------------------------------------------------------------------------

  function Net(ps: seq<Posting>, currency: string): real {
    if ps == [] then 0.0
    else
      var p := ps[|ps| - 1];
      Net(ps[..|ps| - 1], currency) + (if p.amount.unit == currency then Signed(p) else 0.0)
  }

  function NetOf(txs: seq<Transaction>, currency: string, included: string -> bool): real {
    if txs == [] then 0.0
    else
      var tx := txs[|txs| - 1];
      NetOf(txs[..|txs| - 1], currency, included) + (if included(tx.timestamp) then Net(tx.postings, currency) else 0.0)
  }

  function ChainNet(chain: Chain, currency: string, included: string -> bool): real {
    if chain == [] then 0.0
    else
      var block := chain[|chain| - 1];
      ChainNet(chain[..|chain| - 1], currency, included)
      + (if block.index == 0 then 0.0 else NetOf(block.transactions, currency, included))
  }

  function Counted(txs: seq<Transaction>, included: string -> bool): nat {
    if txs == [] then 0
    else Counted(txs[..|txs| - 1], included) + (if included(txs[|txs| - 1].timestamp) then 1 else 0)
  }

  function ChainCounted(chain: Chain, included: string -> bool): nat {
    if chain == [] then 0
    else
      ChainCounted(chain[..|chain| - 1], included)
      + (if chain[|chain| - 1].index == 0 then 0 else Counted(chain[|chain| - 1].transactions, included))
  }

  predicate Distinct(accounts: seq<string>) { forall i, j :: 0 <= i < j < |accounts| ==> accounts[i] != accounts[j] }

  /** Every posting of a list is on one of the accounts. */
  predicate Covered(ps: seq<Posting>, accounts: seq<string>) { forall i :: 0 <= i < |ps| ==> ps[i].account in accounts }

  predicate AllCovered(txs: seq<Transaction>, accounts: seq<string>) {
    forall i :: 0 <= i < |txs| ==> Covered(txs[i].postings, accounts)
  }

  predicate ChainCovered(chain: Chain, accounts: seq<string>) {
    forall i :: 0 <= i < |chain| && chain[i].index != 0 ==> AllCovered(chain[i].transactions, accounts)
  }

  /** What one posting adds to the balances of a list of accounts, summed: itself, if its account is among them. */
  function SumOver(accounts: seq<string>, amount: string -> real): real {
    if accounts == [] then 0.0 else SumOver(accounts[..|accounts| - 1], amount) + amount(accounts[|accounts| - 1])
  }

  lemma {:induction false} SumOfOne(accounts: seq<string>, account: string, value: real)
    requires Distinct(accounts)
    ensures SumOver(accounts, a => if a == account then value else 0.0) == if account in accounts then value else 0.0
  {
    if accounts != [] {
      var init, last := accounts[..|accounts| - 1], accounts[|accounts| - 1];
      SumOfOne(init, account, value);
      assert accounts == init + [last];
      assert last !in init;
    }
  }

  lemma {:induction false} SumAdds(accounts: seq<string>, f: string -> real, g: string -> real, h: string -> real)
    requires forall a :: a in accounts ==> h(a) == f(a) + g(a)
    ensures SumOver(accounts, h) == SumOver(accounts, f) + SumOver(accounts, g)
  {
    if accounts != [] {
      var init, last := accounts[..|accounts| - 1], accounts[|accounts| - 1];
      assert last in accounts && forall a :: a in init ==> a in accounts;
      SumAdds(init, f, g, h);
    }
  }

  /** What postings, transactions or a chain put on one account, in one currency. */
  function PostedOn(ps: seq<Posting>, account: string, currency: string): real {
    if ps == [] then 0.0
    else
      var p := ps[|ps| - 1];
      PostedOn(ps[..|ps| - 1], account, currency) + (if p.account == account && p.amount.unit == currency then Signed(p) else 0.0)
  }

  lemma {:induction false} PostingsAt(b: Balances, ps: seq<Posting>, account: string, currency: string)
    ensures At(PostingsAdded(b, ps, account), currency) == At(b, currency) + PostedOn(ps, account, currency)
  {
    if ps != [] { PostingsAt(b, ps[..|ps| - 1], account, currency); }
  }

  lemma {:induction false} PostingsSum(ps: seq<Posting>, accounts: seq<string>, currency: string)
    requires Distinct(accounts) && Covered(ps, accounts)
    ensures SumOver(accounts, a => PostedOn(ps, a, currency)) == Net(ps, currency)
  {
    var f := a => PostedOn(ps, a, currency);
    if ps == [] {
      SumOfOne(accounts, "", 0.0);
      SumAdds(accounts, a => if a == "" then 0.0 else 0.0, a => if a == "" then 0.0 else 0.0, f);
    } else {
      var init, p := ps[..|ps| - 1], ps[|ps| - 1];
      PostingsSum(init, accounts, currency);
      var value := if p.amount.unit == currency then Signed(p) else 0.0;
      SumOfOne(accounts, p.account, value);
      SumAdds(accounts, a => PostedOn(init, a, currency), a => if a == p.account then value else 0.0, f);
    }
  }

  function BalanceAt(chain: Chain, account: string, included: string -> bool, currency: string): real {
    At(Balance(chain, account, included), currency)
  }

  lemma {:induction false} TransactionsSum(b: string -> Balances, txs: seq<Transaction>, accounts: seq<string>, currency: string,
                                           included: string -> bool)
    requires Distinct(accounts) && AllCovered(txs, accounts)
    ensures SumOver(accounts, a => At(TransactionsAdded(b(a), txs, a, included), currency))
            == SumOver(accounts, a => At(b(a), currency)) + NetOf(txs, currency, included)
  {
    var h := a => At(TransactionsAdded(b(a), txs, a, included), currency);
    if txs == [] {
      SumAdds(accounts, a => At(b(a), currency), a => if a == "" then 0.0 else 0.0, h);
      SumOfOne(accounts, "", 0.0);
    } else {
      var init, tx := txs[..|txs| - 1], txs[|txs| - 1];
      TransactionsSum(b, init, accounts, currency, included);
      var f := a => At(TransactionsAdded(b(a), init, a, included), currency);
      if included(tx.timestamp) {
        PostingsSum(tx.postings, accounts, currency);
        forall a | a in accounts ensures h(a) == f(a) + PostedOn(tx.postings, a, currency) {
          PostingsAt(TransactionsAdded(b(a), init, a, included), tx.postings, a, currency);
        }
        SumAdds(accounts, f, a => PostedOn(tx.postings, a, currency), h);
      } else {
        SumAdds(accounts, f, a => if a == "" then 0.0 else 0.0, h);
        SumOfOne(accounts, "", 0.0);
      }
    }
  }

  /** The balances of all accounts together are what the included transactions put in. */
  lemma {:induction false} BalancesSum(chain: Chain, accounts: seq<string>, currency: string, included: string -> bool)
    requires Distinct(accounts) && ChainCovered(chain, accounts)
    ensures SumOver(accounts, a => BalanceAt(chain, a, included, currency)) == ChainNet(chain, currency, included)
  {
    var h := a => BalanceAt(chain, a, included, currency);
    if chain == [] {
      SumOfOne(accounts, "", 0.0);
      SumAdds(accounts, a => if a == "" then 0.0 else 0.0, a => if a == "" then 0.0 else 0.0, h);
    } else {
      var init, block := chain[..|chain| - 1], chain[|chain| - 1];
      BalancesSum(init, accounts, currency, included);
      var f := a => BalanceAt(init, a, included, currency);
      if block.index == 0 {
        SumOfOne(accounts, "", 0.0);
        SumAdds(accounts, f, a => if a == "" then 0.0 else 0.0, h);
      } else {
        var b := a => Balance(init, a, included);
        TransactionsSum(b, block.transactions, accounts, currency, included);
        Pointwise(accounts, h, a => At(TransactionsAdded(b(a), block.transactions, a, included), currency));
        Pointwise(accounts, f, a => At(b(a), currency));
      }
    }
  }

  lemma {:induction false} Pointwise(accounts: seq<string>, f: string -> real, g: string -> real)
    requires forall a :: a in accounts ==> f(a) == g(a)
    ensures SumOver(accounts, f) == SumOver(accounts, g)
  {
    if accounts != [] {
      var init := accounts[..|accounts| - 1];
      assert accounts[|accounts| - 1] in accounts && forall a :: a in init ==> a in accounts;
      Pointwise(init, f, g);
    }
  }

  // ---- Conservation -----------------------------------------------------------------------------------------------------------------

  lemma {:induction false} NetIsDifference(ps: seq<Posting>, currency: string)
    requires forall i :: 0 <= i < |ps| ==> ps[i].amount.unit == currency
    ensures Net(ps, currency) == DebitTotal(ps) - CreditTotal(ps) - OtherTotal(ps)
  {
    if ps != [] { NetIsDifference(ps[..|ps| - 1], currency); }
  }

  lemma {:induction false} NetElsewhere(ps: seq<Posting>, currency: string)
    requires forall i :: 0 <= i < |ps| ==> ps[i].amount.unit != currency
    ensures Net(ps, currency) == 0.0
  {
    if ps != [] { NetElsewhere(ps[..|ps| - 1], currency); }
  }

  lemma {:induction false} SidedHasNoOthers(ps: seq<Posting>)
    requires Sided(ps)
    ensures OtherTotal(ps) == 0.0
  {
    if ps != [] { SidedHasNoOthers(ps[..|ps| - 1]); }
  }

  /** What the postings of other kinds take out of a currency. */
  function OthersIn(ps: seq<Posting>, currency: string): real {
    if ps != [] && ps[0].amount.unit == currency then OtherTotal(ps) else 0.0
  }

  /** A created transaction misses zero by at most 0.001 once its postings of other kinds are put back. */
  lemma CreatedNet(ps: seq<Posting>, currency: string)
    requires PostingsPass(ps)
    ensures Abs(Net(ps, currency) + OthersIn(ps, currency)) <= TOLERANCE
    ensures Sided(ps) ==> Abs(Net(ps, currency)) <= TOLERANCE
  {
    if ps[0].amount.unit == currency { NetIsDifference(ps, currency); } else { NetElsewhere(ps, currency); }
    if Sided(ps) { SidedHasNoOthers(ps); }
  }

  /** A created transaction that puts an account a whole unit in credit, and nothing anywhere in debit. */
  lemma FeeIsCreated()
    ensures var ps := [Posting("a", Amount(1.0, "USD"), "fee")];
            PostingsPass(ps) && Net(ps, "USD") == -1.0 && Abs(Net(ps, "USD")) > TOLERANCE
  {
    LoneOther("a", "fee", "USD");
  }

  lemma LoneOther(account: string, kind: string, unit: string)
    requires account != "" && kind != "" && kind !in SIDES
    ensures var ps := [Posting(account, Amount(1.0, unit), kind)];
            PostingsPass(ps) && Net(ps, unit) == -1.0
  {
    var ps := [Posting(account, Amount(1.0, unit), kind)];
    assert ps[..0] == [];
    assert DebitTotal(ps) == DebitTotal([]) == 0.0 && CreditTotal(ps) == CreditTotal([]) == 0.0;
    assert Net(ps, unit) == Net([], unit) - 1.0;
  }

  // ---- Which kinds of posting keep a transaction balanced ------------------------------------------------------------------

  /** Accounts and kinds, before any amount is known. */
  type Shape = seq<(string, string)>

  function Filled(shape: Shape, amounts: seq<real>, unit: string): (ps: seq<Posting>)
    requires |amounts| == |shape|
    ensures |ps| == |shape|
  {
    seq(|shape|, i requires 0 <= i < |shape| => Posting(shape[i].0, Amount(amounts[i], unit), shape[i].1))
  }

  /** No amounts are accepted for a shape that leaves an account or a kind out, or that is empty. */
  predicate ShapePasses(shape: Shape) {
    shape != [] && forall i :: 0 <= i < |shape| ==> shape[i].0 != "" && shape[i].1 != ""
  }

  predicate ShapeSided(shape: Shape) { forall i :: 0 <= i < |shape| ==> shape[i].1 in SIDES }

  /** Amounts that createTransaction accepts for the shape net to nearly zero. */
  predicate NetsOut(shape: Shape, amounts: seq<real>, unit: string)
    requires |amounts| == |shape|
  {
    PostingsPass(Filled(shape, amounts, unit)) ==> Abs(Net(Filled(shape, amounts, unit), unit)) <= TOLERANCE
  }

  /**
   * All amounts that createTransaction accepts for given accounts and kinds net to at most 0.001 exactly when each kind is
   * "debit" or "credit" (or when it accepts none, an account or a kind being left out).
   */
  lemma CreatedNetIff(shape: Shape, unit: string)
    ensures (forall amounts: seq<real> :: |amounts| == |shape| ==> NetsOut(shape, amounts, unit))
            <==> (ShapePasses(shape) ==> ShapeSided(shape))
  {
    if ShapePasses(shape) && !ShapeSided(shape) {
      var k :| 0 <= k < |shape| && shape[k].1 !in SIDES;
      OtherKindBreaks(shape, k, unit);
    } else {
      forall amounts: seq<real> | |amounts| == |shape| ensures NetsOut(shape, amounts, unit) {
        var ps := Filled(shape, amounts, unit);
        if PostingsPass(ps) {
          forall i | 0 <= i < |shape| ensures shape[i].0 != "" && shape[i].1 != "" { assert ps[i].account == shape[i].0; }
          CreatedNet(ps, unit);
        }
      }
    }
  }

  /** Amount 1 at a posting of another kind and 0 elsewhere. */
  function OneAt(n: nat, k: nat): (amounts: seq<real>)
    ensures |amounts| == n && forall i :: 0 <= i < n ==> amounts[i] == if i == k then 1.0 else 0.0
  {
    seq(n, i => if i == k then 1.0 else 0.0)
  }

  lemma OtherKindBreaks(shape: Shape, k: nat, unit: string)
    requires ShapePasses(shape) && k < |shape| && shape[k].1 !in SIDES
    ensures !NetsOut(shape, OneAt(|shape|, k), unit)
  {
    var ps := Filled(shape, OneAt(|shape|, k), unit);
    OneAtTotals(ps, k, unit, |ps|);
    assert ps[..|ps|] == ps;
  }

  lemma {:induction false} OneAtTotals(ps: seq<Posting>, k: nat, unit: string, n: nat)
    requires k < |ps| && ps[k].kind !in SIDES && n <= |ps|
    requires forall i :: 0 <= i < |ps| ==> ps[i].amount == Amount(if i == k then 1.0 else 0.0, unit)
    ensures DebitTotal(ps[..n]) == 0.0 && CreditTotal(ps[..n]) == 0.0
    ensures Net(ps[..n], unit) == if k < n then -1.0 else 0.0
  {
    if n > 0 {
      OneAtTotals(ps, k, unit, n - 1);
      assert ps[..n][..n - 1] == ps[..n - 1];
    }
  }

  // ---- Chains of created transactions ----------------------------------------------------------------------------------------

  predicate AllCreated(txs: seq<Transaction>) { forall i :: 0 <= i < |txs| ==> PostingsPass(txs[i].postings) }

  /** Every transaction passed createTransaction. */
  predicate ChainCreated(chain: Chain) { forall i :: 0 <= i < |chain| ==> AllCreated(chain[i].transactions) }

  /** Every posting has one of the kinds. */
  predicate ChainOfKinds(chain: Chain, kinds: set<string>) {
    forall i, j, k :: 0 <= i < |chain| && 0 <= j < |chain[i].transactions| && 0 <= k < |chain[i].transactions[j].postings|
      ==> chain[i].transactions[j].postings[k].kind in kinds
  }

  function OthersOf(txs: seq<Transaction>, currency: string, included: string -> bool): real {
    if txs == [] then 0.0
    else
      var tx := txs[|txs| - 1];
      OthersOf(txs[..|txs| - 1], currency, included) + (if included(tx.timestamp) then OthersIn(tx.postings, currency) else 0.0)
  }

  /** What the included postings of other kinds take out of a currency. */
  function ChainOthers(chain: Chain, currency: string, included: string -> bool): real {
    if chain == [] then 0.0
    else
      var block := chain[|chain| - 1];
      ChainOthers(chain[..|chain| - 1], currency, included)
      + (if block.index == 0 then 0.0 else OthersOf(block.transactions, currency, included))
  }

  lemma {:induction false} NetOfBound(txs: seq<Transaction>, currency: string, included: string -> bool)
    requires AllCreated(txs)
    ensures Abs(NetOf(txs, currency, included) + OthersOf(txs, currency, included)) <= TOLERANCE * Counted(txs, included) as real
  {
    if txs != [] {
      var init := txs[..|txs| - 1];
      NetOfBound(init, currency, included);
      CreatedNet(txs[|txs| - 1].postings, currency);
    }
  }

  lemma {:induction false} ChainNetBound(chain: Chain, currency: string, included: string -> bool)
    requires ChainCreated(chain)
    ensures Abs(ChainNet(chain, currency, included) + ChainOthers(chain, currency, included))
            <= TOLERANCE * ChainCounted(chain, included) as real
  {
    if chain != [] {
      ChainNetBound(chain[..|chain| - 1], currency, included);
      NetOfBound(chain[|chain| - 1].transactions, currency, included);
    }
  }

  /**
   * Over all accounts, for every chain of created transactions: the balances in a currency, with what postings of other
   * kinds took out put back, miss zero by at most 0.001 for each included transaction.
   */
  lemma Conservation(chain: Chain, accounts: seq<string>, currency: string, included: string -> bool)
    requires ChainCreated(chain) && Distinct(accounts) && ChainCovered(chain, accounts)
    ensures Abs(SumOver(accounts, a => BalanceAt(chain, a, included, currency)) + ChainOthers(chain, currency, included))
            <= TOLERANCE * ChainCounted(chain, included) as real
  {
    BalancesSum(chain, accounts, currency, included);
    ChainNetBound(chain, currency, included);
  }

  lemma {:induction false} SidedTakesNothing(txs: seq<Transaction>, currency: string, included: string -> bool)
    requires forall i :: 0 <= i < |txs| ==> Sided(txs[i].postings)
    ensures OthersOf(txs, currency, included) == 0.0
  {
    if txs != [] {
      SidedTakesNothing(txs[..|txs| - 1], currency, included);
      SidedHasNoOthers(txs[|txs| - 1].postings);
    }
  }

  lemma {:induction false} SidedChainTakesNothing(chain: Chain, currency: string, included: string -> bool)
    requires ChainOfKinds(chain, SIDES)
    ensures ChainOthers(chain, currency, included) == 0.0
  {
    if chain != [] {
      SidedChainTakesNothing(chain[..|chain| - 1], currency, included);
      SidedTakesNothing(chain[|chain| - 1].transactions, currency, included);
    }
  }

  /** The balances in a currency of a valid chain of created transactions with these kinds of posting nearly sum to zero. */
  predicate Conserves(codec: Codec, kinds: set<string>, chain: Chain, accounts: seq<string>, currency: string, included: string -> bool) {
    codec.ValidChain(chain) && ChainCreated(chain) && ChainOfKinds(chain, kinds) && Distinct(accounts) && ChainCovered(chain, accounts)
    ==> Abs(SumOver(accounts, a => BalanceAt(chain, a, included, currency))) <= TOLERANCE * ChainCounted(chain, included) as real
  }

  /**
   * Money is conserved on all chains of created transactions whose postings have kinds from a given set, up to 0.001 for
   * each included transaction, exactly when the set has no kind but "debit", "credit" and the refused empty one.
   */
  lemma ConservationIff(codec: Codec, kinds: set<string>)
    ensures (forall chain, accounts, currency, included :: Conserves(codec, kinds, chain, accounts, currency, included))
            <==> kinds <= SIDES + {""}
  {
    if kinds <= SIDES + {""} {
      forall chain, accounts, currency, included ensures Conserves(codec, kinds, chain, accounts, currency, included) {
        hide Conserves;
        SidesConserve(codec, kinds, chain, accounts, currency, included);
      }
    } else {
      hide Conserves;
      var kind :| kind in kinds && kind !in SIDES + {""};
      OtherKindLeaks(codec, kinds, kind);
    }
  }

  lemma SidesConserve(codec: Codec, kinds: set<string>, chain: Chain, accounts: seq<string>, currency: string, included: string -> bool)
    requires kinds <= SIDES + {""}
    ensures Conserves(codec, kinds, chain, accounts, currency, included)
  {
    hide ChainCreated, ChainOfKinds, ChainCovered, BalanceAt, ChainOthers, ChainCounted, Codec.ValidChain;
    if ChainCreated(chain) && ChainOfKinds(chain, kinds) && Distinct(accounts) && ChainCovered(chain, accounts) {
      KindsAreSides(chain, kinds);
      Conservation(chain, accounts, currency, included);
      SidedChainTakesNothing(chain, currency, included);
    }
  }

  lemma KindsAreSides(chain: Chain, kinds: set<string>)
    requires ChainCreated(chain) && ChainOfKinds(chain, kinds) && kinds <= SIDES + {""}
    ensures ChainOfKinds(chain, SIDES)
  {
    forall i, j, k | 0 <= i < |chain| && 0 <= j < |chain[i].transactions| && 0 <= k < |chain[i].transactions[j].postings|
      ensures chain[i].transactions[j].postings[k].kind in SIDES {
      assert AllCreated(chain[i].transactions) && PostingsPass(chain[i].transactions[j].postings);
    }
  }

  /** The chain of a genesis block and a block with one posting of the kind. */
  function LeakyChain(codec: Codec, kind: string): Chain {
    var tx := Transaction("TX_000001", "n", "a", "a", None, [Posting("a", Amount(1.0, "USD"), kind)], "", [], "", "", false, []);
    var genesis := codec.NewBlock(0, "0", [], "");
    [genesis] + [codec.NewBlock(1, genesis.hash, [tx], "")]
  }

  lemma GenesisCountsNothing(block: Block, currency: string, included: string -> bool)
    requires block.index == 0
    ensures ChainNet([block], currency, included) == 0.0 && ChainCounted([block], included) == 0
  {
    assert [block][..0] == [];
    assert ChainCounted([], included) == 0 && ChainNet([], currency, included) == 0.0;
  }

  lemma OtherKindLeaks(codec: Codec, kinds: set<string>, kind: string)
    requires kind in kinds && kind !in SIDES && kind != ""
    ensures !Conserves(codec, kinds, LeakyChain(codec, kind), ["a"], "USD", _ => true)
  {
    var chain, accounts, included := LeakyChain(codec, kind), ["a"], (_: string) => true;
    var txs := chain[1].transactions;
    LoneOther("a", kind, "USD");
    codec.NewBlockFollows([chain[0]], txs, "");
    assert [chain[0]] + [chain[1]] == chain && ["a"][..0] == [];
    BalancesSum(chain, accounts, "USD", included);
    assert txs[..0] == [] && chain[..1][..0] == [];
    assert NetOf(txs, "USD", included) == NetOf([], "USD", included) - 1.0 && Counted(txs, included) == 1;
    assert chain[..1] == [chain[0]];
    GenesisCountsNothing(chain[0], "USD", included);
    assert ChainNet(chain, "USD", included) == -1.0 && ChainCounted(chain, included) == 1;
  }

  /** A credit and a debit of one amount, as bc_addTransaction posts them. */
  predicate IsTransfer(ps: seq<Posting>) {
    |ps| == 2 && ps[0].amount == ps[1].amount && ps[0].kind == "credit" && ps[1].kind == "debit"
    && !IsBlank(ps[0].account) && !IsBlank(ps[1].account)
  }

  predicate AllTransfers(chain: Chain) {
    forall i, j :: 0 <= i < |chain| && 0 <= j < |chain[i].transactions| ==> IsTransfer(chain[i].transactions[j].postings)
  }

  lemma TransferNet(ps: seq<Posting>, currency: string)
    requires IsTransfer(ps)
    ensures Net(ps, currency) == 0.0 && Sided(ps) && Balanced(ps)
  {
    TransferTotals(ps);
    assert Net(ps[..1][..0], currency) == 0.0;
    assert Net(ps[..1], currency) == if ps[0].amount.unit == currency then -ps[0].amount.value else 0.0;
  }

  lemma TransferTotals(ps: seq<Posting>)
    requires IsTransfer(ps)
    ensures DebitTotal(ps) == ps[0].amount.value == CreditTotal(ps)
  {
    assert DebitTotal(ps[..1][..0]) == 0.0 && CreditTotal(ps[..1][..0]) == 0.0;
    assert DebitTotal(ps[..1]) == 0.0 && CreditTotal(ps[..1]) == ps[0].amount.value;
  }

  lemma {:induction false} TransfersNet(txs: seq<Transaction>, currency: string, included: string -> bool)
    requires forall j :: 0 <= j < |txs| ==> IsTransfer(txs[j].postings)
    ensures NetOf(txs, currency, included) == 0.0
  {
    if txs != [] {
      TransfersNet(txs[..|txs| - 1], currency, included);
      TransferNet(txs[|txs| - 1].postings, currency);
    }
  }

  lemma {:induction false} TransferChainNet(chain: Chain, currency: string, included: string -> bool)
    requires AllTransfers(chain)
    ensures ChainNet(chain, currency, included) == 0.0
  {
    if chain != [] {
      TransferChainNet(chain[..|chain| - 1], currency, included);
      TransfersNet(chain[|chain| - 1].transactions, currency, included);
    }
  }

  /** When all transactions come from bc_addTransaction the balances sum to exactly zero. */
  lemma ExactConservation(chain: Chain, accounts: seq<string>, currency: string, included: string -> bool)
    requires AllTransfers(chain) && Distinct(accounts) && ChainCovered(chain, accounts)
    ensures SumOver(accounts, a => BalanceAt(chain, a, included, currency)) == 0.0
  {
    BalancesSum(chain, accounts, currency, included);
    TransferChainNet(chain, currency, included);
  }
}
