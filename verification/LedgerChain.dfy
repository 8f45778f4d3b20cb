/** Transactions, blocks and the hash chain. */
module LedgerChain {
  import opened Options
  import opened LedgerIds

  datatype Amount = Amount(value: real, unit: string)

  datatype Posting = Posting(account: string, amount: Amount, kind: string)

  /** A transaction with what rules may add to it. */
  datatype Transaction = Transaction(
    id: string, notation: string, source: string, destination: string, ruleId: Option<string>,
    postings: seq<Posting>, timestamp: string,
    tags: seq<string>, category: string, notes: string, requiresApproval: bool, appliedRules: seq<string>)

  datatype Block = Block(index: int, previousHash: string, transactions: seq<Transaction>, timestamp: string, hash: string)

  type Chain = seq<Block>

  /**
   * The hash function and JSON: how the hashed part of a block and a whole block are written, and how a block is read.
   * `isNumber` tells the reals that are numbers of the language; nothing is asked of amounts that are not.
   */
  datatype Codec = Codec(
    isNumber: real -> bool,
    hash: string -> string,
    hashed: (int, string, seq<Transaction>, string) -> string,
    write: Block -> string,
    read: string -> Block)
  {
    predicate PlainPostings(ps: seq<Posting>) { forall i :: 0 <= i < |ps| ==> isNumber(ps[i].amount.value) }

    /** Transactions whose amounts are numbers. */
    predicate Plain(txs: seq<Transaction>) { forall i :: 0 <= i < |txs| ==> PlainPostings(txs[i].postings) }

    predicate PlainChain(chain: Chain) { forall i :: 0 <= i < |chain| ==> Plain(chain[i].transactions) }

    /** JSON loses nothing, and no block is written as the empty string. */
    ghost predicate Faithful() {
      forall b: Block :: Plain(b.transactions) ==> write(b) != "" && read(write(b)) == b
    }

    /** Different contents have different texts, and different texts different hashes. */
    ghost predicate CollisionFree() {
      && (forall s: string, t: string :: hash(s) == hash(t) ==> s == t)
      && (forall i: int, p: string, x: seq<Transaction>, t: string, j: int, q: string, y: seq<Transaction>, u: string ::
            Plain(x) && Plain(y) && hashed(i, p, x, t) == hashed(j, q, y, u) ==> i == j && p == q && x == y && t == u)
    }

    function HashOf(b: Block): string { hash(hashed(b.index, b.previousHash, b.transactions, b.timestamp)) }

    /** A block follows the one before it and has the hash of its contents. */
    predicate Follows(prev: Block, cur: Block) {
      cur.index == prev.index + 1 && cur.previousHash == prev.hash && cur.hash == HashOf(cur)
    }

    predicate ValidChain(chain: Chain) {
      && chain != [] && chain[0].index == 0 && chain[0].previousHash == "0"
      && forall i :: 1 <= i < |chain| ==> Follows(chain[i - 1], chain[i])
    }

    function NewBlock(index: int, previousHash: string, transactions: seq<Transaction>, now: string): Block {
      Block(index, previousHash, transactions, now, hash(hashed(index, previousHash, transactions, now)))
    }

    lemma {:induction false} IndexIsPosition(chain: Chain, i: nat)
      requires ValidChain(chain) && i < |chain|
      ensures chain[i].index == i
    {
      if i > 0 {
        IndexIsPosition(chain, i - 1);
        assert Follows(chain[i - 1], chain[i]);
      }
    }

    /** Equal hashes at one position: equal blocks there and equal hashes one position before. */
    lemma SameHashSameBlock(a: Chain, b: Chain, i: nat)
      requires CollisionFree() && ValidChain(a) && ValidChain(b) && PlainChain(a) && PlainChain(b) && 1 <= i < |a| && i < |b|
      requires a[i].hash == b[i].hash
      ensures a[i] == b[i] && a[i - 1].hash == b[i - 1].hash
    {
      assert Follows(a[i - 1], a[i]) && Follows(b[i - 1], b[i]);
      assert HashOf(a[i]) == HashOf(b[i]);
    }

    lemma {:induction false} SameHashSamePast(a: Chain, b: Chain, i: nat)
      requires CollisionFree() && ValidChain(a) && ValidChain(b) && PlainChain(a) && PlainChain(b) && i < |a| && i < |b|
      requires a[i].hash == b[i].hash
      ensures a[1..i + 1] == b[1..i + 1] && a[0].hash == b[0].hash
      decreases i
    {
      if i > 0 {
        SameHashSameBlock(a, b, i);
        SameHashSamePast(a, b, i - 1);
        assert a[1..i + 1] == a[1..i] + [a[i]] && b[1..i + 1] == b[1..i] + [b[i]];
      }
    }

    /**
     * Two valid chains of at least two blocks with the same last hash have the same length, the same blocks after the
     * genesis block, and the same genesis hash.
     */
    lemma TamperEvidence(a: Chain, b: Chain)
      requires CollisionFree() && ValidChain(a) && ValidChain(b) && PlainChain(a) && PlainChain(b) && |a| >= 2 && |b| >= 2
      requires a[|a| - 1].hash == b[|b| - 1].hash
      ensures |a| == |b| && a[1..] == b[1..] && a[0].hash == b[0].hash
    {
      var x, y := a[|a| - 1], b[|b| - 1];
      assert Follows(a[|a| - 2], x) && Follows(b[|b| - 2], y);
      assert HashOf(x) == HashOf(y);
      IndexIsPosition(a, |a| - 1);
      IndexIsPosition(b, |b| - 1);
      SameHashSamePast(a, b, |a| - 1);
    }

    /** Under the same hypotheses the chains are the same exactly when their genesis blocks are. */
    lemma SameChainIff(a: Chain, b: Chain)
      requires CollisionFree() && ValidChain(a) && ValidChain(b) && PlainChain(a) && PlainChain(b) && |a| >= 2 && |b| >= 2
      requires a[|a| - 1].hash == b[|b| - 1].hash
      ensures a == b <==> a[0] == b[0]
      ensures a[0] == b[0] <==> a[0].transactions == b[0].transactions && a[0].timestamp == b[0].timestamp
    {
      TamperEvidence(a, b);
      assert a == [a[0]] + a[1..] && b == [b[0]] + b[1..];
    }

    /** What the check leaves out: other transactions in the genesis block under the same hash pass as well. */
    lemma GenesisIsNotCovered(chain: Chain, transactions: seq<Transaction>, timestamp: string)
      requires ValidChain(chain)
      ensures ValidChain(chain[0 := chain[0].(transactions := transactions, timestamp := timestamp)])
    {
      var other := chain[0 := chain[0].(transactions := transactions, timestamp := timestamp)];
      forall i | 1 <= i < |other| ensures Follows(other[i - 1], other[i]) {
        assert Follows(chain[i - 1], chain[i]);
      }
    }

    lemma NewBlockFollows(chain: Chain, transactions: seq<Transaction>, now: string)
      requires ValidChain(chain)
      ensures var last := chain[|chain| - 1];
              ValidChain(chain + [NewBlock(last.index + 1, last.hash, transactions, now)])
    {
      var last := chain[|chain| - 1];
      var longer := chain + [NewBlock(last.index + 1, last.hash, transactions, now)];
      forall i | 1 <= i < |longer| ensures Follows(longer[i - 1], longer[i]) {
        if i < |chain| { assert Follows(chain[i - 1], chain[i]); }
      }
    }

    // ---- Storage --------------------------------------------------------------------------------------------------------

    function BlockKey(i: nat): string { "chain:block:" + Decimals.Text(i) }
  }

  import Decimals

  const LENGTH_KEY := "chain:length"

  type Store = map<string, string>

  /** kvGet: '' for a missing key. */
  function Fetch(store: Store, key: string): string { if key in store then store[key] else "" }

  lemma KeysDiffer(codec: Codec, i: nat, j: nat)
    ensures codec.BlockKey(i) != LENGTH_KEY
    ensures codec.BlockKey(i) == codec.BlockKey(j) ==> i == j
  {
    assert codec.BlockKey(i)[6] == 'b' && LENGTH_KEY[6] == 'l';
    if codec.BlockKey(i) == codec.BlockKey(j) {
      assert codec.BlockKey(i)[12..] == Decimals.Text(i) && codec.BlockKey(j)[12..] == Decimals.Text(j);
      Decimals.TextIsInjective(i, j);
    }
  }

  /** The store after the first n blocks of a chain are put. */
  function BlocksPut(codec: Codec, store: Store, chain: Chain, n: nat): Store
    requires n <= |chain|
  {
    if n == 0 then store else BlocksPut(codec, store, chain, n - 1)[codec.BlockKey(n - 1) := codec.write(chain[n - 1])]
  }

  function Saved(codec: Codec, store: Store, chain: Chain): Store {
    BlocksPut(codec, store[LENGTH_KEY := Decimals.Text(|chain|)], chain, |chain|)
  }

  /** The first n blocks, if all of them are there. */
  function BlocksGot(codec: Codec, store: Store, n: nat): Option<Chain> {
    if n == 0 then Some([])
    else
      var before := BlocksGot(codec, store, n - 1);
      var s := Fetch(store, codec.BlockKey(n - 1));
      if before.None? || s == "" then None else Some(before.value + [codec.read(s)])
  }

  function Loaded(codec: Codec, store: Store): Option<Chain> {
    var text := Fetch(store, LENGTH_KEY);
    var length := ParseInt(if text == "" then "0" else text);
    if length.None? || length.value == 0 then None
    else if length.value < 0 then Some([])
    else BlocksGot(codec, store, length.value)
  }

  lemma {:induction false} PutIsThere(codec: Codec, store: Store, chain: Chain, n: nat, i: nat)
    requires i < n <= |chain|
    ensures Fetch(BlocksPut(codec, store, chain, n), codec.BlockKey(i)) == codec.write(chain[i])
    decreases n
  {
    if i < n - 1 {
      PutIsThere(codec, store, chain, n - 1, i);
      KeysDiffer(codec, i, n - 1);
    }
  }

  lemma {:induction false} PutElsewhere(codec: Codec, store: Store, chain: Chain, n: nat, key: string)
    requires n <= |chain| && forall i: nat :: i < n ==> codec.BlockKey(i) != key
    ensures (key in BlocksPut(codec, store, chain, n)) == (key in store)
    ensures Fetch(BlocksPut(codec, store, chain, n), key) == Fetch(store, key)
  {
    if n > 0 { PutElsewhere(codec, store, chain, n - 1, key); }
  }

  lemma {:induction false} GotIsPut(codec: Codec, store: Store, chain: Chain, n: nat)
    requires codec.Faithful() && codec.PlainChain(chain) && n <= |chain|
    requires forall i :: 0 <= i < n ==> Fetch(store, codec.BlockKey(i)) == codec.write(chain[i])
    ensures BlocksGot(codec, store, n) == Some(chain[..n])
  {
    if n > 0 {
      GotIsPut(codec, store, chain, n - 1);
      assert chain[..n] == chain[..n - 1] + [chain[n - 1]];
    } else {
      assert chain[..0] == [];
    }
  }

  /** A saved chain is loaded as it was, whatever the store held before, also longer chains. */
  lemma LoadAfterSave(codec: Codec, store: Store, chain: Chain)
    requires codec.Faithful() && codec.PlainChain(chain) && chain != []
    ensures Loaded(codec, Saved(codec, store, chain)) == Some(chain)
    ensures forall key: string :: key != LENGTH_KEY && (forall i: nat :: codec.BlockKey(i) != key)
                                  ==> Fetch(Saved(codec, store, chain), key) == Fetch(store, key)
  {
    hide Decimals.Text, ParseInt;
    var n := |chain|;
    var before := store[LENGTH_KEY := Decimals.Text(n)];
    var after := Saved(codec, store, chain);
    forall i: nat ensures codec.BlockKey(i) != LENGTH_KEY { KeysDiffer(codec, i, i); }
    PutElsewhere(codec, before, chain, n, LENGTH_KEY);
    NumberOfText(n);
    forall i | 0 <= i < n ensures Fetch(after, codec.BlockKey(i)) == codec.write(chain[i]) {
      PutIsThere(codec, before, chain, n, i);
    }
    GotIsPut(codec, after, chain, n);
    assert chain[..n] == chain;
    forall key: string | key != LENGTH_KEY && forall i: nat :: codec.BlockKey(i) != key
      ensures Fetch(after, key) == Fetch(store, key)
    {
      PutElsewhere(codec, before, chain, n, key);
    }
  }
}
