/**
 The items that checkBlockScripts (pkg/blockchain/scriptval.go) hands to the concurrent validator, and what its
 verdict says of the block.
 */
module BlockScripts {
  import opened Wire
  import opened Ledger
  import opened Validate
  import ScriptVal

  /** Input `input` of transaction `tx` of the block. */
  datatype Item = Item(tx: nat, input: nat)

  /** The verdict of the script engine on an input of a transaction. */
  type Engine = (Tx, nat) -> bool

  /** The first `j` inputs of transaction `t`, without those that name the index of a coinbase. */
  function TxItems(txs: seq<Tx>, t: nat, j: nat): seq<Item>
    requires t < |txs| && j <= |txs[t].ins|
  {
    if j == 0 then []
    else TxItems(txs, t, j - 1) + if txs[t].ins[j-1].prev.index == MAX_INDEX then [] else [Item(t, j - 1)]
  }

  function Items(txs: seq<Tx>, k: nat): seq<Item>
    requires k <= |txs|
  {
    if k == 0 then [] else Items(txs, k - 1) + TxItems(txs, k - 1, |txs[k-1].ins|)
  }

  method CollectItems(txs: seq<Tx>) returns (items: seq<Item>)
    ensures items == Items(txs, |txs|)
  {
    items := [];
    var t := 0;
    while t < |txs|
      invariant 0 <= t <= |txs| && items == Items(txs, t)
    {
      var j := 0;
      while j < |txs[t].ins|
        invariant 0 <= j <= |txs[t].ins| && items == Items(txs, t) + TxItems(txs, t, j)
      {
        if txs[t].ins[j].prev.index != MAX_INDEX {
          items := items + [Item(t, j)];
        }
        j := j + 1;
      }
      t := t + 1;
    }
  }

  predicate Listed(txs: seq<Tx>, it: Item) {
    it.tx < |txs| && it.input < |txs[it.tx].ins| && txs[it.tx].ins[it.input].prev.index != MAX_INDEX
  }

  lemma {:induction false} TxItemsAre(txs: seq<Tx>, t: nat, j: nat, it: Item)
    requires t < |txs| && j <= |txs[t].ins|
    ensures it in TxItems(txs, t, j) <==> it.tx == t && it.input < j && Listed(txs, it)
  {
    if j > 0 {
      TxItemsAre(txs, t, j - 1, it);
    }
  }

  lemma ListedInput(txs: seq<Tx>, it: Item)
    ensures Listed(txs, it) ==> it.tx < |txs| && it.input < |txs[it.tx].ins|
  {
  }

  lemma {:induction false} ItemsAre(txs: seq<Tx>, k: nat, it: Item)
    requires k <= |txs|
    ensures it in Items(txs, k) <==> it.tx < k && Listed(txs, it)
  {
    if k > 0 {
      hide Listed, TxItems;
      ItemsAre(txs, k - 1, it);
      TxItemsAre(txs, k - 1, |txs[k-1].ins|, it);
      assert Listed(txs, it) && it.tx == k - 1 ==> it.input < |txs[k-1].ins| by {
        ListedInput(txs, it);
      }
    }
  }

  predicate InOrder(a: Item, b: Item) {
    a.tx < b.tx || (a.tx == b.tx && a.input < b.input)
  }

  ghost predicate Sorted(items: seq<Item>) {
    forall i, j :: 0 <= i < j < |items| ==> InOrder(items[i], items[j])
  }

  lemma {:induction false} TxItemsSorted(txs: seq<Tx>, t: nat, j: nat)
    requires t < |txs| && j <= |txs[t].ins|
    ensures Sorted(TxItems(txs, t, j)) && forall it :: it in TxItems(txs, t, j) ==> it.tx == t && it.input < j
  {
    if j > 0 {
      TxItemsSorted(txs, t, j - 1);
    }
  }

  /** The items come transaction by transaction and input by input, each once. */
  lemma {:induction false} ItemsSorted(txs: seq<Tx>, k: nat)
    requires k <= |txs|
    ensures Sorted(Items(txs, k)) && forall it :: it in Items(txs, k) ==> it.tx < k
  {
    if k > 0 {
      hide TxItems;
      ItemsSorted(txs, k - 1);
      TxItemsSorted(txs, k - 1, |txs[k-1].ins|);
      var a, b := Items(txs, k - 1), TxItems(txs, k - 1, |txs[k-1].ins|);
      forall i, j | 0 <= i < j < |a + b| ensures InOrder((a + b)[i], (a + b)[j]) {
        if i < |a| <= j {
          assert a[i] in a && b[j-|a|] in b;
        }
      }
      forall it | it in a + b ensures it.tx < k {
      }
    }
  }

  /** No output has the index that marks a coinbase. */
  ghost predicate PlainIndexes(u: Utxos, txs: seq<Tx>) {
    (forall o :: o in u ==> o.index != MAX_INDEX) && forall t :: 0 <= t < |txs| ==> |txs[t].outs| <= MAX_INDEX
  }

  lemma {:induction false} IndexesStayPlain(u: Utxos, txs: seq<Tx>, height: int, k: nat, o: OutPoint)
    requires PlainIndexes(u, txs) && k <= |txs| && o in ApplyTxs(u, txs, height, k)
    ensures o.index != MAX_INDEX
  {
    if k > 0 {
      ApplyTxLookup(ApplyTxs(u, txs, height, k - 1), txs[k-1], height, o);
      if !Creates(txs[k-1], |txs[k-1].outs|, o) {
        IndexesStayPlain(u, txs, height, k - 1, o);
      }
    }
  }

  /** Of a block that spends available coins, exactly the inputs it really spends are listed. */
  lemma ListedIffSpent(u: Utxos, txs: seq<Tx>, height: int, it: Item)
    requires PlainIndexes(u, txs) && AllSpendable(u, txs, height, |txs|)
    ensures Listed(txs, it) <==> it.tx < |txs| && it.input < |Spends(txs[it.tx])|
  {
    if it.tx < |txs| && it.input < |Spends(txs[it.tx])| {
      assert SpendableAt(u, txs, height, it.tx);
      IndexesStayPlain(u, txs, height, it.tx, txs[it.tx].ins[it.input].prev);
    }
  }

  /** Every script of the inputs that the block spends passes. */
  ghost predicate ScriptsPass(txs: seq<Tx>, fails: Engine) {
    forall t: nat, j: nat :: t < |txs| && j < |Spends(txs[t])| ==> !fails(txs[t], j)
  }

  /** The verdict on item `i` of the list. */
  function ItemFails(txs: seq<Tx>, items: seq<Item>, fails: Engine, i: nat): bool {
    i < |items| && items[i].tx < |txs| && fails(txs[items[i].tx], items[i].input)
  }

  /** The list holds exactly the inputs that the block spends. */
  lemma ItemsAreSpends(u: Utxos, txs: seq<Tx>, height: int, it: Item)
    requires PlainIndexes(u, txs) && AllSpendable(u, txs, height, |txs|)
    ensures it in Items(txs, |txs|) <==> it.tx < |txs| && it.input < |Spends(txs[it.tx])|
  {
    ItemsAre(txs, |txs|, it);
    ListedIffSpent(u, txs, height, it);
  }

  ghost predicate NoneFails(txs: seq<Tx>, items: seq<Item>, fails: Engine) {
    forall i: nat :: i < |items| ==> !ItemFails(txs, items, fails, i)
  }

  lemma NoItemFails(u: Utxos, txs: seq<Tx>, height: int, fails: Engine)
    requires PlainIndexes(u, txs) && AllSpendable(u, txs, height, |txs|)
    ensures NoneFails(txs, Items(txs, |txs|), fails) <==> ScriptsPass(txs, fails)
  {
    hide PlainIndexes, AllSpendable, Items;
    var items := Items(txs, |txs|);
    if NoneFails(txs, items, fails) {
      forall t: nat, j: nat | t < |txs| && j < |Spends(txs[t])| ensures !fails(txs[t], j) {
        ItemsAreSpends(u, txs, height, Item(t, j));
        var i: nat :| i < |items| && items[i] == Item(t, j);
        assert !ItemFails(txs, items, fails, i);
      }
    } else {
      var i: nat :| i < |items| && ItemFails(txs, items, fails, i);
      ItemsAreSpends(u, txs, height, items[i]);
    }
  }

  /**
   The script verdict of the block rules is what the concurrent validator returns: whatever the interleaving, once no
   step is left the result is nil exactly when the block's scripts pass.
   */
  lemma ScriptVerdict(u: Utxos, b: Block, rules: Rules, fails: Engine, cpus: int, steps: seq<ScriptVal.Step>)
    requires PlainIndexes(u, b.txs) && AllSpendable(u, b.txs, b.height, |b.txs|)
    requires rules.scriptsOk(b) <==> ScriptsPass(b.txs, fails)
    requires ScriptVal.IsRun(StartOf(b.txs, cpus), |Items(b.txs, |b.txs|)|, FailsOf(b.txs, fails), steps)
    ensures var s := ScriptVal.RunEnd(StartOf(b.txs, cpus), |Items(b.txs, |b.txs|)|, FailsOf(b.txs, fails), steps);
      (forall step :: !ScriptVal.Enabled(s, |Items(b.txs, |b.txs|)|, step)) ==> (s.verdict.Passed? <==> rules.scriptsOk(b))
  {
    hide PlainIndexes, AllSpendable, Items, ScriptsPass, ScriptVal.Enabled, ScriptVal.IsRun, ScriptVal.RunEnd;
    NoItemFails(u, b.txs, b.height, fails);
    ScriptVal.EveryInterleaving(|Items(b.txs, |b.txs|)|, cpus, FailsOf(b.txs, fails), steps);
    assert forall i: nat :: ItemFails(b.txs, Items(b.txs, |b.txs|), fails, i) == FailsOf(b.txs, fails)(i);
  }

  function FailsOf(txs: seq<Tx>, fails: Engine): nat -> bool {
    (i: nat) => ItemFails(txs, Items(txs, |txs|), fails, i)
  }

  function StartOf(txs: seq<Tx>, cpus: int): ScriptVal.State {
    ScriptVal.Init(|Items(txs, |txs|)|, cpus)
  }
}
