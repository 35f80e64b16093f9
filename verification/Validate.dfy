/**
 The money rules of pkg/blockchain/validate.go: transaction sanity, transaction inputs, and the
 connection check of a whole block on a view.  Sums are 64-bit and may wrap; the contracts are about the
 true sums, so they also say that no wrap-around is ever hidden.
 */
module Validate {
  import opened Wire
  import opened Ledger
  import opened Money
  import opened UtxoView
  import opened Viewpoint
  import opened Fetch

  const MAX_SATOSHI: int64 := 21_000_000 * 100_000_000
  const MAX_BLOCK_BASE_SIZE := 1_000_000
  const MIN_COINBASE_SCRIPT := 2
  const MAX_COINBASE_SCRIPT := 100

  datatype RuleError =
    | NoTxInputs | NoTxOutputs | TxTooBig | BadTxOutValue | DuplicateTxInputs | BadCoinbaseScriptLen | BadTxInput
    | MissingTxOut | ImmatureSpend | SpendTooHigh | BadFees | BadCoinbaseValue | TooManySigOps | ScriptFailure

  // ----- CheckTransactionSanity -----

  predicate OutputInRange(out: TxOut) {
    0 <= out.value <= MAX_SATOSHI
  }

  /** What a transaction must satisfy on its own, in exact arithmetic. */
  predicate SaneTx(tx: Tx, size: nat) {
    |tx.ins| > 0 && |tx.outs| > 0 && size <= MAX_BLOCK_BASE_SIZE &&
    (forall i :: 0 <= i < |tx.outs| ==> OutputInRange(tx.outs[i])) && Out(tx) <= MAX_SATOSHI &&
    DistinctInputs(tx.ins) &&
    if IsCoinBase(tx) then MIN_COINBASE_SCRIPT <= |tx.ins[0].sigScript| <= MAX_COINBASE_SCRIPT
    else forall i :: 0 <= i < |tx.ins| ==> !IsNull(tx.ins[i].prev)
  }

  lemma {:induction false} OutSumMonotone(tx: Tx, k: nat, n: nat)
    requires k <= n <= |tx.outs| && forall i :: k <= i < n ==> tx.outs[i].value >= 0
    ensures OutSum(tx, k) <= OutSum(tx, n)
  {
    if k < n {
      OutSumMonotone(tx, k, n - 1);
    }
  }

  method CheckOutputs(tx: Tx) returns (ok: bool)
    ensures ok <==> (forall i :: 0 <= i < |tx.outs| ==> OutputInRange(tx.outs[i])) && Out(tx) <= MAX_SATOSHI
  {
    var total: int64 := 0;
    var i := 0;
    while i < |tx.outs|
      invariant 0 <= i <= |tx.outs| && total == OutSum(tx, i) && 0 <= total <= MAX_SATOSHI
      invariant forall j :: 0 <= j < i ==> OutputInRange(tx.outs[j])
    {
      var satoshi := tx.outs[i].value;
      if satoshi < 0 || satoshi > MAX_SATOSHI {
        return false;
      }
      total := Wrap(total + satoshi);
      if total < 0 || total > MAX_SATOSHI {
        if forall j :: 0 <= j < |tx.outs| ==> OutputInRange(tx.outs[j]) {
          OutSumMonotone(tx, i + 1, |tx.outs|);
        }
        return false;
      }
      i := i + 1;
    }
    ok := true;
  }

  method CheckDuplicateInputs(ins: seq<TxIn>) returns (ok: bool)
    ensures ok <==> DistinctInputs(ins)
  {
    var seen: set<OutPoint> := {};
    var i := 0;
    while i < |ins|
      invariant 0 <= i <= |ins|
      invariant forall o :: o in seen <==> Refers(ins, i, o)
      invariant forall j, k :: 0 <= j < k < i ==> ins[j].prev != ins[k].prev
    {
      if ins[i].prev in seen {
        ghost var j :| 0 <= j < i && ins[j].prev == ins[i].prev;
        assert !InputsDiffer(ins, j, i);
        return false;
      }
      seen := seen + {ins[i].prev};
      i := i + 1;
    }
    ok := true;
  }

  /** The checks come in this order, and the first that fails names the error. */
  method CheckTransactionSanity(tx: Tx, size: nat) returns (e: Option<RuleError>)
    ensures e.None? <==> SaneTx(tx, size)
    ensures e ==
      if |tx.ins| == 0 then Some(NoTxInputs)
      else if |tx.outs| == 0 then Some(NoTxOutputs)
      else if size > 1_000_000 then Some(TxTooBig)
      else if (exists i :: 0 <= i < |tx.outs| && !(0 <= tx.outs[i].value <= 2_100_000_000_000_000)) || Out(tx) > 2_100_000_000_000_000 then
        Some(BadTxOutValue)
      else if exists i, j :: 0 <= i < j < |tx.ins| && tx.ins[i].prev == tx.ins[j].prev then Some(DuplicateTxInputs)
      else if |tx.ins| == 1 && tx.ins[0].prev == OutPoint(0, 0xFFFF_FFFF) then
        if 2 <= |tx.ins[0].sigScript| <= 100 then None else Some(BadCoinbaseScriptLen)
      else if exists i :: 0 <= i < |tx.ins| && tx.ins[i].prev == OutPoint(0, 0xFFFF_FFFF) then Some(BadTxInput)
      else None
  {
    assert forall i, j :: 0 <= i < j < |tx.ins| ==> (InputsDiffer(tx.ins, i, j) <==> tx.ins[i].prev != tx.ins[j].prev);
    if |tx.ins| == 0 {
      return Some(NoTxInputs);
    }
    if |tx.outs| == 0 {
      return Some(NoTxOutputs);
    }
    if size > MAX_BLOCK_BASE_SIZE {
      return Some(TxTooBig);
    }
    var outputsOk := CheckOutputs(tx);
    if !outputsOk {
      return Some(BadTxOutValue);
    }
    var distinct := CheckDuplicateInputs(tx.ins);
    if !distinct {
      return Some(DuplicateTxInputs);
    }
    if IsCoinBase(tx) {
      var slen := |tx.ins[0].sigScript|;
      if slen < MIN_COINBASE_SCRIPT || slen > MAX_COINBASE_SCRIPT {
        return Some(BadCoinbaseScriptLen);
      }
    } else {
      var i := 0;
      while i < |tx.ins|
        invariant 0 <= i <= |tx.ins|
        invariant forall j :: 0 <= j < i ==> !IsNull(tx.ins[j].prev)
      {
        if IsNull(tx.ins[i].prev) {
          return Some(BadTxInput);
        }
        i := i + 1;
      }
    }
    e := None;
  }

  // ----- CheckTransactionInputs -----

  predicate Mature(c: Coin, height: int, maturity: nat) {
    c.coinbase ==> height - c.height >= maturity
  }

  /** What an input needs of the unspent set. */
  predicate InputOk(u: Utxos, o: OutPoint, height: int, maturity: nat) {
    o in u && Mature(u[o], height, maturity) && 0 <= u[o].amount <= MAX_SATOSHI
  }

  /** What a transaction needs of the unspent set, in exact arithmetic. */
  predicate InputsOk(u: Utxos, tx: Tx, height: int, maturity: nat) {
    IsCoinBase(tx) ||
    ((forall i :: 0 <= i < |tx.ins| ==> InputOk(u, tx.ins[i].prev, height, maturity)) &&
     Out(tx) <= InSum(u, tx.ins, |tx.ins|) <= MAX_SATOSHI)
  }

  /** Input `i` is available, mature and in range, and so is the sum of the inputs up to it. */
  predicate FineAt(u: Utxos, ins: seq<TxIn>, height: int, maturity: nat, i: nat)
    requires i < |ins|
  {
    InputOk(u, ins[i].prev, height, maturity) && InSum(u, ins, i + 1) <= MAX_SATOSHI
  }

  predicate FineBelow(u: Utxos, ins: seq<TxIn>, height: int, maturity: nat, i: nat)
    requires i <= |ins|
  {
    forall j :: 0 <= j < i ==> FineAt(u, ins, height, maturity, j)
  }

  /** All inputs before `i` are fine, and `e` is what is wrong with input `i`. */
  predicate WrongAt(u: Utxos, ins: seq<TxIn>, height: int, maturity: nat, i: nat, e: RuleError) {
    i < |ins| && FineBelow(u, ins, height, maturity, i) &&
    var o := ins[i].prev;
    match e
    case MissingTxOut => o !in u
    case ImmatureSpend => o in u && u[o].coinbase && height - u[o].height < maturity
    case BadTxOutValue =>
      o in u && (u[o].coinbase ==> height - u[o].height >= maturity) &&
      (u[o].amount < 0 || u[o].amount > 2_100_000_000_000_000 || InSum(u, ins, i + 1) > 2_100_000_000_000_000)
    case _ => false
  }

  /** Why the inputs of a transaction are refused: the first one that is wrong, or the outputs exceed them all. */
  ghost predicate RefusedFor(u: Utxos, tx: Tx, height: int, maturity: nat, e: RuleError) {
    !IsCoinBase(tx) &&
    ((exists i: nat :: WrongAt(u, tx.ins, height, maturity, i, e)) ||
     (e == SpendTooHigh && FineBelow(u, tx.ins, height, maturity, |tx.ins|) && InSum(u, tx.ins, |tx.ins|) < Out(tx)))
  }

  /** What is refused is not in order, and there is only one reason. */
  lemma OneReason(u: Utxos, tx: Tx, height: int, maturity: nat, e: RuleError)
    requires RefusedFor(u, tx, height, maturity, e)
    ensures !InputsOk(u, tx, height, maturity)
    ensures forall f :: RefusedFor(u, tx, height, maturity, f) ==> f == e
  {
    forall i: nat, j: nat, f | WrongAt(u, tx.ins, height, maturity, i, e) && WrongAt(u, tx.ins, height, maturity, j, f) ensures f == e {
      assert !FineAt(u, tx.ins, height, maturity, i) && !FineAt(u, tx.ins, height, maturity, j);
      assert i <= j && j <= i;
    }
    forall i: nat, f | WrongAt(u, tx.ins, height, maturity, i, f) ensures !FineBelow(u, tx.ins, height, maturity, |tx.ins|) {
      assert !FineAt(u, tx.ins, height, maturity, i);
    }
    if InputsOk(u, tx, height, maturity) {
      AllFine(u, tx, height, maturity);
    }
  }

  lemma AllFine(u: Utxos, tx: Tx, height: int, maturity: nat)
    requires InputsOk(u, tx, height, maturity) && !IsCoinBase(tx)
    ensures FineBelow(u, tx.ins, height, maturity, |tx.ins|) && Out(tx) <= InSum(u, tx.ins, |tx.ins|)
  {
    forall j | 0 <= j < |tx.ins| ensures FineAt(u, tx.ins, height, maturity, j) {
      InSumMonotone(u, tx.ins, j + 1, |tx.ins|);
    }
  }

  /** The view answers for `u` on the inputs of the transaction. */
  predicate AnswersFor(v: Entries, u: Utxos, o: OutPoint) {
    (o in u <==> o in v && v[o].Some? && !v[o].value.spent) && (o in u ==> v[o].value.coin == u[o])
  }

  lemma {:induction false} InSumMonotone(u: Utxos, ins: seq<TxIn>, k: nat, n: nat)
    requires k <= n <= |ins| && forall i :: k <= i < n ==> CoinAt(u, ins[i].prev).amount >= 0
    ensures InSum(u, ins, k) <= InSum(u, ins, n)
  {
    if k < n {
      InSumMonotone(u, ins, k, n - 1);
    }
  }

  lemma {:induction false} OutSumBound(tx: Tx, k: nat)
    requires k <= |tx.outs| && (forall i :: 0 <= i < |tx.outs| ==> OutputInRange(tx.outs[i])) && Out(tx) <= MAX_SATOSHI
    ensures 0 <= OutSum(tx, k) <= MAX_SATOSHI
  {
    OutSumMonotone(tx, 0, k);
    OutSumMonotone(tx, k, |tx.outs|);
  }

  method SumOutputs(tx: Tx) returns (total: int64)
    requires (forall i :: 0 <= i < |tx.outs| ==> OutputInRange(tx.outs[i])) && Out(tx) <= MAX_SATOSHI
    ensures total == Out(tx) && 0 <= total <= MAX_SATOSHI
  {
    total := 0;
    OutSumBound(tx, |tx.outs|);
    var i := 0;
    while i < |tx.outs|
      invariant 0 <= i <= |tx.outs| && total == OutSum(tx, i)
    {
      OutSumBound(tx, i + 1);
      total := Wrap(total + tx.outs[i].value);
      i := i + 1;
    }
  }

  /** The fee of a transaction whose inputs all check out, measured against the set the view answers for. */
  method CheckTransactionInputs(tx: Tx, height: int, v: Entries, maturity: nat, ghost u: Utxos, ghost size: nat)
    returns (r: Result<int64, RuleError>)
    requires SaneTx(tx, size)
    requires forall i :: 0 <= i < |Spends(tx)| ==> AnswersFor(v, u, Spends(tx)[i].prev)
    ensures r.Ok? <==> InputsOk(u, tx, height, maturity)
    ensures r.Ok? ==> r.value == Fee(u, tx) && 0 <= r.value <= MAX_SATOSHI
    ensures r.Err? ==> RefusedFor(u, tx, height, maturity, r.error)
    ensures r == Err(MissingTxOut) <==>
      (!IsCoinBase(tx) && exists i: nat :: i < |tx.ins| && FineBelow(u, tx.ins, height, maturity, i) && tx.ins[i].prev !in u)
    ensures r == Err(ImmatureSpend) <==>
      (!IsCoinBase(tx) && exists i: nat ::
        i < |tx.ins| && FineBelow(u, tx.ins, height, maturity, i) && tx.ins[i].prev in u &&
        u[tx.ins[i].prev].coinbase && height - u[tx.ins[i].prev].height < maturity)
    ensures r == Err(BadTxOutValue) <==>
      (!IsCoinBase(tx) && exists i: nat ::
        i < |tx.ins| && FineBelow(u, tx.ins, height, maturity, i) && tx.ins[i].prev in u &&
        (u[tx.ins[i].prev].coinbase ==> height - u[tx.ins[i].prev].height >= maturity) &&
        (u[tx.ins[i].prev].amount < 0 || u[tx.ins[i].prev].amount > 2_100_000_000_000_000 || InSum(u, tx.ins, i + 1) > 2_100_000_000_000_000))
    ensures r == Err(SpendTooHigh) <==>
      (!IsCoinBase(tx) && FineBelow(u, tx.ins, height, maturity, |tx.ins|) && InSum(u, tx.ins, |tx.ins|) < Out(tx))
  {
    if IsCoinBase(tx) {
      return Ok(0);
    }
    r := CheckSpends(tx, height, v, maturity, u, size);
    hide WrongAt, FineBelow, InputsOk;
    if r.Err? {
      OneReason(u, tx, height, maturity, r.error);
    }
    ReasonsRefuse(u, tx, height, maturity);
    Reasons(u, tx, height, maturity);
  }

  lemma ReasonsRefuse(u: Utxos, tx: Tx, height: int, maturity: nat)
    ensures forall e :: RefusedFor(u, tx, height, maturity, e) ==> !InputsOk(u, tx, height, maturity)
  {
    hide RefusedFor, InputsOk;
    forall e | RefusedFor(u, tx, height, maturity, e) ensures !InputsOk(u, tx, height, maturity) {
      OneReason(u, tx, height, maturity, e);
    }
  }

  /** The four reasons, spelt out. */
  lemma Reasons(u: Utxos, tx: Tx, height: int, maturity: nat)
    requires !IsCoinBase(tx)
    ensures RefusedFor(u, tx, height, maturity, MissingTxOut) <==>
      exists i: nat :: i < |tx.ins| && FineBelow(u, tx.ins, height, maturity, i) && tx.ins[i].prev !in u
    ensures RefusedFor(u, tx, height, maturity, ImmatureSpend) <==>
      exists i: nat :: i < |tx.ins| && FineBelow(u, tx.ins, height, maturity, i) && tx.ins[i].prev in u &&
        u[tx.ins[i].prev].coinbase && height - u[tx.ins[i].prev].height < maturity
    ensures RefusedFor(u, tx, height, maturity, BadTxOutValue) <==>
      exists i: nat :: i < |tx.ins| && FineBelow(u, tx.ins, height, maturity, i) && tx.ins[i].prev in u &&
        (u[tx.ins[i].prev].coinbase ==> height - u[tx.ins[i].prev].height >= maturity) &&
        (u[tx.ins[i].prev].amount < 0 || u[tx.ins[i].prev].amount > 2_100_000_000_000_000 || InSum(u, tx.ins, i + 1) > 2_100_000_000_000_000)
    ensures RefusedFor(u, tx, height, maturity, SpendTooHigh) <==>
      FineBelow(u, tx.ins, height, maturity, |tx.ins|) && InSum(u, tx.ins, |tx.ins|) < Out(tx)
  {
    hide FineBelow;
    forall i: nat | i < |tx.ins| && FineBelow(u, tx.ins, height, maturity, i)
      ensures tx.ins[i].prev !in u ==> WrongAt(u, tx.ins, height, maturity, i, MissingTxOut)
    {
    }
    forall i: nat | i < |tx.ins| && FineBelow(u, tx.ins, height, maturity, i) && tx.ins[i].prev in u
      ensures u[tx.ins[i].prev].coinbase && height - u[tx.ins[i].prev].height < maturity ==>
        WrongAt(u, tx.ins, height, maturity, i, ImmatureSpend)
      ensures (u[tx.ins[i].prev].coinbase ==> height - u[tx.ins[i].prev].height >= maturity) &&
        (u[tx.ins[i].prev].amount < 0 || u[tx.ins[i].prev].amount > 2_100_000_000_000_000 || InSum(u, tx.ins, i + 1) > 2_100_000_000_000_000)
        ==> WrongAt(u, tx.ins, height, maturity, i, BadTxOutValue)
    {
    }
  }

  /** The inputs of a transaction that is no coinbase, one after the other. */
  method CheckSpends(tx: Tx, height: int, v: Entries, maturity: nat, ghost u: Utxos, ghost size: nat)
    returns (r: Result<int64, RuleError>)
    requires SaneTx(tx, size) && !IsCoinBase(tx)
    requires forall i :: 0 <= i < |Spends(tx)| ==> AnswersFor(v, u, Spends(tx)[i].prev)
    ensures r.Ok? <==> InputsOk(u, tx, height, maturity)
    ensures r.Ok? ==> r.value == Fee(u, tx) && 0 <= r.value <= MAX_SATOSHI
    ensures r.Err? ==> RefusedFor(u, tx, height, maturity, r.error)
  {
    var totalIn: int64 := 0;
    var i := 0;
    while i < |tx.ins|
      invariant 0 <= i <= |tx.ins| && totalIn == InSum(u, tx.ins, i) && 0 <= totalIn <= MAX_SATOSHI
      invariant FineBelow(u, tx.ins, height, maturity, i)
    {
      var o := tx.ins[i].prev;
      assert AnswersFor(v, u, Spends(tx)[i].prev);
      if o !in v || v[o].None? || v[o].value.spent {
        assert WrongAt(u, tx.ins, height, maturity, i, MissingTxOut);
        OneReason(u, tx, height, maturity, MissingTxOut);
        return Err(MissingTxOut);
      }
      var coin := v[o].value.coin;
      if coin.coinbase && height - coin.height < maturity {
        assert WrongAt(u, tx.ins, height, maturity, i, ImmatureSpend);
        OneReason(u, tx, height, maturity, ImmatureSpend);
        return Err(ImmatureSpend);
      }
      if coin.amount < 0 || coin.amount > MAX_SATOSHI {
        assert WrongAt(u, tx.ins, height, maturity, i, BadTxOutValue);
        OneReason(u, tx, height, maturity, BadTxOutValue);
        return Err(BadTxOutValue);
      }
      var last := totalIn;
      totalIn := Wrap(totalIn + coin.amount);
      if totalIn < last || totalIn > MAX_SATOSHI {
        assert WrongAt(u, tx.ins, height, maturity, i, BadTxOutValue);
        OneReason(u, tx, height, maturity, BadTxOutValue);
        return Err(BadTxOutValue);
      }
      i := i + 1;
    }
    var totalOut := SumOutputs(tx);
    if totalIn < totalOut {
      return Err(SpendTooHigh);
    }
    forall j | 0 <= j < |tx.ins| ensures InputOk(u, tx.ins[j].prev, height, maturity) {
      assert FineAt(u, tx.ins, height, maturity, j);
    }
    r := Ok(Wrap(totalIn - totalOut));
  }

  // ----- checkConnectBlock -----

  /**
   Chain parameters, and the verdicts of the checks whose insides are not modelled.  `find` is the output of a
   transaction that a search of the database by hash meets first.
   */
  datatype Rules = Rules(
    genesis: Hash,
    maturity: nat,
    subsidy: (int, int) -> nat,
    sigOpsOk: Block -> bool,
    coinbaseOk: Block -> bool,
    scriptsOk: Block -> bool,
    size: Tx -> nat,
    find: (Utxos, Hash) -> Option<Coin>)
  {
    function Reward(b: Block): nat {
      subsidy(b.height, b.version)
    }
  }

  /** The block passed checkBlockSanity. */
  predicate SaneBlock(b: Block, rules: Rules) {
    Sane(b.txs) && forall k :: 0 <= k < |b.txs| ==> SaneTxAt(b.txs, rules, k)
  }

  predicate SaneTxAt(txs: seq<Tx>, rules: Rules, k: nat)
    requires k < |txs|
  {
    SaneTx(txs[k], rules.size(txs[k]))
  }

  ghost predicate InputsOkAt(u: Utxos, txs: seq<Tx>, height: int, maturity: nat, k: nat)
    requires k < |txs|
  {
    InputsOk(ApplyTxs(u, txs, height, k), txs[k], height, maturity)
  }

  /** The rules of the block on top of `u`, in exact arithmetic. */
  ghost predicate Accepts(u: Utxos, b: Block, rules: Rules) {
    rules.sigOpsOk(b) && rules.coinbaseOk(b) && rules.scriptsOk(b) && InputsAndFeesOk(u, b, rules) &&
    |b.txs| > 0 && Out(b.txs[0]) <= rules.Reward(b) + FeeSum(u, b.txs, b.height, |b.txs|) < 0x8000_0000_0000_0000
  }

  datatype Verdict = Pass | RuleFailure(error: RuleError) | AssertFailure

  /** The transactions accepted so far spend distinct available coins. */
  lemma AcceptedIsSpendable(u: Utxos, b: Block, rules: Rules, k: nat)
    requires SaneBlock(b, rules) && k < |b.txs| && InputsOkAt(u, b.txs, b.height, rules.maturity, k)
    ensures SpendableAt(u, b.txs, b.height, k)
  {
    assert SaneTxAt(b.txs, rules, k);
    var s, tx := ApplyTxs(u, b.txs, b.height, k), b.txs[k];
    if !IsCoinBase(tx) {
      assert forall i :: 0 <= i < |tx.ins| ==> InputOk(s, tx.ins[i].prev, b.height, rules.maturity);
    }
  }

  lemma AcceptedIsValid(u: Utxos, b: Block, rules: Rules)
    requires SaneBlock(b, rules) && Accepts(u, b, rules)
    ensures BlockValid(u, b, rules.Reward(b))
  {
    forall k | 0 <= k < |b.txs| ensures SpendableAt(u, b.txs, b.height, k) && OutputsNonNegative(b.txs[k]) {
      AcceptedIsSpendable(u, b, rules, k);
      var tx := b.txs[k];
      assert SaneTxAt(b.txs, rules, k);
      assert forall i :: 0 <= i < |tx.outs| ==> OutputInRange(tx.outs[i]);
    }
  }

  lemma {:induction false} FeeSumMonotone(u: Utxos, b: Block, rules: Rules, k: nat, n: nat)
    requires SaneBlock(b, rules) && k <= n <= |b.txs|
    requires forall i :: k <= i < n ==> InputsOkAt(u, b.txs, b.height, rules.maturity, i)
    ensures FeeSum(u, b.txs, b.height, k) <= FeeSum(u, b.txs, b.height, n)
  {
    hide InputsOkAt, FeeAt, SaneBlock;
    if k < n {
      FeeNotNegative(u, b, rules, n - 1);
      FeeSumMonotone(u, b, rules, k, n - 1);
    }
  }

  lemma FeeNotNegative(u: Utxos, b: Block, rules: Rules, k: nat)
    requires SaneBlock(b, rules) && k < |b.txs| && InputsOkAt(u, b.txs, b.height, rules.maturity, k)
    ensures FeeAt(u, b.txs, b.height, k) >= 0
  {
  }

  /** The inputs of the first `k` transactions have been accepted. */
  ghost predicate AcceptedTo(u: Utxos, b: Block, rules: Rules, k: nat) {
    k <= |b.txs| && forall i :: 0 <= i < k ==> InputsOkAt(u, b.txs, b.height, rules.maturity, i)
  }

  lemma AcceptedAllSpendable(u: Utxos, b: Block, rules: Rules, k: nat)
    requires SaneBlock(b, rules) && AcceptedTo(u, b, rules, k)
    ensures AllSpendable(u, b.txs, b.height, k)
  {
    forall i | 0 <= i < k ensures SpendableAt(u, b.txs, b.height, i) {
      AcceptedIsSpendable(u, b, rules, i);
    }
  }

  /** On the way through the block the view answers for the set it stands for on the inputs of transaction `k`. */
  lemma InputsAnswered(v: Entries, db: Utxos, b: Block, rules: Rules, k: nat)
    requires SaneBlock(b, rules) && Synced(v, db) && Complete(v, db, b.txs)
    requires AcceptedTo(Overlay(v, db), b, rules, k) && k < |b.txs|
    ensures forall i :: 0 <= i < |Spends(b.txs[k])| ==>
      AnswersFor(ConnectTxs(v, b.txs, b.height, k), ApplyTxs(Overlay(v, db), b.txs, b.height, k), Spends(b.txs[k])[i].prev)
  {
    hide Complete, AllSpendable, ConnectTxs, ApplyTxs, AcceptedTo, SaneBlock;
    AcceptedAllSpendable(Overlay(v, db), b, rules, k);
    ConnectExact(v, db, b.txs, b.height, k);
    forall i | 0 <= i < |Spends(b.txs[k])|
      ensures AnswersFor(ConnectTxs(v, b.txs, b.height, k), ApplyTxs(Overlay(v, db), b.txs, b.height, k), Spends(b.txs[k])[i].prev)
    {
      InputFound(v, db, b.txs, b.height, k, i);
    }
  }

  lemma AcceptedIsPresent(v: Entries, db: Utxos, b: Block, rules: Rules, k: nat)
    requires SaneBlock(b, rules) && Synced(v, db) && Complete(v, db, b.txs)
    requires AcceptedTo(Overlay(v, db), b, rules, k + 1)
    ensures Present(ConnectTxs(v, b.txs, b.height, k), Spends(b.txs[k]))
  {
    hide Overlay, Synced, Complete, AllSpendable, SaneTxAt, ConnectTxs, ApplyTxs, Spends;
    AcceptedAllSpendable(Overlay(v, db), b, rules, k + 1);
    ConnectExact(v, db, b.txs, b.height, k + 1);
  }

  /** Every transaction's inputs check out and the fees fit in 63 bits. */
  ghost predicate InputsAndFeesOk(u: Utxos, b: Block, rules: Rules) {
    (forall k :: 0 <= k < |b.txs| ==> InputsOkAt(u, b.txs, b.height, rules.maturity, k)) &&
    FeeSum(u, b.txs, b.height, |b.txs|) < 0x8000_0000_0000_0000
  }

  /** The transactions before `k` pass, and `e` is what is wrong with transaction `k`. */
  ghost predicate InputsWrongAt(u: Utxos, b: Block, rules: Rules, k: nat, e: RuleError) {
    k < |b.txs| && AcceptedTo(u, b, rules, k) &&
    (RefusedFor(ApplyTxs(u, b.txs, b.height, k), b.txs[k], b.height, rules.maturity, e) ||
     (e == BadFees && InputsOkAt(u, b.txs, b.height, rules.maturity, k) && FeeSum(u, b.txs, b.height, k + 1) >= 0x8000_0000_0000_0000))
  }

  /** Why a block is refused on `u`: the first check that fails names the error. */
  ghost predicate BlockRefused(u: Utxos, b: Block, rules: Rules, e: RuleError) {
    if !rules.sigOpsOk(b) then e == TooManySigOps
    else if !InputsAndFeesOk(u, b, rules) then exists k: nat :: InputsWrongAt(u, b, rules, k, e)
    else if |b.txs| == 0 || !PaysInLimits(u, b, rules) || !rules.coinbaseOk(b) then e == BadCoinbaseValue
    else !rules.scriptsOk(b) && e == ScriptFailure
  }

  /** The coinbase pays no more than subsidy and fees, which do not wrap. */
  ghost predicate PaysInLimits(u: Utxos, b: Block, rules: Rules)
    requires |b.txs| > 0
  {
    Out(b.txs[0]) <= rules.subsidy(b.height, b.version) + FeeSum(u, b.txs, b.height, |b.txs|) < 0x8000_0000_0000_0000
  }

  lemma InputErrors(u: Utxos, b: Block, rules: Rules, k: nat, e: RuleError)
    requires InputsWrongAt(u, b, rules, k, e)
    ensures e == MissingTxOut || e == ImmatureSpend || e == BadTxOutValue || e == SpendTooHigh || e == BadFees
  {
  }

  lemma InputsRefuse(u: Utxos, b: Block, rules: Rules, e: RuleError)
    requires rules.sigOpsOk(b) && !InputsAndFeesOk(u, b, rules) && exists k: nat :: InputsWrongAt(u, b, rules, k, e)
    ensures BlockRefused(u, b, rules, e)
  {
  }

  /** The verdicts of a block, spelt out; the errors of a transaction's inputs are those of the first one that is wrong. */
  lemma RefusedBecause(u: Utxos, b: Block, rules: Rules, e: RuleError)
    requires |b.txs| > 0
    ensures BlockRefused(u, b, rules, TooManySigOps) <==> !rules.sigOpsOk(b)
    ensures BlockRefused(u, b, rules, BadCoinbaseValue) <==>
      (rules.sigOpsOk(b) && InputsAndFeesOk(u, b, rules) &&
       !(Out(b.txs[0]) <= rules.subsidy(b.height, b.version) + FeeSum(u, b.txs, b.height, |b.txs|) < 0x8000_0000_0000_0000 &&
         rules.coinbaseOk(b)))
    ensures BlockRefused(u, b, rules, ScriptFailure) <==>
      (rules.sigOpsOk(b) && InputsAndFeesOk(u, b, rules) && !rules.scriptsOk(b) && rules.coinbaseOk(b) &&
       Out(b.txs[0]) <= rules.subsidy(b.height, b.version) + FeeSum(u, b.txs, b.height, |b.txs|) < 0x8000_0000_0000_0000)
    ensures e != TooManySigOps && e != BadCoinbaseValue && e != ScriptFailure ==>
      (BlockRefused(u, b, rules, e) <==>
       (rules.sigOpsOk(b) && !InputsAndFeesOk(u, b, rules) && exists k: nat :: InputsWrongAt(u, b, rules, k, e)))
  {
    hide InputsWrongAt, InputsAndFeesOk;
    forall k: nat, f | InputsWrongAt(u, b, rules, k, f) ensures f != TooManySigOps && f != BadCoinbaseValue && f != ScriptFailure {
      InputErrors(u, b, rules, k, f);
    }
  }

  lemma FeeOverflow(u: Utxos, b: Block, rules: Rules, k: nat)
    requires SaneBlock(b, rules) && k < |b.txs|
    requires FeeSum(u, b.txs, b.height, k) + FeeAt(u, b.txs, b.height, k) >= 0x8000_0000_0000_0000
    ensures !InputsAndFeesOk(u, b, rules)
  {
    hide InputsOkAt, FeeAt, SaneBlock;
    if InputsAndFeesOk(u, b, rules) {
      FeeSumMonotone(u, b, rules, k + 1, |b.txs|);
    }
  }

  /** CheckTransactionInputs for transaction `k`, asked of the view as connected so far. */
  method CheckTxAt(w: Entries, ghost v: Entries, ghost db: Utxos, b: Block, rules: Rules, k: nat)
    returns (r: Result<int64, RuleError>)
    requires SaneBlock(b, rules) && Synced(v, db) && Complete(v, db, b.txs)
    requires k < |b.txs| && AcceptedTo(Overlay(v, db), b, rules, k) && w == ConnectTxs(v, b.txs, b.height, k)
    ensures r.Ok? <==> InputsOkAt(Overlay(v, db), b.txs, b.height, rules.maturity, k)
    ensures r.Ok? ==> r.value == FeeAt(Overlay(v, db), b.txs, b.height, k) && 0 <= r.value <= MAX_SATOSHI
    ensures r.Err? ==> RefusedFor(ApplyTxs(Overlay(v, db), b.txs, b.height, k), b.txs[k], b.height, rules.maturity, r.error)
  {
    hide Complete, Overlay, RefusedFor;
    InputsAnswered(v, db, b, rules, k);
    assert SaneTxAt(b.txs, rules, k);
    r := CheckTransactionInputs(b.txs[k], b.height, w, rules.maturity, ApplyTxs(Overlay(v, db), b.txs, b.height, k), rules.size(b.txs[k]));
  }

  /** One round of the loop: check the inputs of transaction `k`, add up its fee, connect it. */
  method CheckOne(view: UtxoViewpoint, ghost v: Entries, ghost db: Utxos, b: Block, rules: Rules, k: nat,
                  fees: int64, stxos: seq<Coin>)
    returns (e: Option<RuleError>, total: int64, out: seq<Coin>)
    requires SaneBlock(b, rules) && Synced(v, db) && Complete(v, db, b.txs)
    requires k < |b.txs| && AcceptedTo(Overlay(v, db), b, rules, k)
    requires fees == FeeSum(Overlay(v, db), b.txs, b.height, k) && fees >= 0
    requires view.entries == ConnectTxs(v, b.txs, b.height, k)
    modifies view`entries
    ensures e.None? ==> AcceptedTo(Overlay(v, db), b, rules, k + 1) && total == FeeSum(Overlay(v, db), b.txs, b.height, k + 1) && total >= 0
    ensures e.None? ==> view.entries == ConnectTxs(v, b.txs, b.height, k + 1)
    ensures e.None? ==> out == stxos + EntryCoins(ConnectTxs(v, b.txs, b.height, k), Spends(b.txs[k]), |Spends(b.txs[k])|)
    ensures e.Some? ==> !InputsAndFeesOk(Overlay(v, db), b, rules) && InputsWrongAt(Overlay(v, db), b, rules, k, e.value)
  {
    hide Complete, Overlay, Synced, RefusedFor;
    out := stxos;
    var fee := CheckTxAt(view.entries, v, db, b, rules, k);
    if fee.Err? {
      return Some(fee.error), 0, out;
    }
    total := Wrap(fees + fee.value);
    if total < fees {
      FeeOverflow(Overlay(v, db), b, rules, k);
      return Some(BadFees), total, out;
    }
    AcceptedIsPresent(v, db, b, rules, k);
    var missing: Option<OutPoint>;
    missing, out := view.ConnectTransaction(b.txs[k], b.height, out);
    assert missing.None?;
    e := None;
  }

  /** The loop over the transactions. */
  method CheckInputs(view: UtxoViewpoint, ghost db: Utxos, b: Block, rules: Rules, stxos: seq<Coin>)
    returns (e: Option<RuleError>, fees: int64, out: seq<Coin>)
    requires SaneBlock(b, rules) && Synced(view.entries, db) && Complete(view.entries, db, b.txs)
    modifies view`entries
    ensures var w := old(Overlay(view.entries, db));
      (e.None? <==> InputsAndFeesOk(w, b, rules)) &&
      (e.None? ==> fees == FeeSum(w, b.txs, b.height, |b.txs|) >= 0) &&
      (e.None? ==> Synced(view.entries, db) && Overlay(view.entries, db) == ApplyBlock(w, b)) &&
      (e.None? ==> out == stxos + Journal(w, b.txs, b.height, |b.txs|))
    ensures e.None? ==> view.entries == ConnectTxs(old(view.entries), b.txs, b.height, |b.txs|)
    ensures e.None? ==> AllPresent(old(view.entries), b.txs, b.height, |b.txs|)
    ensures e.Some? ==> exists k: nat :: InputsWrongAt(old(Overlay(view.entries, db)), b, rules, k, e.value)
  {
    hide InputsWrongAt, Overlay, Synced, Complete, InputsOkAt, ConnectTx, ApplyTx, FeeAt, AllSpendable;
    out, fees, e := stxos, 0, None;
    ghost var v := view.entries;
    ghost var w := Overlay(v, db);
    var k := 0;
    while k < |b.txs|
      invariant 0 <= k <= |b.txs| && AcceptedTo(w, b, rules, k)
      invariant fees == FeeSum(w, b.txs, b.height, k) && fees >= 0
      invariant view.entries == ConnectTxs(v, b.txs, b.height, k)
      invariant out == stxos + ConnectCoins(v, b.txs, b.height, k)
    {
      ConnectCoinsStep(v, b.txs, b.height, k, stxos);
      e, fees, out := CheckOne(view, v, db, b, rules, k, fees, out);
      if e.Some? {
        return;
      }
      k := k + 1;
    }
    AcceptedAllSpendable(w, b, rules, |b.txs|);
    ConnectExact(v, db, b.txs, b.height, |b.txs|);
    e := None;
  }

  // ----- the verdict on a view that was used before -----

  lemma {:induction false} SameInSum(u: Utxos, w: Utxos, ins: seq<TxIn>, k: nat)
    requires k <= |ins| && forall j :: 0 <= j < |ins| ==> Same(w, u, ins[j].prev)
    ensures InSum(w, ins, k) == InSum(u, ins, k)
  {
    if k > 0 {
      SameInSum(u, w, ins, k - 1);
    }
  }

  /** Without exposed outputs every transaction is judged on both sets alike. */
  lemma SameInputsOk(u: Utxos, w: Utxos, keys: set<OutPoint>, b: Block, rules: Rules, k: nat)
    requires EarlySet(u, w, keys, b.txs, b.height) && !Exposed(keys, b.txs) && Fresh(u, b.txs) && SaneBlock(b, rules)
    requires k < |b.txs|
    ensures InputsOkAt(w, b.txs, b.height, rules.maturity, k) <==> InputsOkAt(u, b.txs, b.height, rules.maturity, k)
    ensures FeeAt(w, b.txs, b.height, k) == FeeAt(u, b.txs, b.height, k)
  {
    hide EarlySet, Exposed, Fresh, ApplyTxs, SaneTxAt;
    var s, t, tx := ApplyTxs(w, b.txs, b.height, k), ApplyTxs(u, b.txs, b.height, k), b.txs[k];
    var ins := Spends(tx);
    forall j | 0 <= j < |ins| ensures Same(s, t, ins[j].prev) {
      SameInput(u, w, keys, b.txs, b.height, k, j);
    }
    SameInSum(t, s, ins, |ins|);
  }

  lemma {:induction false} SameFees(u: Utxos, w: Utxos, keys: set<OutPoint>, b: Block, rules: Rules, k: nat)
    requires EarlySet(u, w, keys, b.txs, b.height) && !Exposed(keys, b.txs) && Fresh(u, b.txs) && SaneBlock(b, rules)
    requires k <= |b.txs|
    ensures FeeSum(w, b.txs, b.height, k) == FeeSum(u, b.txs, b.height, k)
  {
    hide EarlySet, Exposed, Fresh, FeeAt, SaneBlock;
    if k > 0 {
      SameFees(u, w, keys, b, rules, k - 1);
      SameInputsOk(u, w, keys, b, rules, k - 1);
    }
  }

  lemma SameReasons(s: Utxos, t: Utxos, tx: Tx, height: int, maturity: nat, e: RuleError)
    requires forall j :: 0 <= j < |Spends(tx)| ==> Same(s, t, Spends(tx)[j].prev)
    ensures RefusedFor(s, tx, height, maturity, e) <==> RefusedFor(t, tx, height, maturity, e)
  {
    if !IsCoinBase(tx) {
      assert Spends(tx) == tx.ins;
      assert forall j :: 0 <= j < |tx.ins| ==> Same(s, t, tx.ins[j].prev);
      forall i | 0 <= i <= |tx.ins| ensures InSum(s, tx.ins, i) == InSum(t, tx.ins, i) {
        SameInSum(t, s, tx.ins, i);
      }
      forall i | 0 <= i < |tx.ins| ensures FineAt(s, tx.ins, height, maturity, i) <==> FineAt(t, tx.ins, height, maturity, i) {
        assert Same(s, t, Spends(tx)[i].prev);
      }
      forall i: nat | i < |tx.ins| ensures WrongAt(s, tx.ins, height, maturity, i, e) <==> WrongAt(t, tx.ins, height, maturity, i, e) {
        assert Same(s, t, Spends(tx)[i].prev);
      }
    }
  }

  lemma SameInputsWrong(u: Utxos, w: Utxos, keys: set<OutPoint>, b: Block, rules: Rules, k: nat, e: RuleError)
    requires EarlySet(u, w, keys, b.txs, b.height) && !Exposed(keys, b.txs) && Fresh(u, b.txs) && SaneBlock(b, rules)
    ensures InputsWrongAt(w, b, rules, k, e) <==> InputsWrongAt(u, b, rules, k, e)
  {
    hide EarlySet, Exposed, Fresh, ApplyTxs, SaneTxAt, InputsOkAt, RefusedFor, FeeSum, FeeAt;
    if k < |b.txs| {
      SameFees(u, w, keys, b, rules, k + 1);
      forall i | 0 <= i <= k
        ensures InputsOkAt(w, b.txs, b.height, rules.maturity, i) <==> InputsOkAt(u, b.txs, b.height, rules.maturity, i)
      {
        SameInputsOk(u, w, keys, b, rules, i);
      }
      forall j | 0 <= j < |Spends(b.txs[k])|
        ensures Same(ApplyTxs(w, b.txs, b.height, k), ApplyTxs(u, b.txs, b.height, k), Spends(b.txs[k])[j].prev)
      {
        SameInput(u, w, keys, b.txs, b.height, k, j);
      }
      SameReasons(ApplyTxs(w, b.txs, b.height, k), ApplyTxs(u, b.txs, b.height, k), b.txs[k], b.height, rules.maturity, e);
    }
  }

  /** Without exposed outputs the reason for a refusal is the same on both sets. */
  lemma SameRefusal(u: Utxos, w: Utxos, keys: set<OutPoint>, b: Block, rules: Rules, e: RuleError)
    requires EarlySet(u, w, keys, b.txs, b.height) && !Exposed(keys, b.txs) && Fresh(u, b.txs) && SaneBlock(b, rules)
    ensures BlockRefused(w, b, rules, e) <==> BlockRefused(u, b, rules, e)
  {
    hide EarlySet, Exposed, Fresh, SaneTxAt, InputsOkAt, InputsWrongAt, FeeSum;
    SameFees(u, w, keys, b, rules, |b.txs|);
    forall k: nat ensures InputsWrongAt(w, b, rules, k, e) <==> InputsWrongAt(u, b, rules, k, e) {
      SameInputsWrong(u, w, keys, b, rules, k, e);
    }
    assert (exists k: nat :: InputsWrongAt(w, b, rules, k, e)) <==> exists k: nat :: InputsWrongAt(u, b, rules, k, e);
    forall k | 0 <= k < |b.txs|
      ensures InputsOkAt(w, b.txs, b.height, rules.maturity, k) <==> InputsOkAt(u, b.txs, b.height, rules.maturity, k)
    {
      SameInputsOk(u, w, keys, b, rules, k);
    }
  }

  /** A block with a forward reference is never acceptable. */
  lemma ForwardRefused(u: Utxos, b: Block, rules: Rules, o: OutPoint)
    requires Fresh(u, b.txs) && SaneBlock(b, rules) && ForwardRef(b.txs, o)
    ensures !Accepts(u, b, rules)
  {
    hide Fresh, SaneTxAt, ApplyTxs;
    var k: nat, j: nat :| RefAt(b.txs, k, j, o) && HasId(b.txs, k, |b.txs|, o.hash);
    if InputsOkAt(u, b.txs, b.height, rules.maturity, k) {
      assert InputOk(ApplyTxs(u, b.txs, b.height, k), b.txs[k].ins[j].prev, b.height, rules.maturity);
      AvailableIsEarlier(u, b.txs, b.height, k, o);
    }
  }

  /**
   With early outputs no block is refused that the set itself would accept, and one that passes is acceptable on the
   set exactly when no early output is exposed.
   */
  lemma VerdictRightIff(u: Utxos, w: Utxos, keys: set<OutPoint>, b: Block, rules: Rules)
    requires EarlySet(u, w, keys, b.txs, b.height) && Fresh(u, b.txs) && SaneBlock(b, rules)
    ensures Accepts(u, b, rules) ==> Accepts(w, b, rules)
    ensures Accepts(w, b, rules) ==> (Accepts(u, b, rules) <==> !Exposed(keys, b.txs))
  {
    hide EarlySet, Fresh, FeeSum, SaneTxAt, InputsOkAt;
    if Exposed(keys, b.txs) {
      var o :| o in keys && Ahead(b.txs, o);
      ForwardRefused(u, b, rules, o);
    } else {
      forall k | 0 <= k < |b.txs|
        ensures InputsOkAt(w, b.txs, b.height, rules.maturity, k) <==> InputsOkAt(u, b.txs, b.height, rules.maturity, k)
      {
        SameInputsOk(u, w, keys, b, rules, k);
      }
      SameFees(u, w, keys, b, rules, |b.txs|);
    }
  }

  /**
   Checks a block on a view that stands for `u` and connects it there.  The verdict is exactly the rules in
   exact arithmetic on `u` with the outputs that fetchInputUtxos leaves in the view ahead of their transactions;
   it is the verdict on `u` itself when no such output is exposed.
   */
  method CheckConnectBlock(view: UtxoViewpoint, db: Utxos, b: Block, rules: Rules, stxos: seq<Coin>, ghost u: Utxos)
    returns (r: Verdict, out: seq<Coin>)
    requires SaneBlock(b, rules) && Fresh(u, b.txs)
    requires rules.Reward(b) < 0x8000_0000_0000_0000
    requires Synced(view.entries, db) && Overlay(view.entries, db) == u
    modifies view
    ensures r.AssertFailure? <==> b.hash != rules.genesis && old(view.bestHash) != b.prev
    ensures var w := WithEarly(u, old(view.entries).Keys, b.txs, b.height);
      (r.Pass? <==> b.hash != rules.genesis && old(view.bestHash) == b.prev && Accepts(w, b, rules)) &&
      (r.Pass? ==> out == stxos + Journal(w, b.txs, b.height, |b.txs|))
    ensures !Exposed(old(view.entries).Keys, b.txs) ==>
      (r.Pass? <==> b.hash != rules.genesis && old(view.bestHash) == b.prev && Accepts(u, b, rules)) &&
      (r.Pass? ==> out == stxos + Journal(u, b.txs, b.height, |b.txs|))
    ensures r.Pass? ==> Synced(view.entries, db) && Overlay(view.entries, db) == ApplyBlock(u, b) && view.bestHash == b.hash
    ensures r.Pass? ==> KeysAre(old(view.entries), view.entries, b.txs)
    ensures r.RuleFailure? && b.hash == rules.genesis ==> r.error == MissingTxOut
    ensures r.RuleFailure? && b.hash != rules.genesis ==>
      BlockRefused(WithEarly(u, old(view.entries).Keys, b.txs, b.height), b, rules, r.error)
  {
    hide InputsWrongAt, InputsAndFeesOk, BlockRefused, PaysInLimits, AllPresent, Overlay, Synced, Exposed, Fresh, Fetched, Complete, KeysFrom, KeysAre, AllPresent, InputsOkAt, WithEarly, SaneTxAt, EarlySet, DistinctIds, AgreeOutside, Loaded;
    out := stxos;
    ghost var start, w := view.entries, WithEarly(u, view.entries.Keys, b.txs, b.height);
    WithEarlyIsEarly(u, start.Keys, b.txs, b.height);
    VerdictRightIff(u, w, start.Keys, b, rules);
    EarlyOutcome(u, w, start.Keys, b, rules);
    if b.hash == rules.genesis {
      return RuleFailure(MissingTxOut), out;
    }
    if view.bestHash != b.prev {
      return AssertFailure, out;
    }
    view.FetchInputUtxos(db, b);
    FetchMeans(start, view.entries, db, b.txs, b.height);
    FetchSuffices(start, view.entries, db, b.txs, b.height);
    FetchCompletes(start, view.entries, db, u, b.txs, b.height);
    ghost var fetched := view.entries;
    if !rules.sigOpsOk(b) {
      RefusedBecause(w, b, rules, TooManySigOps);
      return RuleFailure(TooManySigOps), out;
    }
    var e: Option<RuleError>, fees: int64;
    e, fees, out := CheckInputs(view, db, b, rules, out);
    if e.Some? {
      InputsRefuse(w, b, rules, e.value);
      return RuleFailure(e.value), out;
    }
    assert SaneTx(b.txs[0], rules.size(b.txs[0])) by {
      FirstIsSane(b, rules);
    }
    var totalOut := SumOutputs(b.txs[0]);
    var expected := Wrap(rules.Reward(b) + fees);
    RefusedBecause(w, b, rules, BadCoinbaseValue);
    if totalOut > expected {
      return RuleFailure(BadCoinbaseValue), out;
    }
    if !rules.coinbaseOk(b) {
      return RuleFailure(BadCoinbaseValue), out;
    }
    if !rules.scriptsOk(b) {
      RefusedBecause(w, b, rules, ScriptFailure);
      return RuleFailure(ScriptFailure), out;
    }
    ConnectKeysAre(start, fetched, b.txs, b.height);
    view.bestHash := b.hash;
    r := Pass;
  }

  lemma FirstIsSane(b: Block, rules: Rules)
    requires SaneBlock(b, rules)
    ensures SaneTx(b.txs[0], rules.size(b.txs[0]))
  {
    assert SaneTxAt(b.txs, rules, 0);
  }

  /** Early outputs or not, the block leaves the same set, and without exposed ones the same journal. */
  lemma EarlyOutcome(u: Utxos, w: Utxos, keys: set<OutPoint>, b: Block, rules: Rules)
    requires EarlySet(u, w, keys, b.txs, b.height) && Fresh(u, b.txs) && SaneBlock(b, rules)
    ensures ApplyBlock(w, b) == ApplyBlock(u, b)
    ensures !Exposed(keys, b.txs) ==> Journal(w, b.txs, b.height, |b.txs|) == Journal(u, b.txs, b.height, |b.txs|)
  {
    hide EarlySet, Fresh, Exposed;
    SameAfter(u, w, keys, b.txs, b.height);
    if !Exposed(keys, b.txs) {
      SameJournal(u, w, keys, b.txs, b.height, |b.txs|);
    }
  }
}
