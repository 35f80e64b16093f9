/** The wire-level values the ledger works on, and the small result types shared by every module. */
module Wire {

  datatype Option<+T> = None | Some(value: T)

  datatype Result<+T, +E> = Ok(value: T) | Err(error: E)

  type byte = b: int | 0 <= b < 256

  type int64 = x: int | -0x8000_0000_0000_0000 <= x < 0x8000_0000_0000_0000

  const TWO64 := 0x1_0000_0000_0000_0000

  /** Two's complement wrap-around of a 64-bit signed addition. */
  function Wrap(x: int): (r: int64)
    ensures -0x8000_0000_0000_0000 <= x < 0x8000_0000_0000_0000 ==> r == x
  {
    var m := x % TWO64;
    if m < 0x8000_0000_0000_0000 then m else m - TWO64
  }

  /** A 256-bit hash read as a number. */
  type Hash = int

  type Script = seq<byte>

  const ZERO_HASH: Hash := 0

  const MAX_INDEX := 0xFFFF_FFFF

  datatype OutPoint = OutPoint(hash: Hash, index: nat)

  datatype TxIn = TxIn(prev: OutPoint, sigScript: Script)

  /** `unspendable` is the verdict of txscript.IsUnspendable on the script; any verdict is allowed. */
  datatype TxOut = TxOut(value: int64, script: Script, unspendable: bool)

  /** `id` is the transaction hash. */
  datatype Tx = Tx(id: Hash, ins: seq<TxIn>, outs: seq<TxOut>)

  datatype Block = Block(hash: Hash, prev: Hash, height: int, version: int, txs: seq<Tx>)

  predicate IsNull(o: OutPoint) {
    o.index == MAX_INDEX && o.hash == ZERO_HASH
  }

  predicate IsCoinBase(tx: Tx) {
    |tx.ins| == 1 && IsNull(tx.ins[0].prev)
  }
}
