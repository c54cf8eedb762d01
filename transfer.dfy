/** `transfer_balance` of zz.py: for one account, decide whether anything can
    be swept and, if so, send `balance - gasPrice * gasLimit` to the target.
    Every call it makes into Web3 or the node is an input (`Replies`): the
    answer that call gave, or the exception it raised. Signing and broadcasting
    are one opaque call `send`. */
module Transfer {
  import opened Common

  /** The gas limit `BalanceTransfer` is built with unless told otherwise. */
  const DefaultGasLimit: nat := 21000

  /** The settings of a `BalanceTransfer` that `transfer_balance` reads: the
      checksummed target address, the configured gas price (`None` when not
      given) and the gas limit. */
  datatype Config = Config(target: string, gasPrice: Option<nat>, gasLimit: nat)

  /** The transaction dictionary built before signing. */
  datatype Transaction = Transaction(from: string, to: string, value: nat, gas: nat, gasPrice: nat,
                                     nonce: nat, chainId: nat)

  /** What the outside world answers during one `transfer_balance` call:
      `to_checksum_address(from_address)`, the balance, the node's gas price,
      the nonce, the chain id, and signing plus broadcasting a transaction with
      the private key (the hex of the transaction hash). */
  datatype Replies = Replies(
    checksum: Reply<string>,
    balance: Reply<nat>,
    gasPrice: Reply<nat>,
    nonce: Reply<nat>,
    chainId: Reply<nat>,
    send: (Transaction, string) -> Reply<string>)

  /** The configured gas price is used only when it is truthy: a configured
      0 counts as not configured. */
  predicate PriceConfigured(cfg: Config)
  {
    cfg.gasPrice.Some? && cfg.gasPrice.value != 0
  }

  /** The gas price of the transaction: the configured one, else the node's. */
  function GasPrice(cfg: Config, replies: Replies): Reply<nat>
  {
    if PriceConfigured(cfg) then Ok(cfg.gasPrice.value) else replies.gasPrice
  }

  /** The transfer planner: decline, or send the balance less the fee. */
  datatype Decision = Decline | Send(amount: nat, fee: nat)

  /** Decline exactly when the balance does not exceed the fee; otherwise the
      amount and the fee add up to the whole balance and the amount is
      positive. */
  function Decide(balance: nat, gasPrice: nat, gasLimit: nat): (d: Decision)
    ensures d.Decline? <==> balance <= gasPrice * gasLimit
    ensures d.Send? ==> d.fee == gasPrice * gasLimit && d.amount + d.fee == balance && d.amount > 0
  {
    var fee := gasPrice * gasLimit;
    if balance <= fee then Decline else Send(balance - fee, fee)
  }

  /** What a `transfer_balance` call did: sent a transaction (with its hash),
      declined (zero balance, or not enough for the fee), or caught an
      exception. */
  datatype Attempt = Sent(txHash: string) | Declined | Errored(message: string)

  /** The steps of `transfer_balance`, in the order the source takes them. */
  function AttemptTransfer(cfg: Config, privateKey: string, replies: Replies): Attempt
  {
    match replies.checksum
    case Raised(e) => Errored(e)
    case Ok(from) =>
      match replies.balance
      case Raised(e) => Errored(e)
      case Ok(balance) =>
        if balance == 0 then Declined
        else
          match GasPrice(cfg, replies)
          case Raised(e) => Errored(e)
          case Ok(price) =>
            match Decide(balance, price, cfg.gasLimit)
            case Decline => Declined
            case Send(amount, _) =>
              match replies.nonce
              case Raised(e) => Errored(e)
              case Ok(nonce) =>
                match replies.chainId
                case Raised(e) => Errored(e)
                case Ok(chainId) =>
                  var tx := Transaction(from, cfg.target, amount, cfg.gasLimit, price, nonce, chainId);
                  match replies.send(tx, privateKey)
                  case Raised(e) => Errored(e)
                  case Ok(hash) => Sent(hash)
  }

  /** What `transfer_balance` returns for an attempt: `None` when it declined,
      otherwise a `str`, the hash and the error message alike. */
  function AsPython(a: Attempt): (v: PyValue)
    ensures v.PyNone? <==> a.Declined?
    ensures !v.PyBytes?
    ensures a.Sent? ==> v == PyStr(a.txHash)
    ensures a.Errored? ==> v == PyStr(a.message)
  {
    match a
    case Sent(hash) => PyStr(hash)
    case Declined => PyNone
    case Errored(message) => PyStr(message)
  }

  /** `transfer_balance(private_key, from_address)`. */
  function TransferBalance(cfg: Config, privateKey: string, replies: Replies): PyValue
  {
    AsPython(AttemptTransfer(cfg, privateKey, replies))
  }

  /** The call declines exactly when the address converts, the balance is
      known, and it is zero or (the gas price being known) at most the fee. */
  lemma DeclinedExactly(cfg: Config, privateKey: string, replies: Replies)
    ensures AttemptTransfer(cfg, privateKey, replies).Declined? <==>
            && replies.checksum.Ok?
            && replies.balance.Ok?
            && (|| replies.balance.value == 0
                || (GasPrice(cfg, replies).Ok?
                    && replies.balance.value <= GasPrice(cfg, replies).value * cfg.gasLimit))
  {
  }

  /** A zero balance declines before any gas price is asked for: whatever the
      node would say about the gas price, nonce or chain, nothing is sent. */
  lemma ZeroBalanceDeclines(cfg: Config, privateKey: string, replies: Replies)
    requires replies.checksum.Ok? && replies.balance == Ok(0)
    ensures AttemptTransfer(cfg, privateKey, replies) == Declined
  {
  }

  /** A truthy configured gas price means the node's gas price is never
      consulted: any other answer (or exception) from it changes nothing. */
  lemma ConfiguredPriceIgnoresNode(cfg: Config, privateKey: string, replies: Replies, other: Reply<nat>)
    requires PriceConfigured(cfg)
    ensures AttemptTransfer(cfg, privateKey, replies) == AttemptTransfer(cfg, privateKey, replies.(gasPrice := other))
  {
  }

  /** A configured gas price of 0 behaves exactly as no configured price. */
  lemma ConfiguredZeroFallsBack(cfg: Config, privateKey: string, replies: Replies)
    ensures AttemptTransfer(cfg.(gasPrice := Some(0)), privateKey, replies)
            == AttemptTransfer(cfg.(gasPrice := None), privateKey, replies)
  {
  }

  /** A sent transaction goes from the converted address to the target with the
      configured gas limit and the chosen gas price, and its value plus the fee
      is exactly the balance, the value being positive. */
  lemma SentSweepsBalance(cfg: Config, privateKey: string, replies: Replies)
    requires AttemptTransfer(cfg, privateKey, replies).Sent?
    ensures replies.checksum.Ok? && replies.balance.Ok? && GasPrice(cfg, replies).Ok?
    ensures exists tx: Transaction ::
              && replies.send(tx, privateKey) == Ok(AttemptTransfer(cfg, privateKey, replies).txHash)
              && tx.from == replies.checksum.value
              && tx.to == cfg.target
              && tx.gas == cfg.gasLimit
              && tx.gasPrice == GasPrice(cfg, replies).value
              && tx.value > 0
              && tx.value + tx.gasPrice * tx.gas == replies.balance.value
  {
    var price := GasPrice(cfg, replies).value;
    var d := Decide(replies.balance.value, price, cfg.gasLimit);
    var tx := Transaction(replies.checksum.value, cfg.target, d.amount, cfg.gasLimit, price,
                          replies.nonce.value, replies.chainId.value);
    assert replies.send(tx, privateKey) == Ok(AttemptTransfer(cfg, privateKey, replies).txHash);
  }

  /** Worked figures: with gas price 1 gwei and gas limit
      21000 the fee is 21000 gwei, so a balance of exactly that declines and a
      balance of 100000 gwei sends 79000 gwei. */
  lemma DecideExamples()
    ensures Decide(21000000000000, 1000000000, DefaultGasLimit) == Decline
    ensures Decide(100000000000000, 1000000000, DefaultGasLimit) == Send(79000000000000, 21000000000000)
  {
  }
}
