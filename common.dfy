/** Small value types shared by the model of zz.py. */
module Common {

  /** Some/None, as in the usual wrapper library. */
  datatype Option<+T> = None | Some(value: T)

  /** What a call into code outside the model (Web3, the node, the file system)
      gave back: a value, or an exception whose `str()` is `message`. */
  datatype Reply<+T> = Ok(value: T) | Raised(message: string)

  /** The dynamically typed values `transfer_balance` could hand to its caller:
      `None`, a `str`, or a non-`str` object such as a byte string holding a
      transaction hash. */
  datatype PyValue = PyNone | PyStr(text: string) | PyBytes(bytes: seq<bv8>)

  /** Python truthiness of such a value: `None`, `''` and `b''` are false. */
  predicate Truthy(v: PyValue)
  {
    match v
    case PyNone => false
    case PyStr(t) => t != ""
    case PyBytes(b) => b != []
  }
}
