# Balance sweep (zz.py): a Dafny model of its local logic

`zz.py` reads a text file of `address----private_key` lines. For every
account it asks an Ethereum-style node for the balance. Unless the balance is
zero, it takes the configured gas price, or the node's when none is set or it
is 0. When the balance exceeds the fee `gasPrice * gasLimit`, it sends
`balance - gasPrice * gasLimit` to one fixed target address. Then it reports
each account under `success` or `failed`.

This project models the deterministic part of that script and proves
properties about it:

- `text.dfy` (module `Text`): the Python `str` operations the parsers use:
  `strip()` with Python's set of whitespace characters, `startswith`, the
  substring test `in`, `split(sep)`, and `sep.join` as its inverse.
- `parsing.dfy` (module `Parsing`): the two line parsers.
  - `read_addresses_from_file` gives a list of checksummed addresses.
  - The loop at the head of `process_addresses_file` gives a map from
    checksummed address to `0x`-prefixed key.
  - Both take lines that are already decoded.
  - `Web3.to_checksum_address` is an opaque partial function
    `toChecksum: string -> Option<string>`. `None` stands for its
    `ValueError`.
- `transfer.dfy` (module `Transfer`): `transfer_balance`.
  - Every Web3 or node call is an input of type `Replies`. Each call either
    answers or raises an exception with a message.
  - Signing plus broadcasting is one opaque call `send(tx, key)`.
  - `Decide` is the pure decision: decline, or send the balance less the fee.
  - `AttemptTransfer` keeps "sent", "declined" and "caught an exception"
    apart.
  - `TransferBalance` is what the Python function actually returns: `None`,
    or a `str` for both a hash and an error message.
- `sweep.dfy` (module `Sweep`): `process_address_with_key` and
  `process_addresses_file`.
  - The shared `results` dictionary is the class `Results`, whose two lists
    are appended to in place.
  - The thread pool becomes a loop that takes the remaining addresses in an
    arbitrary order, because the order in which workers finish is
    unspecified.
- `common.dfy` (module `Common`): `Option`, `Reply` (a value or a raised
  exception), and `PyValue` (the dynamically typed return value, with
  Python truthiness).

Behaviour of the code worth knowing (the model follows the code):

- An account with a zero balance is logged as skipped ("跳过转账",
  zz.py:123) and `transfer_balance` returns `None`. An account without enough
  for the fee is logged with a different warning (zz.py:133) and also returns
  `None`. Neither is recorded as skipped: both land in `failed` with the error
  "未知错误" (zz.py:183).
- No transaction is ever recorded as a success, although the docstrings
  promise a transaction hash (zz.py:113-114) and records of successful and
  failed transfers (zz.py:192-193); see Findings.
- Only the address-only parser checks a minimum length (40 characters). The
  key parser keeps any line whose first field converts.
- The key parser needs both a `----` separator and the `0x` prefix on the
  trimmed line before it looks at the fields.

## Model

| member | source | states |
|---|---|---|
| `Text.Strip` | zz.py:72 | `strip()` returns a slice of the line with no whitespace at either end, and everything it cut off is whitespace |
| `Text.IndexOf` | zz.py:201 | the `'----' in line` search finds the leftmost occurrence, and finds none exactly when there is none |
| `Text.Split` | zz.py:202 | `split('----')` gives at least one piece, two or more exactly when the line holds a separator, the first piece being the text before the leftmost separator, and no piece holds a separator |
| `Text.JoinSplit` | zz.py:202 | joining the pieces of `split('----')` with `----` gives back the line |
| `Text.FirstTwoFields` | zz.py:202-205 | `parts[0]` is the text before the leftmost separator and `parts[1]` is the text up to the next separator or the end, so later fields never reach the parse |
| `Parsing.ReadAddressesFromFile` | zz.py:67-84 | the loop's list is exactly the accepted lines' addresses, in line order |
| `Parsing.AddressOf` | zz.py:72-83 | no contract of its own; `AddressOfAccepts` and `FirstFieldHexPrefixed` state it |
| `Parsing.AddressOfAccepts` | zz.py:72-84 | a line gives an address iff, trimmed, it is non-empty and starts with `0x`, and the text before its first `----` (stripped) has at least 40 characters and converts; that text starts with `0x` and holds no separator |
| `Parsing.FirstFieldHexPrefixed` | zz.py:73-76 | the stripped first field of a line that starts with `0x` also starts with `0x` |
| `Parsing.AddressListAppend` | zz.py:70-82 | the list for two runs of lines is the two lists one after the other: input order is kept and duplicates are not merged |
| `Parsing.AddressListSound` | zz.py:70-82 | every address in the list comes from a line of the file that gives that address |
| `Parsing.AddressListComplete` | zz.py:70-82 | every line that gives an address puts it in the list |
| `Parsing.WithHexPrefix` | zz.py:209-210 | the stored key starts with `0x`, ends with the key as written, and is the key itself when that already starts with `0x`, otherwise exactly two characters longer, so `0x` followed by the key |
| `Parsing.ReadKeyPairs` | zz.py:196-213 | the loop's dictionary is exactly the fold of the accepted lines, in order |
| `Parsing.KeyEntryOf` | zz.py:200-211 | no contract of its own; `KeyEntryAccepts` and `WithHexPrefix` state it |
| `Parsing.KeyEntryAccepts` | zz.py:200-211 | a line is kept iff, trimmed, it is non-empty, holds `----`, starts with `0x`, and its stripped first field converts; the entry is the checksummed address and the stripped second field with `0x` ensured |
| `Parsing.RejectedLineIgnored` | zz.py:206-213 | a line that is rejected, for example for an invalid address, leaves the map unchanged, and the lines after it are read as if it were absent |
| `Parsing.KeyMapSound` | zz.py:199-211 | every address in the map comes from a line that yields it |
| `Parsing.KeyMapComplete` | zz.py:199-211 | every line that yields an address puts that address in the map |
| `Parsing.KeyMapLastWriteWins` | zz.py:211 | the key stored for an address is the key of the last line that yields that address |
| `Parsing.KeyMapKeysHexPrefixed` | zz.py:208-211 | every stored key starts with `0x` |
| `Transfer.Decide` | zz.py:128-137 | declines iff `balance <= gasPrice * gasLimit`; otherwise `amount + fee == balance`, `fee == gasPrice * gasLimit` and `amount > 0` |
| `Transfer.AsPython` | zz.py:160-166 | `transfer_balance` returns `None` exactly when it declined (the `return None` at zz.py:124 and zz.py:134) and a `str` otherwise, the hash (zz.py:160) and the error message (zz.py:166) alike; it never returns a non-`str` object |
| `Transfer.GasPrice` | zz.py:127 | no contract of its own; `ConfiguredPriceIgnoresNode` and `ConfiguredZeroFallsBack` state it: a truthy configured price is used and the node is not asked, a configured 0 or none falls back to the node |
| `Transfer.AttemptTransfer` | zz.py:116-166 | no contract of its own; `DeclinedExactly`, `ZeroBalanceDeclines`, `ConfiguredPriceIgnoresNode`, `ConfiguredZeroFallsBack` and `SentSweepsBalance` state it |
| `Transfer.TransferBalance` | zz.py:105-166 | no contract of its own; it is `AsPython` of `AttemptTransfer`, so their rows state it, and `SentRecordedAsFailure` uses it |
| `Transfer.DeclinedExactly` | zz.py:118-134 | the call declines iff the address converts, the balance is known, and the balance is zero or (with the gas price known) at most the fee |
| `Transfer.ZeroBalanceDeclines` | zz.py:121-124 | a zero balance declines whatever the node would say about the gas price, nonce or chain |
| `Transfer.ConfiguredPriceIgnoresNode` | zz.py:127 | with a truthy configured gas price, the node's gas price, answer or exception, has no effect |
| `Transfer.ConfiguredZeroFallsBack` | zz.py:127 | a configured gas price of 0 behaves exactly like none |
| `Transfer.SentSweepsBalance` | zz.py:137-160 | a sent transaction goes from the converted address to the target with the configured gas limit and the chosen gas price, and its value plus the fee is exactly the balance, the value being positive |
| `Transfer.DecideExamples` | zz.py:127-137 | with 1 gwei and 21000 gas, a balance of 21000 gwei declines and 100000 gwei sends 79000 gwei |
| `Sweep.Classify` | zz.py:179-183 | no contract of its own; `NeverSuccessAsWritten`, `SentRecordedAsFailure` and `SentRecordedAsFailureExample` state it |
| `Sweep.ClassifyAttempt` | zz.py:180-183 | no contract of its own; the corrected classification, stated by `ClassifyAttemptCorrect` |
| `Sweep.NeverSuccessAsWritten` | zz.py:177-183 | whatever the transfer did, its record goes to `failed` under the account's address, and a declined account's error is "未知错误" |
| `Sweep.SentRecordedAsFailure` | zz.py:160 | a sent transaction with a non-empty hash is recorded in `failed`, with that hash as the error |
| `Sweep.SentRecordedAsFailureExample` | zz.py:180-183 | a concrete account whose transaction is sent and whose hash lands in `failed` |
| `Sweep.ClassifyAttemptCorrect` | zz.py:180-183 | the corrected classification records a success iff the transaction was sent, carrying its hash, and agrees with the code everywhere else |
| `Sweep.Results.constructor` | zz.py:238 | the results start as two empty lists |
| `Sweep.ProcessAddressWithKey` | zz.py:168-183 | one transfer attempt appends exactly one record, to exactly one of the two lists, and leaves the other unchanged |
| `Sweep.ExpectedFailure` | zz.py:177-183 | as written, the record one key-map entry leaves is always a failure filed under that entry's own address |
| `Sweep.RunWorkers` | zz.py:242-250 | once every submitted worker has finished, `success` is still empty and `failed` holds one record for each address of the key map, and for no other, each the expected one, whatever the completion order |
| `Sweep.SweptAll` | zz.py:242-254 | one record per address means as many records as entries in the key map, no address twice, and every address present |
| `Sweep.SweepAll` | zz.py:238-254 | after all workers finish, `success` is empty, and `failed` holds one record per map entry: the same count, no address twice, every address present, each record the one its own transfer attempt leaves |
| `Sweep.ProcessAddressesFile` | zz.py:185-254 | a read error gives an empty `success` and the single failure `{"address": "all", "error": "读取文件失败: …"}`; otherwise the key map of the lines is swept as above |

## Left out

- File reading and decoding: the parsers take decoded lines. Not modelled: the fallback from UTF-8 to GBK on `UnicodeDecodeError`, the fact that a GBK failure is not caught by zz.py:232, and the fact that the address list is not reset before the GBK pass. An error while reading in `read_addresses_from_file` propagates to the caller and is not modelled either.
- `fasong` (zz.py:261-290) is not modelled. It sends the account address and its private key over HTTP to hosts taken from an environment variable, with random host choice, retries and sleeps. `transfer_balance` calls it while holding the lock (zz.py:163-165). It never changes what `transfer_balance` returns.
- `get_random_ip` (zz.py:27-30): unused, and it is based on randomness.
- Web3 and the node are opaque inputs: balance, gas price, nonce, chain id, signing and broadcasting. The model assumes nothing about `to_checksum_address` beyond being a partial function of its text, not even that it is idempotent.
- The `BalanceTransfer` constructor (zz.py:34-55): the connection check and the checksumming of the target. The target is given already checksummed in `Config`.
- `max_workers`, the thread pool and the lock: the sweep is a sequential loop over the map entries in an arbitrary order. Nothing in the model depends on the pool size.
- `main` (zz.py:298-330): renaming and deleting files in the Windows Startup folder, and writing the JSON result file.
- Logging, the `from_wei` display conversion (zz.py:157), and the `pip install` fallback (zz.py:19-25).
- Transfer.Decide: gas price and gas limit are natural numbers. A negative or floating-point configured gas price is not modelled.
- Python's splitting of a file into lines (universal newlines) is not modelled. Each given line may still carry its line ending, and `strip()` removes it.

## Findings

| source | as written | input that shows it | evidently intended | confidence | as-written member | corrected member |
|---|---|---|---|---|---|---|
| zz.py:180 | a result counts as a success only if it is truthy and not a `str`, but `transfer_balance` returns `tx_hash.hex()`, a `str`, for a sent transaction (zz.py:160), and `str(e)` for an error (zz.py:166) | balance 100000000000000 wei, node gas price 1000000000, gas limit 21000, every call answering, broadcast hash `5c0ffee`: the transaction is sent and the record `{"address": …, "error": "5c0ffee"}` goes to `failed` | a sent transaction is recorded in `success` with its hash; declined accounts and errors stay in `failed` | high; not executed | `Sweep.SentRecordedAsFailureExample` | `Sweep.ClassifyAttemptCorrect` |

`Sweep.Classify` is the classification as written. `Sweep.ClassifyAttempt` is
the corrected one: it sees which of the three things happened before they are
collapsed into a `str`. `Sweep.ProcessAddressWithKey`, `Sweep.SweepAll` and
`Sweep.ProcessAddressesFile` keep the classification as written, because
they describe what the program reports. Their contracts therefore state that
`success` is always empty.
