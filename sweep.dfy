/** `process_address_with_key` and `process_addresses_file` of zz.py: every
    entry of the key map gets one `transfer_balance` call, and its result is
    appended, as one record, to the `success` or the `failed` list of the shared
    results. The thread pool is modelled as a loop that takes the remaining
    addresses in an arbitrary order, since the completion order of the workers
    is unspecified. */
module Sweep {
  import opened Common
  import opened Parsing
  import opened Transfer

  /** The error recorded when `transfer_balance` returned nothing usable. */
  const UnknownError: string := "未知错误"

  /** What precedes the exception text when the file cannot be read. */
  const ReadFailurePrefix: string := "读取文件失败: "

  /** The address of the single record written when the file cannot be read. */
  const AllAddresses: string := "all"

  /** `{"address": ..., "tx_hash": ...}` */
  datatype SuccessRecord = SuccessRecord(address: string, txHash: PyValue)

  /** `{"address": ..., "error": ...}` */
  datatype FailedRecord = FailedRecord(address: string, error: string)

  /** The record one account leaves, and the list it goes to. */
  datatype Recorded = InSuccess(success: SuccessRecord) | InFailed(failure: FailedRecord)

  /** The classification of `process_address_with_key`: a success needs a truthy
      result that is not a `str`; anything else is a failure whose error is the
      result itself, or "未知错误" when the result is falsy. */
  function Classify(address: string, txResult: PyValue): Recorded
  {
    if Truthy(txResult) && !txResult.PyStr? then InSuccess(SuccessRecord(address, txResult))
    else InFailed(FailedRecord(address, if Truthy(txResult) then txResult.text else UnknownError))
  }

  /** What the classification evidently means to do: a sent transaction is a
      success carrying its hash; a declined account and a caught exception are
      failures as before. */
  function ClassifyAttempt(address: string, a: Attempt): Recorded
  {
    match a
    case Sent(hash) => InSuccess(SuccessRecord(address, PyStr(hash)))
    case Declined => InFailed(FailedRecord(address, UnknownError))
    case Errored(message) => InFailed(FailedRecord(address, if message != "" then message else UnknownError))
  }

  /** As written, no attempt is ever recorded as a success: `transfer_balance`
      returns `None` or a `str`, and the check wants a non-`str`. A declined
      account is a failure with "未知错误". */
  lemma NeverSuccessAsWritten(address: string, a: Attempt)
    ensures Classify(address, AsPython(a)).InFailed?
    ensures Classify(address, AsPython(a)).failure.address == address
    ensures a.Declined? ==> Classify(address, AsPython(a)).failure.error == UnknownError
  {
  }

  /** As written, a transaction that went out is recorded as a failure whose
      "error" is its own hash. */
  lemma SentRecordedAsFailure(cfg: Config, privateKey: string, address: string, replies: Replies)
    requires AttemptTransfer(cfg, privateKey, replies).Sent?
    requires AttemptTransfer(cfg, privateKey, replies).txHash != ""
    ensures Classify(address, TransferBalance(cfg, privateKey, replies))
            == InFailed(FailedRecord(address, AttemptTransfer(cfg, privateKey, replies).txHash))
  {
  }

  /** A concrete account that shows it: 100000 gwei, node gas price 1 gwei, gas
      limit 21000, every call answering; the transaction is sent, and its hash
      lands in `failed`. */
  lemma SentRecordedAsFailureExample()
    ensures var cfg := Config("0x000C81B6c3d0a9dcc098f5d08703d06475148903", None, DefaultGasLimit);
            var replies := Replies(Ok("0xAbC"), Ok(100000000000000), Ok(1000000000), Ok(0), Ok(10143),
                                   (tx: Transaction, key: string) => Ok("5c0ffee"));
            && AttemptTransfer(cfg, "0x1234abcd", replies) == Sent("5c0ffee")
            && Classify("0xAbC", TransferBalance(cfg, "0x1234abcd", replies))
               == InFailed(FailedRecord("0xAbC", "5c0ffee"))
  {
  }

  /** The corrected classification records a success exactly for a sent
      transaction, and agrees with the code as written on every other attempt. */
  lemma ClassifyAttemptCorrect(address: string, a: Attempt)
    ensures ClassifyAttempt(address, a).InSuccess? <==> a.Sent?
    ensures a.Sent? ==> ClassifyAttempt(address, a) == InSuccess(SuccessRecord(address, PyStr(a.txHash)))
    ensures !a.Sent? ==> ClassifyAttempt(address, a) == Classify(address, AsPython(a))
  {
  }

  /** The shared `results` dictionary: its two lists, appended to in place. */
  class Results {
    var success: seq<SuccessRecord>
    var failed: seq<FailedRecord>

    /** `{"success": [], "failed": []}` */
    constructor ()
      ensures success == [] && failed == []
    {
      success := [];
      failed := [];
    }
  }

  /** `process_address_with_key`: one transfer attempt, then exactly one record
      appended to exactly one of the two lists. */
  method ProcessAddressWithKey(cfg: Config, address: string, privateKey: string, replies: Replies, results: Results)
    modifies results
    ensures match Classify(address, TransferBalance(cfg, privateKey, replies))
            case InSuccess(s) => results.success == old(results.success) + [s] && results.failed == old(results.failed)
            case InFailed(f) => results.success == old(results.success) && results.failed == old(results.failed) + [f]
  {
    var txResult := TransferBalance(cfg, privateKey, replies);
    match Classify(address, txResult) {
      case InSuccess(s) => results.success := results.success + [s];
      case InFailed(f) => results.failed := results.failed + [f];
    }
  }

  /** The dictionary `process_addresses_file` returns: the final contents of
      the `Results` object, taken as a value once no worker can change it. */
  datatype Report = Report(success: seq<SuccessRecord>, failed: seq<FailedRecord>)

  /** The record the key map's entry for `address` leaves: as written, always
      a failure for that address. */
  function ExpectedFailure(cfg: Config, keys: map<string, string>, world: string -> Replies, address: string)
    : (r: Recorded)
    requires address in keys
    ensures r.InFailed? && r.failure.address == address
  {
    NeverSuccessAsWritten(address, AttemptTransfer(cfg, keys[address], world(address)));
    Classify(address, TransferBalance(cfg, keys[address], world(address)))
  }

  /** The failure record of every entry of the key map, gathered in one map.
      A lemma rather than a ghost function so that callers see only these
      ensures, not the map's body; the trigger makes the second ensures fire
      only where a proof names `ExpectedFailure` of that address, instead of at
      every lookup in the map. */
  lemma ExpectedFailures(cfg: Config, keys: map<string, string>, world: string -> Replies)
    returns (m: map<string, FailedRecord>)
    ensures m.Keys == keys.Keys
    ensures forall a {:trigger ExpectedFailure(cfg, keys, world, a)} :: a in keys ==>
              InFailed(m[a]) == ExpectedFailure(cfg, keys, world, a)
  {
    m := map a | a in keys :: ExpectedFailure(cfg, keys, world, a).failure;
  }

  /** `records` is what sweeping exactly the addresses in `covered` leaves:
      one record per address, none twice, each the expected one. */
  ghost predicate Swept(expected: map<string, FailedRecord>, records: seq<FailedRecord>, covered: set<string>)
    requires covered <= expected.Keys
  {
    && (forall k :: 0 <= k < |records| ==>
          records[k].address in covered && records[k] == expected[records[k].address])
    && (forall j, k :: 0 <= j < k < |records| ==> records[j].address != records[k].address)
    && (forall a :: a in covered ==> exists k :: 0 <= k < |records| && records[k].address == a)
  }

  /** Sweeping one more address appends its expected record. */
  lemma SweptStep(expected: map<string, FailedRecord>, records: seq<FailedRecord>, covered: set<string>,
                  address: string)
    requires covered <= expected.Keys && address in expected && address !in covered
    requires expected[address].address == address
    requires Swept(expected, records, covered)
    ensures Swept(expected, records + [expected[address]], covered + {address})
  {
    var rs := records + [expected[address]];
    forall a | a in covered + {address}
      ensures exists k :: 0 <= k < |rs| && rs[k].address == a
    {
      if a == address {
        assert rs[|records|].address == a;
      } else {
        var k :| 0 <= k < |records| && records[k].address == a;
        assert rs[k] == records[k];
      }
    }
  }

  /** One record per swept address: as many records as addresses. */
  lemma {:induction false} SweptCount(expected: map<string, FailedRecord>, records: seq<FailedRecord>,
                                      covered: set<string>)
    requires covered <= expected.Keys
    requires Swept(expected, records, covered)
    ensures |records| == |covered|
    decreases |records|
  {
    if records == [] {
      assert covered == {};
    } else {
      var n := |records| - 1;
      var last := records[n].address;
      var front := records[..n];
      forall k | 0 <= k < |front|
        ensures front[k].address in covered - {last}
      {
        assert front[k] == records[k];
      }
      forall a | a in covered - {last}
        ensures exists k :: 0 <= k < |front| && front[k].address == a
      {
        var k :| 0 <= k < |records| && records[k].address == a;
        assert front[k] == records[k];
      }
      SweptCount(expected, front, covered - {last});
    }
  }

  /** Sweeping every address of the key map leaves exactly one record per
      address, each the one its own transfer attempt leaves. */
  lemma SweptAll(cfg: Config, keys: map<string, string>, world: string -> Replies,
                 expected: map<string, FailedRecord>, records: seq<FailedRecord>)
    requires expected.Keys == keys.Keys
    requires forall a {:trigger ExpectedFailure(cfg, keys, world, a)} :: a in keys ==>
               InFailed(expected[a]) == ExpectedFailure(cfg, keys, world, a)
    requires Swept(expected, records, keys.Keys)
    ensures |records| == |keys|
    ensures forall k :: 0 <= k < |records| ==>
              records[k].address in keys
              && InFailed(records[k]) == ExpectedFailure(cfg, keys, world, records[k].address)
    ensures forall j, k :: 0 <= j < k < |records| ==> records[j].address != records[k].address
    ensures forall a :: a in keys ==> exists k :: 0 <= k < |records| && records[k].address == a
  {
    SweptCount(expected, records, keys.Keys);
  }

  /** The `ThreadPoolExecutor` block of `process_addresses_file`: one
      `process_address_with_key` per entry of the key map, taken in whatever
      order the workers finish. Every entry appends its expected record. */
  method RunWorkers(cfg: Config, keys: map<string, string>, world: string -> Replies,
                    ghost expected: map<string, FailedRecord>, results: Results)
    requires expected.Keys == keys.Keys
    requires forall a {:trigger ExpectedFailure(cfg, keys, world, a)} :: a in keys ==>
               InFailed(expected[a]) == ExpectedFailure(cfg, keys, world, a)
    requires results.success == [] && results.failed == []
    modifies results
    ensures results.success == []
    ensures Swept(expected, results.failed, keys.Keys)
  {
    var remaining := keys.Keys;
    ghost var swept: set<string> := {};
    while remaining != {}
      invariant swept + remaining == keys.Keys && swept !! remaining && swept <= keys.Keys
      invariant results.success == []
      invariant Swept(expected, results.failed, swept)
      decreases remaining
    {
      var address :| address in remaining;
      ghost var done := results.failed;
      ProcessAddressWithKey(cfg, address, keys[address], world(address), results);
      assert InFailed(expected[address]) == ExpectedFailure(cfg, keys, world, address);
      SweptStep(expected, done, swept, address);
      swept := swept + {address};
      remaining := remaining - {address};
    }
    assert swept == keys.Keys;
  }

  /** The second half of `process_addresses_file`: the results after all
      workers finish. Every address leaves exactly one record; as written, all
      of them land in `failed`. */
  method SweepAll(cfg: Config, keys: map<string, string>, world: string -> Replies)
    returns (report: Report)
    ensures report.success == []
    ensures |report.failed| == |keys|
    ensures forall k :: 0 <= k < |report.failed| ==>
              report.failed[k].address in keys
              && InFailed(report.failed[k]) == ExpectedFailure(cfg, keys, world, report.failed[k].address)
    ensures forall j, k :: 0 <= j < k < |report.failed| ==> report.failed[j].address != report.failed[k].address
    ensures forall a :: a in keys ==> exists k :: 0 <= k < |report.failed| && report.failed[k].address == a
  {
    ghost var expected := ExpectedFailures(cfg, keys, world);
    var results := new Results();
    RunWorkers(cfg, keys, world, expected, results);
    SweptAll(cfg, keys, world, expected, results.failed);
    report := Report(results.success, results.failed);
  }

  /** `process_addresses_file`: `file` is the outcome of reading the file (its
      lines, or the exception reading raised); `world(a)` is what the outside
      world answers for account `a`. A read failure yields one failure for
      "all"; otherwise the key map of the lines is swept. */
  method ProcessAddressesFile(cfg: Config, file: Reply<seq<string>>, toChecksum: string -> Option<string>,
                              world: string -> Replies)
    returns (report: Report)
    ensures file.Raised? ==> report == Report([], [FailedRecord(AllAddresses, ReadFailurePrefix + file.message)])
    ensures file.Ok? ==>
              var keys := KeyMap(file.value, toChecksum);
              && report.success == []
              && |report.failed| == |keys|
              && (forall k :: 0 <= k < |report.failed| ==>
                    report.failed[k].address in keys
                    && InFailed(report.failed[k]) == ExpectedFailure(cfg, keys, world, report.failed[k].address))
              && (forall j, k :: 0 <= j < k < |report.failed| ==> report.failed[j].address != report.failed[k].address)
              && (forall a :: a in keys ==> exists k :: 0 <= k < |report.failed| && report.failed[k].address == a)
  {
    match file {
      case Raised(e) =>
        report := Report([], [FailedRecord(AllAddresses, ReadFailurePrefix + e)]);
      case Ok(lines) =>
        var keys := ReadKeyPairs(lines, toChecksum);
        report := SweepAll(cfg, keys, world);
    }
  }
}
