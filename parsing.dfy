/** The two line parsers of zz.py, over lines that are already decoded:
    `read_addresses_from_file` (one checksummed address per accepted line) and
    the loop of `process_addresses_file` that builds the map from checksummed
    address to private key. `Web3.to_checksum_address` is the opaque partial
    function `toChecksum`: `None` stands for the `ValueError` it raises. */
module Parsing {
  import opened Common
  import opened Text

  /** The shortest text `read_addresses_from_file` tries to convert. */
  const MinAddressLength: nat := 40

  // ---------------------------------------------------------------------------
  // Address-only parser
  // ---------------------------------------------------------------------------

  /** The text of a stripped line that `read_addresses_from_file` converts:
      the stripped first field when the line has a separator, else the line. */
  function AddressCandidate(t: string): string
  {
    if Contains(t, Separator) then Strip(Split(t, Separator)[0]) else t
  }

  /** What one line contributes to the address list. */
  function AddressOf(line: string, toChecksum: string -> Option<string>): Option<string>
  {
    var t := Strip(line);
    if t != "" && StartsWith(t, HexPrefix) then
      var c := AddressCandidate(t);
      if |c| >= MinAddressLength then toChecksum(c) else None
    else None
  }

  /** What each line contributes, in line order. */
  function LineAddresses(lines: seq<string>, toChecksum: string -> Option<string>): (os: seq<Option<string>>)
    ensures |os| == |lines|
  {
    seq(|lines|, i requires 0 <= i < |lines| => AddressOf(lines[i], toChecksum))
  }

  /** The addresses that are there, in order, duplicates kept. */
  function Present(os: seq<Option<string>>): seq<string>
  {
    if os == [] then []
    else
      var n := |os| - 1;
      Present(os[..n]) + match os[n] case Some(a) => [a] case None => []
  }

  /** The address list of a file: the accepted lines' addresses, in order,
      duplicates kept. */
  function AddressList(lines: seq<string>, toChecksum: string -> Option<string>): seq<string>
  {
    Present(LineAddresses(lines, toChecksum))
  }

  /** One more line adds its address, if any, at the end. */
  lemma AddressListStep(lines: seq<string>, i: nat, toChecksum: string -> Option<string>)
    requires i < |lines|
    ensures AddressList(lines[..i + 1], toChecksum)
            == AddressList(lines[..i], toChecksum)
               + match AddressOf(lines[i], toChecksum) case Some(a) => [a] case None => []
  {
    var os := LineAddresses(lines[..i + 1], toChecksum);
    assert os[..i] == LineAddresses(lines[..i], toChecksum);
  }

  /** `read_addresses_from_file` on the lines of the file. */
  method ReadAddressesFromFile(lines: seq<string>, toChecksum: string -> Option<string>)
    returns (addresses: seq<string>)
    ensures addresses == AddressList(lines, toChecksum)
  {
    addresses := [];
    for i := 0 to |lines|
      invariant addresses == AddressList(lines[..i], toChecksum)
    {
      AddressListStep(lines, i, toChecksum);
      var line := Strip(lines[i]);
      if line != "" && StartsWith(line, HexPrefix) {
        if Contains(line, Separator) {
          line := Strip(Split(line, Separator)[0]);
        }
        if |line| >= MinAddressLength {
          match toChecksum(line) {
            case Some(address) => addresses := addresses + [address];
            case None =>
          }
        }
      }
    }
    assert lines[..|lines|] == lines;
  }

  /** The first field of a line that starts with `0x` starts with `0x` too:
      a separator cannot begin at position 0 or 1. */
  lemma FirstFieldHexPrefixed(t: string)
    requires StartsWith(t, HexPrefix) && Contains(t, Separator)
    ensures StartsWith(Strip(Split(t, Separator)[0]), HexPrefix)
  {
    var i := IndexOf(t, Separator).value;
    SeparatorAfterHexPrefix(t, i);
    var h := t[..i];
    assert Split(t, Separator)[0] == h;
    assert h[0] == t[0] && h[1] == t[1];
    HexPrefixSurvivesStrip(h);
  }

  /** A separator never starts inside the `0x` prefix. */
  lemma SeparatorAfterHexPrefix(t: string, i: int)
    requires StartsWith(t, HexPrefix) && OccursAt(t, Separator, i)
    ensures i >= 2
  {
    assert t[i] == t[i..i + |Separator|][0] == '-';
    assert t[0] == t[..2][0] == '0' && t[1] == t[..2][1] == 'x';
  }

  /** A string that starts with `0x` keeps it under `strip()`. */
  lemma HexPrefixSurvivesStrip(h: string)
    requires |h| >= 2 && h[0] == '0' && h[1] == 'x'
    ensures StartsWith(Strip(h), HexPrefix)
  {
    assert !IsSpace('0') && !IsSpace('x');
    assert StripStart(h) == h;
    var r := Strip(h);
    assert StripOffset(h) == 0;
    assert |r| >= 2;
    assert r[0] == '0' && r[1] == 'x';
    assert r[..2] == HexPrefix;
  }

  /** A line contributes an address exactly when, stripped, it is non-empty and
      starts with `0x`, and its candidate (which then starts with `0x` and holds
      no separator) has at least 40 characters and converts. */
  lemma AddressOfAccepts(line: string, toChecksum: string -> Option<string>)
    ensures var t := Strip(line);
            var c := AddressCandidate(t);
            (AddressOf(line, toChecksum).Some? <==>
               t != "" && StartsWith(t, HexPrefix) && |c| >= MinAddressLength && toChecksum(c).Some?)
    ensures var t := Strip(line);
            var c := AddressCandidate(t);
            AddressOf(line, toChecksum).Some? ==>
              && StartsWith(c, HexPrefix)
              && !Contains(c, Separator)
              && toChecksum(c) == AddressOf(line, toChecksum)
  {
    var t := Strip(line);
    if t != "" && StartsWith(t, HexPrefix) && Contains(t, Separator) {
      FirstFieldHexPrefixed(t);
      var parts := Split(t, Separator);
      assert !Contains(parts[0], Separator);
      NoSeparatorAfterStrip(parts[0], Separator);
    }
  }

  /** The addresses of two runs of lines are the two runs of addresses. */
  lemma LineAddressesAppend(xs: seq<string>, ys: seq<string>, toChecksum: string -> Option<string>)
    ensures LineAddresses(xs + ys, toChecksum) == LineAddresses(xs, toChecksum) + LineAddresses(ys, toChecksum)
  {
    var l, r := LineAddresses(xs + ys, toChecksum), LineAddresses(xs, toChecksum) + LineAddresses(ys, toChecksum);
    forall k | 0 <= k < |l|
      ensures l[k] == r[k]
    {
      if k < |xs| {
        assert (xs + ys)[k] == xs[k];
      } else {
        assert (xs + ys)[k] == ys[k - |xs|];
      }
    }
  }

  /** `Present` distributes over concatenation. */
  lemma {:induction false} PresentAppend(xs: seq<Option<string>>, ys: seq<Option<string>>)
    ensures Present(xs + ys) == Present(xs) + Present(ys)
    decreases |ys|
  {
    if ys == [] {
      assert xs + ys == xs;
    } else {
      var n := |ys| - 1;
      assert (xs + ys)[..|xs + ys| - 1] == xs + ys[..n];
      assert (xs + ys)[|xs + ys| - 1] == ys[n];
      PresentAppend(xs, ys[..n]);
    }
  }

  /** Every present address is one of the entries. */
  lemma {:induction false} PresentSound(os: seq<Option<string>>, k: nat)
    requires k < |Present(os)|
    ensures exists i :: 0 <= i < |os| && os[i] == Some(Present(os)[k])
    decreases |os|
  {
    var n := |os| - 1;
    var front := Present(os[..n]);
    if k < |front| {
      PresentSound(os[..n], k);
      var i :| 0 <= i < n && os[..n][i] == Some(front[k]);
      assert os[..n][i] == os[i];
    } else {
      assert os[n] == Some(Present(os)[k]);
    }
  }

  /** Every entry that is there is present. */
  lemma {:induction false} PresentComplete(os: seq<Option<string>>, i: nat)
    requires i < |os| && os[i].Some?
    ensures os[i].value in Present(os)
    decreases |os|
  {
    var n := |os| - 1;
    if i < n {
      assert os[..n][i] == os[i];
      PresentComplete(os[..n], i);
    }
  }

  /** The address list of two files one after the other is the two lists one
      after the other: order is kept and nothing is merged. */
  lemma AddressListAppend(xs: seq<string>, ys: seq<string>, toChecksum: string -> Option<string>)
    ensures AddressList(xs + ys, toChecksum) == AddressList(xs, toChecksum) + AddressList(ys, toChecksum)
  {
    LineAddressesAppend(xs, ys, toChecksum);
    PresentAppend(LineAddresses(xs, toChecksum), LineAddresses(ys, toChecksum));
  }

  /** Every address in the list comes from some line of the file. */
  lemma AddressListSound(lines: seq<string>, toChecksum: string -> Option<string>, k: nat)
    requires k < |AddressList(lines, toChecksum)|
    ensures exists i :: 0 <= i < |lines| && AddressOf(lines[i], toChecksum) == Some(AddressList(lines, toChecksum)[k])
  {
    var os := LineAddresses(lines, toChecksum);
    PresentSound(os, k);
    var i :| 0 <= i < |os| && os[i] == Some(Present(os)[k]);
    assert AddressOf(lines[i], toChecksum) == os[i];
  }

  /** Every accepted line puts its address in the list. */
  lemma AddressListComplete(lines: seq<string>, toChecksum: string -> Option<string>, i: nat)
    requires i < |lines| && AddressOf(lines[i], toChecksum).Some?
    ensures AddressOf(lines[i], toChecksum).value in AddressList(lines, toChecksum)
  {
    var os := LineAddresses(lines, toChecksum);
    assert os[i] == AddressOf(lines[i], toChecksum);
    PresentComplete(os, i);
  }

  // ---------------------------------------------------------------------------
  // Key-pair parser
  // ---------------------------------------------------------------------------

  /** One accepted `address----key` line. */
  datatype KeyEntry = KeyEntry(address: string, key: string)

  /** The key as stored: `0x` is put in front unless it is already there. */
  function WithHexPrefix(key: string): (r: string)
    ensures StartsWith(r, HexPrefix)
    ensures |key| <= |r| <= |key| + |HexPrefix| && r[|r| - |key|..] == key
    ensures StartsWith(key, HexPrefix) ==> r == key
    ensures !StartsWith(key, HexPrefix) ==> |r| == |key| + |HexPrefix|
  {
    if StartsWith(key, HexPrefix) then key else HexPrefix + key
  }

  /** What one line contributes to the key map. */
  function KeyEntryOf(line: string, toChecksum: string -> Option<string>): Option<KeyEntry>
  {
    var t := Strip(line);
    if t != "" && Contains(t, Separator) && StartsWith(t, HexPrefix) then
      var parts := Split(t, Separator);
      if |parts| >= 2 then
        match toChecksum(Strip(parts[0]))
        case None => None
        case Some(address) => Some(KeyEntry(address, WithHexPrefix(Strip(parts[1]))))
      else None
    else None
  }

  /** What each line contributes, in line order. */
  function LineEntries(lines: seq<string>, toChecksum: string -> Option<string>): (es: seq<Option<KeyEntry>>)
    ensures |es| == |lines|
  {
    seq(|lines|, i requires 0 <= i < |lines| => KeyEntryOf(lines[i], toChecksum))
  }

  /** The entries of two runs of lines are the two runs of entries. */
  lemma LineEntriesAppend(xs: seq<string>, ys: seq<string>, toChecksum: string -> Option<string>)
    ensures LineEntries(xs + ys, toChecksum) == LineEntries(xs, toChecksum) + LineEntries(ys, toChecksum)
  {
    var l, r := LineEntries(xs + ys, toChecksum), LineEntries(xs, toChecksum) + LineEntries(ys, toChecksum);
    forall k | 0 <= k < |l|
      ensures l[k] == r[k]
    {
      if k < |xs| {
        assert (xs + ys)[k] == xs[k];
      } else {
        assert (xs + ys)[k] == ys[k - |xs|];
      }
    }
  }

  /** `keys[address] = key` for an accepted line; nothing for a rejected one. */
  function Insert(keys: map<string, string>, e: Option<KeyEntry>): map<string, string>
  {
    match e
    case None => keys
    case Some(entry) => keys[entry.address := entry.key]
  }

  /** The map after inserting `es` one after the other, starting from `keys`. */
  function InsertAll(keys: map<string, string>, es: seq<Option<KeyEntry>>): map<string, string>
  {
    if es == [] then keys
    else Insert(InsertAll(keys, es[..|es| - 1]), es[|es| - 1])
  }

  /** The key map of a file. */
  function KeyMap(lines: seq<string>, toChecksum: string -> Option<string>): map<string, string>
  {
    InsertAll(map[], LineEntries(lines, toChecksum))
  }

  /** One more line is one more `Insert`. */
  lemma KeyMapStep(lines: seq<string>, i: nat, toChecksum: string -> Option<string>)
    requires i < |lines|
    ensures KeyMap(lines[..i + 1], toChecksum) == Insert(KeyMap(lines[..i], toChecksum), KeyEntryOf(lines[i], toChecksum))
  {
    assert lines[..i + 1] == lines[..i] + [lines[i]];
    LineEntriesAppend(lines[..i], [lines[i]], toChecksum);
    var es := LineEntries(lines[..i + 1], toChecksum);
    assert es[..i] == LineEntries(lines[..i], toChecksum);
  }

  /** The loop of `process_addresses_file` that reads the lines of the file. */
  method ReadKeyPairs(lines: seq<string>, toChecksum: string -> Option<string>)
    returns (keys: map<string, string>)
    ensures keys == KeyMap(lines, toChecksum)
  {
    keys := map[];
    for i := 0 to |lines|
      invariant keys == KeyMap(lines[..i], toChecksum)
    {
      KeyMapStep(lines, i, toChecksum);
      var line := Strip(lines[i]);
      if line != "" && Contains(line, Separator) && StartsWith(line, HexPrefix) {
        var parts := Split(line, Separator);
        if |parts| >= 2 {
          var address := Strip(parts[0]);
          var key := Strip(parts[1]);
          match toChecksum(address) {
            case Some(checked) =>
              if !StartsWith(key, HexPrefix) {
                key := HexPrefix + key;
              }
              keys := keys[checked := key];
            case None =>
          }
        }
      }
    }
    assert lines[..|lines|] == lines;
  }

  /** A line is accepted exactly when, stripped, it is non-empty, holds a
      separator, starts with `0x` and its stripped first field converts; the
      entry is the converted address and the stripped second field with `0x`
      in front. */
  lemma KeyEntryAccepts(line: string, toChecksum: string -> Option<string>)
    ensures var t := Strip(line);
            (KeyEntryOf(line, toChecksum).Some? <==>
               t != "" && Contains(t, Separator) && StartsWith(t, HexPrefix)
               && toChecksum(Strip(Split(t, Separator)[0])).Some?)
    ensures var t := Strip(line);
            KeyEntryOf(line, toChecksum).Some? ==>
              && |Split(t, Separator)| >= 2
              && KeyEntryOf(line, toChecksum).value.address == toChecksum(Strip(Split(t, Separator)[0])).value
              && KeyEntryOf(line, toChecksum).value.key == WithHexPrefix(Strip(Split(t, Separator)[1]))
              && StartsWith(KeyEntryOf(line, toChecksum).value.key, HexPrefix)
  {
  }

  /** Inserting `xs` then `ys` is inserting `xs + ys`. */
  lemma {:induction false} InsertAllAppend(keys: map<string, string>, xs: seq<Option<KeyEntry>>, ys: seq<Option<KeyEntry>>)
    ensures InsertAll(keys, xs + ys) == InsertAll(InsertAll(keys, xs), ys)
    decreases |ys|
  {
    if ys == [] {
      assert xs + ys == xs;
    } else {
      var n := |ys| - 1;
      assert (xs + ys)[..|xs + ys| - 1] == xs + ys[..n];
      assert (xs + ys)[|xs + ys| - 1] == ys[n];
      InsertAllAppend(keys, xs, ys[..n]);
    }
  }

  /** A rejected line (an invalid address among them) leaves the map as it
      was, and the lines after it are read as if it were not there. */
  lemma RejectedLineIgnored(before: seq<string>, line: string, after: seq<string>,
                            toChecksum: string -> Option<string>)
    requires KeyEntryOf(line, toChecksum).None?
    ensures KeyMap(before + [line] + after, toChecksum) == KeyMap(before + after, toChecksum)
  {
    var eb, ea := LineEntries(before, toChecksum), LineEntries(after, toChecksum);
    LineEntriesAppend(before + [line], after, toChecksum);
    LineEntriesAppend(before, [line], toChecksum);
    LineEntriesAppend(before, after, toChecksum);
    var rejected: seq<Option<KeyEntry>> := [None];
    assert LineEntries([line], toChecksum) == rejected;
    InsertAllAppend(map[], eb + rejected, ea);
    InsertAllAppend(map[], eb, rejected);
    InsertAllAppend(map[], eb, ea);
    assert rejected[..0] == [];
  }

  /** `e` is an accepted entry for address `a`. */
  predicate Names(e: Option<KeyEntry>, a: string)
  {
    e.Some? && e.value.address == a
  }

  /** Every key of the inserted map comes from an entry that names it. */
  lemma {:induction false} InsertAllSound(es: seq<Option<KeyEntry>>, a: string)
    requires a in InsertAll(map[], es)
    ensures exists i :: 0 <= i < |es| && Names(es[i], a)
    decreases |es|
  {
    var n := |es| - 1;
    if !Names(es[n], a) {
      InsertAllSound(es[..n], a);
      var i :| 0 <= i < n && Names(es[..n][i], a);
      assert es[..n][i] == es[i];
    }
  }

  /** Every entry's address is a key of the inserted map. */
  lemma {:induction false} InsertAllComplete(es: seq<Option<KeyEntry>>, i: nat, a: string)
    requires i < |es| && Names(es[i], a)
    ensures a in InsertAll(map[], es)
    decreases |es|
  {
    var n := |es| - 1;
    if i < n {
      assert es[..n][i] == es[i];
      InsertAllComplete(es[..n], i, a);
    }
  }

  /** An entry not overwritten by a later one for its address keeps its key. */
  lemma {:induction false} InsertAllLastWins(es: seq<Option<KeyEntry>>, i: nat)
    requires i < |es| && es[i].Some?
    requires forall j :: i < j < |es| ==> !Names(es[j], es[i].value.address)
    ensures es[i].value.address in InsertAll(map[], es)
    ensures InsertAll(map[], es)[es[i].value.address] == es[i].value.key
    decreases |es|
  {
    var n := |es| - 1;
    if i < n {
      forall j | i < j < n
        ensures !Names(es[..n][j], es[..n][i].value.address)
      {
        assert es[..n][j] == es[j];
      }
      assert es[..n][i] == es[i];
      InsertAllLastWins(es[..n], i);
    }
  }

  /** If every entry's key starts with `0x`, so does every stored key. */
  lemma {:induction false} InsertAllKeysHexPrefixed(es: seq<Option<KeyEntry>>)
    requires forall i :: 0 <= i < |es| && es[i].Some? ==> StartsWith(es[i].value.key, HexPrefix)
    ensures forall a :: a in InsertAll(map[], es) ==> StartsWith(InsertAll(map[], es)[a], HexPrefix)
    decreases |es|
  {
    if es != [] {
      var n := |es| - 1;
      forall i | 0 <= i < n && es[..n][i].Some?
        ensures StartsWith(es[..n][i].value.key, HexPrefix)
      {
        assert es[..n][i] == es[i];
      }
      InsertAllKeysHexPrefixed(es[..n]);
    }
  }

  /** `line` is accepted and names address `a`. */
  predicate Yields(line: string, toChecksum: string -> Option<string>, a: string)
  {
    Names(KeyEntryOf(line, toChecksum), a)
  }

  /** Every address in the map comes from some line that yields it. */
  lemma KeyMapSound(lines: seq<string>, toChecksum: string -> Option<string>, a: string)
    ensures a in KeyMap(lines, toChecksum) ==> exists i :: 0 <= i < |lines| && Yields(lines[i], toChecksum, a)
  {
    if a in KeyMap(lines, toChecksum) {
      var es := LineEntries(lines, toChecksum);
      InsertAllSound(es, a);
      var i :| 0 <= i < |es| && Names(es[i], a);
      assert Yields(lines[i], toChecksum, a);
    }
  }

  /** Every line that yields an address puts that address in the map. */
  lemma KeyMapComplete(lines: seq<string>, toChecksum: string -> Option<string>, i: nat, a: string)
    requires i < |lines|
    ensures Yields(lines[i], toChecksum, a) ==> a in KeyMap(lines, toChecksum)
  {
    if Yields(lines[i], toChecksum, a) {
      InsertAllComplete(LineEntries(lines, toChecksum), i, a);
    }
  }

  /** Last write wins: the key stored for an address is the one of the last
      line that yields that address. */
  lemma KeyMapLastWriteWins(lines: seq<string>, toChecksum: string -> Option<string>, i: nat)
    requires i < |lines|
    ensures var e := KeyEntryOf(lines[i], toChecksum);
            e.Some? && (forall j :: i < j < |lines| ==> !Yields(lines[j], toChecksum, e.value.address)) ==>
              e.value.address in KeyMap(lines, toChecksum) && KeyMap(lines, toChecksum)[e.value.address] == e.value.key
  {
    var es := LineEntries(lines, toChecksum);
    var e := KeyEntryOf(lines[i], toChecksum);
    assert es[i] == e;
    if e.Some? && (forall j :: i < j < |lines| ==> !Yields(lines[j], toChecksum, e.value.address)) {
      forall j | i < j < |es|
        ensures !Names(es[j], e.value.address)
      {
        assert !Yields(lines[j], toChecksum, e.value.address);
      }
      InsertAllLastWins(es, i);
    }
  }

  /** Every stored key starts with `0x`. */
  lemma KeyMapKeysHexPrefixed(lines: seq<string>, toChecksum: string -> Option<string>)
    ensures forall a :: a in KeyMap(lines, toChecksum) ==> StartsWith(KeyMap(lines, toChecksum)[a], HexPrefix)
  {
    var es := LineEntries(lines, toChecksum);
    forall i | 0 <= i < |es| && es[i].Some?
      ensures StartsWith(es[i].value.key, HexPrefix)
    {
      }
    InsertAllKeysHexPrefixed(es);
  }
}
