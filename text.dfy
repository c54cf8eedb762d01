/** The few Python `str` operations the parsers of zz.py rely on:
    `strip()`, `startswith`, the `in` test for a substring, `split(sep)` and
    its inverse `sep.join(parts)`. */
module Text {
  import opened Common

  /** The field separator of the credential file. */
  const Separator: string := "----"

  /** The prefix of a hex address or key. */
  const HexPrefix: string := "0x"

  /** Python's `str.isspace()` for a single character. */
  predicate IsSpace(c: char)
  {
    c in {'\t', '\n', '\U{000B}', '\U{000C}', '\r', '\U{001C}', '\U{001D}', '\U{001E}', '\U{001F}', ' ',
          '\U{0085}', '\U{00A0}', '\U{1680}', '\U{2000}', '\U{2001}', '\U{2002}', '\U{2003}', '\U{2004}',
          '\U{2005}', '\U{2006}', '\U{2007}', '\U{2008}', '\U{2009}', '\U{200A}', '\U{2028}', '\U{2029}',
          '\U{202F}', '\U{205F}', '\U{3000}'}
  }

  /** Drops the leading whitespace: the result is a suffix of `s`. */
  function StripStart(s: string): (r: string)
    ensures |r| <= |s| && r == s[|s| - |r|..]
    ensures r == [] || !IsSpace(r[0])
    ensures forall k :: 0 <= k < |s| - |r| ==> IsSpace(s[k])
    decreases |s|
  {
    if s != [] && IsSpace(s[0]) then
      var r := StripStart(s[1..]);
      assert s[1..][|s| - 1 - |r|..] == s[|s| - |r|..];
      assert forall k :: 1 <= k < |s| - |r| ==> s[1..][k - 1] == s[k];
      r
    else s
  }

  /** Drops the trailing whitespace: the result is a prefix of `s`. */
  function StripEnd(s: string): (r: string)
    ensures |r| <= |s| && r == s[..|r|]
    ensures r == [] || !IsSpace(r[|r| - 1])
    ensures forall k :: |r| <= k < |s| ==> IsSpace(s[k])
    decreases |s|
  {
    if s != [] && IsSpace(s[|s| - 1]) then StripEnd(s[..|s| - 1]) else s
  }

  /** How many leading characters `strip()` removes. */
  function StripOffset(s: string): nat
  {
    |s| - |StripStart(s)|
  }

  /** Python's `s.strip()`: the slice of `s` that starts at `StripOffset(s)` and
      neither starts nor ends with whitespace, everything cut off being
      whitespace. */
  function Strip(s: string): (r: string)
    ensures StripOffset(s) + |r| <= |s| && r == s[StripOffset(s)..StripOffset(s) + |r|]
    ensures r == [] || (!IsSpace(r[0]) && !IsSpace(r[|r| - 1]))
    ensures forall k :: 0 <= k < StripOffset(s) ==> IsSpace(s[k])
    ensures forall k :: StripOffset(s) + |r| <= k < |s| ==> IsSpace(s[k])
  {
    var u := StripStart(s);
    var r := StripEnd(u);
    assert r == s[|s| - |u|..|s| - |u| + |r|];
    assert r != [] ==> r[0] == u[0];
    r
  }

  /** Python's `s.startswith(p)`. */
  predicate StartsWith(s: string, p: string)
  {
    |p| <= |s| && s[..|p|] == p
  }

  /** `sep` occurs in `s` at position `i`. */
  ghost predicate OccursAt(s: string, sep: string, i: int)
  {
    0 <= i && i + |sep| <= |s| && s[i..i + |sep|] == sep
  }

  /** The first occurrence of `sep` in `s` at or after `from`. */
  function IndexFrom(s: string, sep: string, from: nat): (r: Option<nat>)
    requires from <= |s|
    ensures r.Some? ==> from <= r.value && OccursAt(s, sep, r.value)
    ensures r.Some? ==> forall k :: from <= k < r.value ==> !OccursAt(s, sep, k)
    ensures r.None? ==> forall k :: from <= k ==> !OccursAt(s, sep, k)
    decreases |s| - from
  {
    if from + |sep| > |s| then None
    else if s[from..from + |sep|] == sep then Some(from)
    else IndexFrom(s, sep, from + 1)
  }

  /** Python's `s.find(sep)`, with `None` for -1: the leftmost occurrence. */
  function IndexOf(s: string, sep: string): (r: Option<nat>)
    ensures r.Some? ==> OccursAt(s, sep, r.value)
    ensures r.Some? ==> forall k :: 0 <= k < r.value ==> !OccursAt(s, sep, k)
    ensures r.None? ==> forall k :: !OccursAt(s, sep, k)
  {
    IndexFrom(s, sep, 0)
  }

  /** Python's `sep in s`. */
  predicate Contains(s: string, sep: string)
  {
    IndexOf(s, sep).Some?
  }

  /** An occurrence inside a slice is an occurrence in the whole string. */
  lemma OccursInSlice(s: string, sep: string, i: nat, j: nat, k: int)
    requires i <= j <= |s|
    requires OccursAt(s[i..j], sep, k)
    ensures OccursAt(s, sep, i + k)
  {
    var t := s[i..j];
    assert t[k..k + |sep|] == s[i + k..i + k + |sep|] by {
      forall m | k <= m < k + |sep|
        ensures t[m] == s[i + m]
      {
      }
    }
  }

  /** A slice of a string without `sep` has no `sep` either. */
  lemma NoSeparatorInSlice(s: string, sep: string, i: nat, j: nat)
    requires i <= j <= |s|
    requires !Contains(s, sep)
    ensures !Contains(s[i..j], sep)
  {
    if Contains(s[i..j], sep) {
      OccursInSlice(s, sep, i, j, IndexOf(s[i..j], sep).value);
      assert false;
    }
  }

  /** Stripping cannot create a separator. */
  lemma NoSeparatorAfterStrip(s: string, sep: string)
    requires !Contains(s, sep)
    ensures !Contains(Strip(s), sep)
  {
    var d := StripOffset(s);
    NoSeparatorInSlice(s, sep, d, d + |Strip(s)|);
  }

  /** Python's `s.split(sep)` for a non-empty `sep`: the pieces between the
      non-overlapping occurrences of `sep`, found from the left. */
  function Split(s: string, sep: string): (parts: seq<string>)
    requires |sep| > 0
    ensures |parts| >= 1
    ensures |parts| >= 2 <==> Contains(s, sep)
    ensures forall k :: 0 <= k < |parts| ==> !Contains(parts[k], sep)
    ensures Contains(s, sep) ==> parts[0] == s[..IndexOf(s, sep).value]
    decreases |s|
  {
    match IndexOf(s, sep)
    case None => [s]
    case Some(i) =>
      var head := s[..i];
      assert !Contains(head, sep) by {
        if Contains(head, sep) {
          OccursInSlice(s, sep, 0, i, IndexOf(head, sep).value);
          assert false;
        }
      }
      [head] + Split(s[i + |sep|..], sep)
  }

  /** Python's `sep.join(parts)`. */
  function Join(parts: seq<string>, sep: string): string
  {
    if |parts| == 0 then ""
    else if |parts| == 1 then parts[0]
    else parts[0] + sep + Join(parts[1..], sep)
  }

  /** `split` and `join` are inverse: `sep.join(s.split(sep)) == s`. */
  lemma {:induction false} JoinSplit(s: string, sep: string)
    requires |sep| > 0
    ensures Join(Split(s, sep), sep) == s
    decreases |s|
  {
    match IndexOf(s, sep)
    case None =>
    case Some(i) =>
      var rest := s[i + |sep|..];
      JoinSplit(rest, sep);
      assert Split(s, sep) == [s[..i]] + Split(rest, sep);
      assert s == s[..i] + sep + rest;
  }

  /** The first two fields of `s.split(sep)`, by position: the text before the
      leftmost separator, and the text from there up to the next separator or
      the end. Nothing after a second separator reaches them. */
  lemma FirstTwoFields(s: string, sep: string)
    requires |sep| > 0 && Contains(s, sep)
    ensures var i := IndexOf(s, sep).value;
            var rest := s[i + |sep|..];
            && |Split(s, sep)| >= 2
            && Split(s, sep)[0] == s[..i]
            && Split(s, sep)[1] == match IndexOf(rest, sep)
                                   case None => rest
                                   case Some(j) => rest[..j]
  {
    var i := IndexOf(s, sep).value;
    SplitStep(s, sep);
    SplitFirst(s[i + |sep|..], sep);
  }

  /** A split with a separator is the text before it, then the split of the
      rest. */
  lemma SplitStep(s: string, sep: string)
    requires |sep| > 0 && Contains(s, sep)
    ensures var i := IndexOf(s, sep).value;
            Split(s, sep) == [s[..i]] + Split(s[i + |sep|..], sep)
  {
  }

  /** The first piece of a split: up to the leftmost separator, or all of it. */
  lemma SplitFirst(s: string, sep: string)
    requires |sep| > 0
    ensures Split(s, sep)[0] == match IndexOf(s, sep)
                                case None => s
                                case Some(j) => s[..j]
  {
  }
}
