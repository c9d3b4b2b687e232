/** The JavaScript string primitives the lesson parser is built from:
    `String.prototype.split` with a non-empty string separator,
    `String.prototype.trim`, and the decimal rendering of a non-negative
    integer inside a template literal. */
module Text {
  import opened Wrappers

  // ---------------------------------------------------------------------
  // Occurrences of a separator
  // ---------------------------------------------------------------------

  /** `sep` occurs in `s` starting at position `p`. */
  predicate OccursAt(s: string, sep: string, p: nat) {
    p + |sep| <= |s| && s[p..p + |sep|] == sep
  }

  /** `sep` occurs nowhere in `s`. */
  ghost predicate Free(s: string, sep: string) {
    forall p: nat :: p <= |s| ==> !OccursAt(s, sep, p)
  }

  /** Writing `sep` right after `part` makes that the first occurrence of
      `sep`: no occurrence starts inside `part`, not even one that runs on
      into the separator. This is what a piece of a left-to-right split
      looks like when another piece follows it. */
  ghost predicate Leftmost(part: string, sep: string) {
    forall q: nat :: q < |part| ==> !OccursAt(part + sep, sep, q)
  }

  /** The first occurrence of `sep` in `s` at or after `from`. */
  function IndexOf(s: string, sep: string, from: nat): (r: Option<nat>)
    requires |sep| > 0
    decreases |s| - from
    ensures r.None? ==> forall p: nat :: from <= p ==> !OccursAt(s, sep, p)
    ensures r.Some? ==> from <= r.value && OccursAt(s, sep, r.value)
    ensures r.Some? ==> forall p: nat :: from <= p < r.value ==> !OccursAt(s, sep, p)
  {
    if from + |sep| > |s| then None
    else if s[from..from + |sep|] == sep then Some(from)
    else IndexOf(s, sep, from + 1)
  }

  // ---------------------------------------------------------------------
  // split and its inverse
  // ---------------------------------------------------------------------

  /** Glue the pieces back together with `sep` between neighbours. */
  function Join(parts: seq<string>, sep: string): string {
    if |parts| == 0 then ""
    else if |parts| == 1 then parts[0]
    else parts[0] + sep + Join(parts[1..], sep)
  }

  /** `parts` is what a left-to-right, non-overlapping split of `s` on
      `sep` produces: at least one piece, joining the pieces gives `s`
      back, every piece but the last ends exactly where the next leftmost
      separator starts, and the last piece holds no separator. */
  ghost predicate IsSplitOf(parts: seq<string>, s: string, sep: string) {
    && |parts| >= 1
    && Join(parts, sep) == s
    && (forall k :: 0 <= k < |parts| - 1 ==> Leftmost(parts[k], sep))
    && Free(parts[|parts| - 1], sep)
  }

  /** `s.split(sep)` for a non-empty string separator: scan left to right,
      cut at each occurrence and resume after it. */
  function Split(s: string, sep: string): seq<string>
    requires |sep| > 0
    decreases |s|
  {
    match IndexOf(s, sep, 0)
    case None => [s]
    case Some(p) => [s[..p]] + Split(s[p + |sep|..], sep)
  }

  /** What `Split` returns is a left-to-right split of its input. */
  lemma {:induction false} SplitIsSplit(s: string, sep: string)
    requires |sep| > 0
    ensures IsSplitOf(Split(s, sep), s, sep)
    decreases |s|
  {
    match IndexOf(s, sep, 0)
    case None =>
    case Some(p) =>
      SplitIsSplit(s[p + |sep|..], sep);
      SplitStep(s, sep, p, Split(s[p + |sep|..], sep));
  }

  /** Cutting at the first occurrence and splitting the rest yields a split. */
  lemma SplitStep(s: string, sep: string, p: nat, tail: seq<string>)
    requires |sep| > 0 && OccursAt(s, sep, p)
    requires forall q: nat :: q < p ==> !OccursAt(s, sep, q)
    requires IsSplitOf(tail, s[p + |sep|..], sep)
    ensures IsSplitOf([s[..p]] + tail, s, sep)
  {
    var parts := [s[..p]] + tail;
    assert parts[1..] == tail;
    assert s == s[..p] + sep + s[p + |sep|..] by {
      assert s == s[..p] + s[p..p + |sep|] + s[p + |sep|..];
    }
    assert s[..p] + sep == s[..p + |sep|];
    forall q: nat | q < p
      ensures !OccursAt(s[..p] + sep, sep, q)
    {
      assert (s[..p + |sep|])[q..q + |sep|] == s[q..q + |sep|];
      assert !OccursAt(s, sep, q);
    }
    forall k | 1 <= k < |parts| - 1
      ensures Leftmost(parts[k], sep)
    {
      assert parts[k] == tail[k - 1];
    }
  }

  /** A left-to-right split is unique: any decomposition with the shape of
      `IsSplitOf` is the one `Split` computes. */
  lemma {:induction false} SplitUnique(parts: seq<string>, s: string, sep: string)
    requires |sep| > 0 && IsSplitOf(parts, s, sep)
    ensures Split(s, sep) == parts
    decreases |parts|
  {
    if |parts| == 1 {
      assert IndexOf(s, sep, 0) == None;
    } else {
      var head := parts[0];
      var rest := Join(parts[1..], sep);
      assert s == head + sep + rest;
      assert OccursAt(s, sep, |head|) by {
        assert s[|head|..|head| + |sep|] == sep;
      }
      forall q: nat | q < |head|
        ensures !OccursAt(s, sep, q)
      {
        assert s[..|head| + |sep|] == head + sep;
        assert (head + sep)[q..q + |sep|] == s[q..q + |sep|];
        assert !OccursAt(head + sep, sep, q);
      }
      var found := IndexOf(s, sep, 0);
      assert found == Some(|head|);
      assert s[..|head|] == head;
      assert s[|head| + |sep|..] == rest;
      forall k | 0 <= k < |parts[1..]| - 1
        ensures Leftmost(parts[1..][k], sep)
      {
        assert parts[1..][k] == parts[k + 1];
      }
      assert IsSplitOf(parts[1..], rest, sep);
      SplitUnique(parts[1..], rest, sep);
      assert Split(s, sep) == [head] + parts[1..];
    }
  }

  /** Splitting and joining again gives back the original text. */
  lemma JoinSplit(s: string, sep: string)
    requires |sep| > 0
    ensures Join(Split(s, sep), sep) == s
  {
    SplitIsSplit(s, sep);
  }

  /** For a one-character separator, the pieces of a split are exactly the
      runs of characters between separator characters. */
  lemma SplitOnChar(parts: seq<string>, c: char)
    requires forall k, i :: 0 <= k < |parts| && 0 <= i < |parts[k]| ==> parts[k][i] != c
    requires |parts| >= 1
    ensures Split(Join(parts, [c]), [c]) == parts
  {
    forall k | 0 <= k < |parts|
      ensures Leftmost(parts[k], [c]) && Free(parts[k], [c])
    {
      forall q: nat | q < |parts[k]|
        ensures !OccursAt(parts[k] + [c], [c], q)
      {
        assert (parts[k] + [c])[q] == parts[k][q];
      }
      forall q: nat | q <= |parts[k]|
        ensures !OccursAt(parts[k], [c], q)
      {
        if q < |parts[k]| {
          assert parts[k][q..q + 1][0] == parts[k][q];
        }
      }
    }
    SplitUnique(parts, Join(parts, [c]), [c]);
  }

  // ---------------------------------------------------------------------
  // trim
  // ---------------------------------------------------------------------

  /** The characters `trim` removes: ECMAScript WhiteSpace and
      LineTerminator code points. */
  predicate IsSpace(c: char) {
    var n := c as int;
    || (0x09 <= n <= 0x0D)        // tab, line feed, vertical tab, form feed, carriage return
    || n == 0x20 || n == 0xA0 || n == 0x1680
    || (0x2000 <= n <= 0x200A)
    || n == 0x2028 || n == 0x2029 || n == 0x202F || n == 0x205F
    || n == 0x3000 || n == 0xFEFF
  }

  /** Every character of `s` is white space (vacuously so for ""). */
  ghost predicate AllSpace(s: string) {
    forall i :: 0 <= i < |s| ==> IsSpace(s[i])
  }

  /** Drop leading white space. */
  function TrimStart(s: string): string {
    if |s| > 0 && IsSpace(s[0]) then TrimStart(s[1..]) else s
  }

  /** What `TrimStart` drops is white space, and what it keeps is a suffix
      that does not start with white space. */
  lemma {:induction false} TrimStartSpec(s: string)
    ensures |TrimStart(s)| <= |s| && TrimStart(s) == s[|s| - |TrimStart(s)|..]
    ensures AllSpace(s[..|s| - |TrimStart(s)|])
    ensures TrimStart(s) == [] || !IsSpace(TrimStart(s)[0])
  {
    if |s| > 0 && IsSpace(s[0]) {
      TrimStartSpec(s[1..]);
      var r := TrimStart(s[1..]);
      assert s[..|s| - |r|] == [s[0]] + s[1..][..|s| - 1 - |r|];
    }
  }

  /** Drop trailing white space. */
  function TrimEnd(s: string): string {
    if |s| > 0 && IsSpace(s[|s| - 1]) then TrimEnd(s[..|s| - 1]) else s
  }

  /** What `TrimEnd` drops is white space, and what it keeps is a prefix
      that does not end with white space. */
  lemma {:induction false} TrimEndSpec(s: string)
    ensures |TrimEnd(s)| <= |s| && TrimEnd(s) == s[..|TrimEnd(s)|]
    ensures AllSpace(s[|TrimEnd(s)|..])
    ensures TrimEnd(s) == [] || !IsSpace(TrimEnd(s)[|TrimEnd(s)| - 1])
  {
    if |s| > 0 && IsSpace(s[|s| - 1]) {
      TrimEndSpec(s[..|s| - 1]);
      var r := TrimEnd(s[..|s| - 1]);
      assert s[|r|..] == s[..|s| - 1][|r|..] + [s[|s| - 1]];
    }
  }

  /** `r` is the infix of `s` starting at `i`, and only white space lies
      on either side of it. */
  ghost predicate CutFrom(s: string, r: string, i: nat) {
    && i + |r| <= |s| && r == s[i..i + |r|]
    && AllSpace(s[..i]) && AllSpace(s[i + |r|..])
  }

  /** White space cut from both ends of `s` (script.js:132, 140). */
  function Trim(s: string): string {
    TrimEnd(TrimStart(s))
  }

  /** `trim` cuts only white space from either end of `s`, and what is left
      neither starts nor ends with white space; it is empty exactly when
      `s` is all white space. */
  lemma TrimSpec(s: string)
    ensures exists i: nat :: CutFrom(s, Trim(s), i)
    ensures Trim(s) == [] || (!IsSpace(Trim(s)[0]) && !IsSpace(Trim(s)[|Trim(s)| - 1]))
    ensures Trim(s) == [] <==> AllSpace(s)
  {
    var front := TrimStart(s);
    TrimStartSpec(s);
    TrimEndSpec(front);
    TrimFacts(s, front, TrimEnd(front));
    TrimCut(s, front, TrimEnd(front), |s| - |front|);
    assert CutFrom(s, Trim(s), |s| - |front|);
  }

  lemma TrimFacts(s: string, front: string, r: string)
    requires |front| <= |s| && front == s[|s| - |front|..] && AllSpace(s[..|s| - |front|])
    requires |r| <= |front| && r == front[..|r|] && AllSpace(front[|r|..])
    requires r == [] || !IsSpace(r[0])
    ensures exists i: nat :: CutFrom(s, r, i)
    ensures r == [] <==> AllSpace(s)
  {
    var i := |s| - |front|;
    TrimCut(s, front, r, i);
    if r == [] {
      AllSpaceConcat(s[..i], front);
      assert s == s[..i] + front;
    } else {
      assert s[i] == r[0];
    }
  }

  lemma TrimCut(s: string, front: string, r: string, i: nat)
    requires i <= |s| && front == s[i..] && AllSpace(s[..i])
    requires |r| <= |front| && r == front[..|r|] && AllSpace(front[|r|..])
    ensures CutFrom(s, r, i)
  {
    assert s[i + |r|..] == front[|r|..];
  }

  lemma AllSpaceConcat(a: string, b: string)
    requires AllSpace(a) && AllSpace(b)
    ensures AllSpace(a + b)
  {
    forall j | 0 <= j < |a + b|
      ensures IsSpace((a + b)[j])
    {
      if j < |a| {
        assert (a + b)[j] == a[j];
      } else {
        assert (a + b)[j] == b[j - |a|];
      }
    }
  }

  /** A string with no white space at either end is its own trim. */
  lemma TrimTrimmed(s: string)
    requires s == [] || (!IsSpace(s[0]) && !IsSpace(s[|s| - 1]))
    ensures Trim(s) == s
  {
  }

  // ---------------------------------------------------------------------
  // decimal numerals
  // ---------------------------------------------------------------------

  predicate IsDigit(c: char) {
    '0' <= c <= '9'
  }

  predicate AllDigits(s: string) {
    forall i :: 0 <= i < |s| ==> IsDigit(s[i])
  }

  /** The value of a string of decimal digits. */
  function DigitsValue(s: string): nat
    requires AllDigits(s)
  {
    if |s| == 0 then 0
    else 10 * DigitsValue(s[..|s| - 1]) + (s[|s| - 1] as int - '0' as int)
  }

  /** A non-negative integer written in decimal: its digits, with no
      leading zero, read back as `n`. */
  function NatToString(n: nat): (r: string)
    ensures |r| >= 1 && AllDigits(r)
    ensures |r| > 1 ==> r[0] != '0'
    ensures DigitsValue(r) == n
  {
    var d := ['0' + (n % 10) as char];
    assert d[0] as int - '0' as int == n % 10;
    if n < 10 then d
    else
      var r := NatToString(n / 10) + d;
      assert r[..|r| - 1] == NatToString(n / 10);
      r
  }

  /** Different numbers render differently. */
  lemma NatToStringInjective(a: nat, b: nat)
    requires NatToString(a) == NatToString(b)
    ensures a == b
  {
  }

  /** Strings that share a prefix are equal when their remainders are. */
  lemma CancelPrefix(x: string, a: string, b: string)
    requires x + a == x + b
    ensures a == b
  {
    assert a == (x + a)[|x|..];
    assert b == (x + b)[|x|..];
  }
}
