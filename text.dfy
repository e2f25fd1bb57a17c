/**
 * The .NET string and integer primitives the persistence code relies on:
 * string.IsNullOrWhiteSpace, Contains, StartsWith, Split on a delimiter,
 * string.Join, Int32.ToString and Int32.Parse, and 32-bit wrap-around.
 */
module Text {
  import opened Wrappers

  // ---------------------------------------------------------------------
  // Characters and predicates on strings
  // ---------------------------------------------------------------------

  /** Char.IsWhiteSpace: U+0009..U+000D, U+0085, and the Unicode space, line and paragraph separators. */
  predicate IsWhiteSpace(c: char) {
    || c == ' ' || '\t' <= c <= '\r' || c == '\U{85}' || c == '\U{A0}' || c == '\U{1680}'
    || '\U{2000}' <= c <= '\U{200A}' || c == '\U{2028}' || c == '\U{2029}' || c == '\U{202F}'
    || c == '\U{205F}' || c == '\U{3000}'
  }

  /** string.IsNullOrWhiteSpace of a non-null string: empty, or whitespace only. */
  predicate IsBlank(s: string) {
    forall i :: 0 <= i < |s| ==> IsWhiteSpace(s[i])
  }

  /** `t` occurs in `s` starting at position `i`. */
  predicate OccursAt(s: string, t: string, i: int) {
    0 <= i && i + |t| <= |s| && s[i..i + |t|] == t
  }

  /** Ordinal string.Contains. */
  predicate Contains(s: string, t: string) {
    exists i :: 0 <= i <= |s| && OccursAt(s, t, i)
  }

  /** Ordinal string.StartsWith. */
  predicate StartsWith(s: string, prefix: string) {
    OccursAt(s, prefix, 0)
  }

  /** A delimiter whose first character does not recur in it, such as "|" or "<ctrlB>". */
  predicate Unbordered(d: string) {
    |d| > 0 && forall k :: 1 <= k < |d| ==> d[k] != d[0]
  }

  // ---------------------------------------------------------------------
  // Split and Join
  // ---------------------------------------------------------------------

  /** The leftmost occurrence of `d` in `s` at or after position `i`. */
  function FindFrom(s: string, d: string, i: nat): (r: Option<nat>)
    requires |d| > 0
    ensures r.Some? ==> i <= r.value && OccursAt(s, d, r.value)
    ensures r.Some? ==> forall j :: i <= j < r.value ==> !OccursAt(s, d, j)
    ensures r.None? ==> forall j :: i <= j ==> !OccursAt(s, d, j)
    decreases |s| - i
  {
    if i + |d| > |s| then None
    else if OccursAt(s, d, i) then Some(i)
    else FindFrom(s, d, i + 1)
  }

  /**
   * string.Split(char) and Regex.Split on a literal pattern: the pieces
   * between successive non-overlapping occurrences of `d`, scanning left to
   * right; empty pieces are kept.
   */
  function Split(s: string, d: string): (parts: seq<string>)
    requires |d| > 0
    ensures |parts| >= 1
    decreases |s|
  {
    match FindFrom(s, d, 0)
    case None => [s]
    case Some(i) => [s[..i]] + Split(s[i + |d|..], d)
  }

  /** string.Join(d, parts). */
  function Join(d: string, parts: seq<string>): string
  {
    if |parts| == 0 then ""
    else if |parts| == 1 then parts[0]
    else parts[0] + d + Join(d, parts[1..])
  }

  /** None of `parts` contains the delimiter. */
  predicate NoneContains(parts: seq<string>, d: string) {
    forall i :: 0 <= i < |parts| ==> !Contains(parts[i], d)
  }

  /** After a piece free of `d`, the first occurrence of `d` is the one that follows the piece. */
  lemma FirstOccurrenceAfterPiece(p: string, d: string, rest: string)
    requires Unbordered(d) && !Contains(p, d)
    ensures FindFrom(p + d + rest, d, 0) == Some(|p|)
  {
    var s := p + d + rest;
    assert s[|p|..|p| + |d|] == d;
    assert OccursAt(s, d, |p|);
    forall j | 0 <= j < |p|
      ensures !OccursAt(s, d, j)
    {
      if j + |d| <= |p| {
        assert s[j..j + |d|] == p[j..j + |d|];
        assert !OccursAt(p, d, j);
      } else {
        var k := |p| - j;
        assert s[j + k] == d[0];
        assert d[k] != d[0];
        assert j + |d| <= |s| ==> s[j..j + |d|][k] != d[k];
      }
    }
  }

  /** Splitting a join gives back the pieces, when no piece contains the delimiter. */
  lemma {:induction false} SplitJoin(d: string, parts: seq<string>)
    requires Unbordered(d) && |parts| >= 1 && NoneContains(parts, d)
    ensures Split(Join(d, parts), d) == parts
  {
    if |parts| == 1 {
      assert !Contains(parts[0], d);
    } else {
      var p, rest := parts[0], Join(d, parts[1..]);
      assert !Contains(p, d);
      FirstOccurrenceAfterPiece(p, d, rest);
      var s := Join(d, parts);
      assert s == p + d + rest;
      assert s[..|p|] == p;
      assert s[|p| + |d|..] == rest;
      SplitJoin(d, parts[1..]);
    }
  }

  /** An occurrence in a prefix is an occurrence in the whole string. */
  lemma OccursInPrefix(s: string, n: nat, t: string, j: int)
    requires n <= |s|
    ensures OccursAt(s[..n], t, j) ==> OccursAt(s, t, j)
  {
    if 0 <= j && j + |t| <= n {
      assert s[..n][j..j + |t|] == s[j..j + |t|];
    }
  }

  /** No piece of a split contains the delimiter. */
  lemma {:induction false} SplitPiecesFree(s: string, d: string)
    requires |d| > 0
    ensures NoneContains(Split(s, d), d)
    decreases |s|
  {
    match FindFrom(s, d, 0) {
      case None =>
        assert Split(s, d) == [s];
      case Some(i) =>
        var piece := s[..i];
        forall j | 0 <= j <= |piece|
          ensures !OccursAt(piece, d, j)
        {
          OccursInPrefix(s, i, d, j);
        }
        SplitPiecesFree(s[i + |d|..], d);
        var rest := Split(s[i + |d|..], d);
        assert Split(s, d) == [piece] + rest;
        forall k | 0 <= k < |Split(s, d)|
          ensures !Contains(Split(s, d)[k], d)
        {
          if k > 0 {
            assert Split(s, d)[k] == rest[k - 1];
          }
        }
    }
  }

  /** Appending characters the delimiter never uses cannot create an occurrence of it. */
  lemma ConcatAvoids(a: string, b: string, d: string)
    requires |d| > 0 && !Contains(a, d)
    requires forall i, k :: 0 <= i < |b| && 0 <= k < |d| ==> b[i] != d[k]
    ensures !Contains(a + b, d)
  {
    var s := a + b;
    forall j | 0 <= j <= |s|
      ensures !OccursAt(s, d, j)
    {
      if j + |d| <= |a| {
        assert s[j..j + |d|] == a[j..j + |d|];
        assert !OccursAt(a, d, j);
      } else if j + |d| <= |s| {
        var k := if j >= |a| then 0 else |a| - j;
        assert s[j..j + |d|][k] == b[j + k - |a|];
      }
    }
  }

  /** A string none of whose characters is the delimiter's first one does not contain it. */
  lemma MissingFirstCharNotContained(s: string, d: string)
    requires |d| > 0 && forall i :: 0 <= i < |s| ==> s[i] != d[0]
    ensures !Contains(s, d)
  {
    forall i | 0 <= i <= |s|
      ensures !OccursAt(s, d, i)
    {
      if i + |d| <= |s| {
        assert s[i..i + |d|][0] == s[i];
      }
    }
  }

  // ---------------------------------------------------------------------
  // Int32.ToString and Int32.Parse
  // ---------------------------------------------------------------------

  const MinInt32: int := -0x8000_0000
  const MaxInt32: int := 0x7FFF_FFFF

  predicate IsInt32(x: int) {
    MinInt32 <= x <= MaxInt32
  }

  /** Two's-complement wrap-around of C#'s unchecked `int` arithmetic. */
  function Wrap32(x: int): (r: int)
    ensures IsInt32(r)
    ensures IsInt32(x) ==> r == x
  {
    (x - MinInt32) % 0x1_0000_0000 + MinInt32
  }

  /** The wrapped value differs from the exact one by a multiple of 2^32. */
  lemma Wrap32Congruent(x: int)
    ensures (Wrap32(x) - x) % 0x1_0000_0000 == 0
  {
    var q := (x - MinInt32) / 0x1_0000_0000;
    assert x - MinInt32 == q * 0x1_0000_0000 + (x - MinInt32) % 0x1_0000_0000;
    assert Wrap32(x) - x == -q * 0x1_0000_0000;
  }

  /** Just past the largest int, addition wraps round to the negative end. */
  lemma Wrap32Over(x: int)
    requires MaxInt32 < x <= MaxInt32 + 0x1_0000_0000
    ensures Wrap32(x) == x - 0x1_0000_0000
  {
    assert (x - MinInt32) % 0x1_0000_0000 == x - MinInt32 - 0x1_0000_0000;
  }

  predicate IsDigit(c: char) {
    '0' <= c <= '9'
  }

  predicate AllDigits(s: string) {
    forall i :: 0 <= i < |s| ==> IsDigit(s[i])
  }

  function DigitChar(d: nat): (c: char)
    requires d < 10
    ensures IsDigit(c)
  {
    ('0' as int + d) as char
  }

  /** The value of a string of decimal digits. */
  function DigitsValue(ds: string): nat
    requires AllDigits(ds)
  {
    if |ds| == 0 then 0 else 10 * DigitsValue(ds[..|ds| - 1]) + (ds[|ds| - 1] as int - '0' as int)
  }

  /** The decimal digits of a natural number, without leading zeros. */
  function NatToString(n: nat): string
  {
    if n < 10 then [DigitChar(n)] else NatToString(n / 10) + [DigitChar(n % 10)]
  }

  /** Int32.ToString() in the invariant culture. */
  function IntToString(n: int): string
  {
    if n < 0 then "-" + NatToString(-n) else NatToString(n)
  }

  /** NumberStyles.AllowLeadingWhite / AllowTrailingWhite: U+0009..U+000D and U+0020. */
  predicate IsNumberWhite(c: char) {
    c == ' ' || '\t' <= c <= '\r'
  }

  /** The string without its leading white. */
  function TrimStart(s: string): string
  {
    if |s| > 0 && IsNumberWhite(s[0]) then TrimStart(s[1..]) else s
  }

  /** The string without its trailing white. */
  function TrimEnd(s: string): string
  {
    if |s| > 0 && IsNumberWhite(s[|s| - 1]) then TrimEnd(s[..|s| - 1]) else s
  }

  /**
   * Int32.Parse(s) with NumberStyles.Integer: optional surrounding white, an
   * optional sign, one or more decimal digits, and a value within 32 bits.
   * None is the FormatException or OverflowException the source would throw.
   */
  function ParseInt(s: string): (r: Option<int>)
    ensures r.Some? ==> IsInt32(r.value)
  {
    var t := TrimEnd(TrimStart(s));
    var negative := |t| > 0 && t[0] == '-';
    var digits := if |t| > 0 && (t[0] == '-' || t[0] == '+') then t[1..] else t;
    if |digits| == 0 || !AllDigits(digits) then None
    else
      var magnitude: int := DigitsValue(digits);
      var v := if negative then -magnitude else magnitude;
      if IsInt32(v) then Some(v) else None
  }

  lemma {:induction false} NatToStringDigits(n: nat)
    ensures |NatToString(n)| > 0 && AllDigits(NatToString(n))
    ensures DigitsValue(NatToString(n)) == n
  {
    if n >= 10 {
      NatToStringDigits(n / 10);
      var s := NatToString(n);
      assert s[..|s| - 1] == NatToString(n / 10);
    }
  }

  /** IntToString writes only digits and a leading minus sign, and never an empty string. */
  lemma IntToStringChars(n: int)
    ensures |IntToString(n)| > 0
    ensures forall i :: 0 <= i < |IntToString(n)| ==> IsDigit(IntToString(n)[i]) || IntToString(n)[i] == '-'
  {
    NatToStringDigits(if n < 0 then -n else n);
  }

  /** Int32.Parse reads back what Int32.ToString wrote. */
  lemma ParseIntToString(n: int)
    requires IsInt32(n)
    ensures ParseInt(IntToString(n)) == Some(n)
  {
    var m := if n < 0 then -n else n;
    NatToStringDigits(m);
    var s := IntToString(n);
    assert s[0] == '-' || IsDigit(s[0]);
    assert IsDigit(s[|s| - 1]);
    assert TrimStart(s) == s && TrimEnd(s) == s;
    if n < 0 {
      assert s[1..] == NatToString(m);
    }
  }

  /** IntToString never contains a delimiter that starts with something other than a digit or '-'. */
  lemma IntToStringAvoids(n: int, d: string)
    requires |d| > 0 && !IsDigit(d[0]) && d[0] != '-'
    ensures !Contains(IntToString(n), d)
  {
    IntToStringChars(n);
    MissingFirstCharNotContained(IntToString(n), d);
  }
}
