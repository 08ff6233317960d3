/** The string operations the store relies on: lower-casing, blank tests,
    case-insensitive comparison, and reading and writing an unsigned 64-bit
    decimal number (ulong.TryParse and ulong.ToString). */
module Text {
  import opened Wrappers

  /** ulong's range is [0, 2^64). */
  const ULongLimit: nat := 0x1_0000_0000_0000_0000

  function LowerChar(c: char): char {
    if 'A' <= c <= 'Z' then (c as int + 32) as char else c
  }

  /** string.ToLower, on the ASCII letters. */
  function Lower(s: string): (r: string)
    ensures |r| == |s|
  {
    if s == [] then [] else [LowerChar(s[0])] + Lower(s[1..])
  }

  lemma {:induction false} LowerAt(s: string, i: nat)
    requires i < |s|
    ensures Lower(s)[i] == LowerChar(s[i])
  {
    if i > 0 {
      LowerAt(s[1..], i - 1);
    }
  }

  /** Lower-casing works character by character, so it distributes over
      concatenation. */
  lemma {:induction false} LowerAppend(a: string, b: string)
    ensures Lower(a + b) == Lower(a) + Lower(b)
  {
    if a != [] {
      assert (a + b)[0] == a[0];
      assert (a + b)[1..] == a[1..] + b;
      LowerAppend(a[1..], b);
    } else {
      assert a + b == b;
    }
  }

  /** Lower-casing twice is lower-casing once. */
  lemma {:induction false} LowerIdempotent(s: string)
    ensures Lower(Lower(s)) == Lower(s)
  {
    if s != [] {
      assert Lower(s)[0] == LowerChar(s[0]);
      assert Lower(s)[1..] == Lower(s[1..]);
      LowerIdempotent(s[1..]);
    }
  }

  /** A character that is not a letter stays as it is. */
  lemma {:induction false} LowerKeepsNonLetters(s: string)
    requires forall i :: 0 <= i < |s| ==> !('A' <= s[i] <= 'Z')
    ensures Lower(s) == s
  {
    if s != [] {
      LowerKeepsNonLetters(s[1..]);
    }
  }

  /** string.Compare(a, b, StringComparison.OrdinalIgnoreCase) == 0. */
  predicate EqualsIgnoreCase(a: string, b: string) {
    Lower(a) == Lower(b)
  }

  /** s.StartsWith(prefix, StringComparison.OrdinalIgnoreCase). */
  predicate StartsWithIgnoreCase(s: string, prefix: string) {
    |prefix| <= |s| && Lower(s[..|prefix|]) == Lower(prefix)
  }

  /** char.IsWhiteSpace, on the ASCII and Latin-1 white space. */
  predicate IsWhiteSpace(c: char) {
    c == ' ' || '\t' <= c <= '\r' || c == '\U{0085}' || c == '\U{00A0}'
  }

  /** string.IsNullOrWhiteSpace (a string is never null here). */
  predicate IsBlank(s: string) {
    forall i :: 0 <= i < |s| ==> IsWhiteSpace(s[i])
  }

  predicate IsDigit(c: char) {
    '0' <= c <= '9'
  }

  predicate AllDigits(s: string) {
    forall i :: 0 <= i < |s| ==> IsDigit(s[i])
  }

  /** The value of a string of decimal digits, most significant first. */
  function DigitsValue(s: string): nat
    requires AllDigits(s)
  {
    if s == [] then 0
    else DigitsValue(s[..|s| - 1]) * 10 + (s[|s| - 1] as int - '0' as int)
  }

  /** The white space NumberStyles.Integer allows around a number. */
  predicate IsNumberWhite(c: char) {
    c == ' ' || '\t' <= c <= '\r'
  }

  function TrimStart(s: string): (r: string)
    ensures |r| <= |s|
  {
    if s != [] && IsNumberWhite(s[0]) then TrimStart(s[1..]) else s
  }

  function TrimEnd(s: string): (r: string)
    ensures |r| <= |s|
  {
    if s != [] && IsNumberWhite(s[|s| - 1]) then TrimEnd(s[..|s| - 1]) else s
  }

  /** ulong.TryParse(s, out n) with NumberStyles.Integer: optional white
      space, an optional sign, at least one decimal digit, optional white
      space; the value must fit in 64 bits, and a minus sign is accepted only
      on zero. */
  function ParseULong(s: string): (r: Option<nat>)
    ensures r.Some? ==> r.value < ULongLimit
  {
    var t := TrimEnd(TrimStart(s));
    var negative := |t| > 0 && t[0] == '-';
    var digits := if |t| > 0 && (t[0] == '+' || t[0] == '-') then t[1..] else t;
    if digits == [] || !AllDigits(digits) then None
    else
      var v := DigitsValue(digits);
      if v >= ULongLimit || (negative && v != 0) then None else Some(v)
  }

  function DigitChar(d: nat): (c: char)
    requires d < 10
    ensures IsDigit(c) && c as int - '0' as int == d
  {
    ('0' as int + d) as char
  }

  /** ulong.ToString(): the decimal digits of k, without leading zeros. */
  function DecimalString(k: nat): (r: string)
    ensures r != [] && AllDigits(r)
    ensures r[0] == '0' ==> k == 0 && r == "0"
  {
    if k < 10 then [DigitChar(k)] else DecimalString(k / 10) + [DigitChar(k % 10)]
  }

  /** The digits written for k read back as k. */
  lemma {:induction false} DecimalStringValue(k: nat)
    ensures DigitsValue(DecimalString(k)) == k
  {
    var s := DecimalString(k);
    if k >= 10 {
      assert s[..|s| - 1] == DecimalString(k / 10);
      DecimalStringValue(k / 10);
    }
  }

  /** ulong.TryParse reads back what ulong.ToString wrote. */
  lemma ParseDecimalString(k: nat)
    requires k < ULongLimit
    ensures ParseULong(DecimalString(k)) == Some(k)
  {
    var s := DecimalString(k);
    assert !IsNumberWhite(s[0]) && !IsNumberWhite(s[|s| - 1]);
    assert TrimStart(s) == s;
    assert TrimEnd(s) == s;
    DecimalStringValue(k);
  }

  /** Different numbers are written differently. */
  lemma DecimalStringInjective(a: nat, b: nat)
    requires DecimalString(a) == DecimalString(b)
    ensures a == b
  {
    DecimalStringValue(a);
    DecimalStringValue(b);
  }

  /** Lower-casing leaves a number's digits alone. */
  lemma LowerDecimalString(k: nat)
    ensures Lower(DecimalString(k)) == DecimalString(k)
  {
    LowerKeepsNonLetters(DecimalString(k));
  }
}
