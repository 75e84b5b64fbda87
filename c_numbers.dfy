/**
 * Decimal integers as the C library reads them: the subject sequence of
 * strtol with base 10 (section 7.22.1.4 of C11), which both std::stoi and the
 * %d conversion of sscanf (section 7.21.6.2 of C11) use, and the decimal text
 * that reads back as a given int.
 */
module CNumbers {
  import opened Basics
  import opened CppString

  const INT_MIN: int := -0x8000_0000
  const INT_MAX: int := 0x7fff_ffff

  predicate InIntRange(n: int)
  {
    INT_MIN <= n <= INT_MAX
  }

  /** isspace in the "C" locale. */
  predicate IsSpace(c: char)
  {
    c == ' ' || c == '\t' || c == '\n' || c == '\U{000B}' || c == '\U{000C}' || c == '\r'
  }

  predicate IsDigit(c: char)
  {
    '0' <= c <= '9'
  }

  predicate AllDigits(ds: string)
  {
    forall k :: 0 <= k < |ds| ==> IsDigit(ds[k])
  }

  function DigitValue(c: char): nat
    requires IsDigit(c)
  {
    c as int - '0' as int
  }

  /** First index at or after i that does not hold white space. */
  function SkipSpace(s: string, i: nat): (j: nat)
    requires i <= |s|
    ensures i <= j <= |s|
    ensures forall k :: i <= k < j ==> IsSpace(s[k])
    ensures j < |s| ==> !IsSpace(s[j])
    decreases |s| - i
  {
    if i < |s| && IsSpace(s[i]) then SkipSpace(s, i + 1) else i
  }

  /** End of the longest run of decimal digits that starts at i. */
  function DigitsEnd(s: string, i: nat): (j: nat)
    requires i <= |s|
    ensures i <= j <= |s|
    ensures AllDigits(s[i..j])
    ensures j < |s| ==> !IsDigit(s[j])
    decreases |s| - i
  {
    if i < |s| && IsDigit(s[i]) then DigitsEnd(s, i + 1) else i
  }

  /** Value of a run of decimal digits, most significant digit first. */
  function DigitsValue(ds: string): nat
    requires AllDigits(ds)
  {
    if ds == [] then 0 else 10 * DigitsValue(ds[..|ds| - 1]) + DigitValue(ds[|ds| - 1])
  }

  /** A successful conversion: the value read and the index just past it. */
  datatype Conversion = Conversion(value: int, end: nat)

  /**
   * strtol(s + i, &end, 10): skip white space, take an optional sign and the
   * longest run of digits; no digits means no conversion.
   */
  function ScanDecimal(s: string, i: nat): (r: Option<Conversion>)
    requires i <= |s|
    ensures r.Some? ==> i < r.value.end <= |s| && IsDigit(s[r.value.end - 1])
    ensures r.Some? ==> r.value.end == |s| || !IsDigit(s[r.value.end])
  {
    var j := SkipSpace(s, i);
    var k := if j < |s| && (s[j] == '+' || s[j] == '-') then j + 1 else j;
    var e := DigitsEnd(s, k);
    if e == k then None
    else
      var m: int := DigitsValue(s[k..e]);
      Some(Conversion(if k > j && s[j] == '-' then -m else m, e))
  }

  function DigitChar(d: nat): char
    requires d < 10
  {
    ('0' as int + d) as char
  }

  /** Decimal digits of n, without leading zeros. */
  function FormatNat(n: nat): (ds: string)
    ensures |ds| > 0 && AllDigits(ds)
  {
    if n < 10 then [DigitChar(n)] else FormatNat(n / 10) + [DigitChar(n % 10)]
  }

  /** Decimal text of n, with a leading '-' when negative. */
  function FormatInt(n: int): (s: string)
    ensures |s| > 0 && (IsDigit(s[0]) || s[0] == '-')
  {
    if n < 0 then "-" + FormatNat(-n) else FormatNat(n)
  }

  lemma {:induction false} DigitsValueOfFormat(n: nat)
    ensures DigitsValue(FormatNat(n)) == n
  {
    if n >= 10 {
      var ds := FormatNat(n);
      DigitsValueOfFormat(n / 10);
      assert ds[..|ds| - 1] == FormatNat(n / 10);
    }
  }

  /** strtol's result from its parts: no leading space at i, the sign, the end of the digit run and its value. */
  lemma ScanParts(s: string, i: nat, k: nat, e: nat, v: nat)
    requires i <= |s| && SkipSpace(s, i) == i
    requires k == if i < |s| && (s[i] == '+' || s[i] == '-') then i + 1 else i
    requires k < e <= |s| && DigitsEnd(s, k) == e && DigitsValue(s[k..e]) == v
    ensures ScanDecimal(s, i) == Some(Conversion(if k > i && s[i] == '-' then -(v as int) else v, e))
  {
  }

  /** Where the decimal text of n sits at i, followed by a non-digit, strtol reads n and stops after it. */
  lemma ScanFormattedAt(s: string, i: nat, n: int, e: nat)
    requires i + |FormatInt(n)| == e <= |s| && s[i..e] == FormatInt(n)
    requires e == |s| || !IsDigit(s[e])
    ensures ScanDecimal(s, i) == Some(Conversion(n, e))
  {
    var f := FormatInt(n);
    var m: nat := if n < 0 then -n else n;
    var ds := FormatNat(m);
    var k := if n < 0 then i + 1 else i;
    assert f == (if n < 0 then "-" else "") + ds;
    assert s[i] == s[i..e][0] == f[0];
    assert SkipSpace(s, i) == i;
    assert s[k..e] == s[i..e][k - i..] == ds;
    DigitsEndAt(s, k, e);
    DigitsValueOfFormat(m);
    ScanParts(s, i, k, e, m);
  }

  /**
   * Reading back the decimal text of n, placed after any prefix and followed
   * by a non-digit, gives n and stops right after it.
   */
  lemma ScanFormatted(pre: string, n: int, rest: string)
    requires rest == [] || !IsDigit(rest[0])
    ensures var s := pre + FormatInt(n) + rest;
            ScanDecimal(s, |pre|) == Some(Conversion(n, |pre| + |FormatInt(n)|))
  {
    var f := FormatInt(n);
    Middle(pre, f, rest);
    ScanFormattedAt(pre + f + rest, |pre|, n, |pre| + |f|);
  }

  /** std::stoi reads back the decimal text of an int followed by a non-digit. */
  lemma StoiFormatted(n: int, rest: string)
    requires InIntRange(n) && (rest == [] || !IsDigit(rest[0]))
    ensures Stoi(FormatInt(n) + rest) == Success(n)
  {
    ScanFormatted([], n, rest);
    assert [] + FormatInt(n) + rest == FormatInt(n) + rest;
  }

  /** The middle part of pre + f + rest, and the character after it. */
  lemma Middle(pre: string, f: string, rest: string)
    ensures var s := pre + f + rest;
            s[|pre|..|pre| + |f|] == f && (rest != [] ==> s[|pre| + |f|] == rest[0])
  {
  }

  lemma {:induction false} DigitsEndAt(s: string, i: nat, j: nat)
    requires i <= j <= |s|
    requires AllDigits(s[i..j])
    requires j == |s| || !IsDigit(s[j])
    ensures DigitsEnd(s, i) == j
    decreases j - i
  {
    if i < j {
      assert s[i..j][0] == s[i];
      assert s[i + 1..j] == s[i..j][1..];
      DigitsEndAt(s, i + 1, j);
    }
  }

  /**
   * std::stoi(s): strtol base 10, then invalid_argument when nothing converts
   * and out_of_range when the value does not fit an int.
   */
  function Stoi(s: string): (r: Result<int, Exception>)
    ensures r.Success? ==> InIntRange(r.value) && ScanDecimal(s, 0).Some? && ScanDecimal(s, 0).value.value == r.value
    ensures r == Failure(InvalidArgument) <==> ScanDecimal(s, 0).None?
    ensures r == Failure(OutOfRange) <==> ScanDecimal(s, 0).Some? && !InIntRange(ScanDecimal(s, 0).value.value)
  {
    match ScanDecimal(s, 0)
    case None => Failure(InvalidArgument)
    case Some(c) => if InIntRange(c.value) then Success(c.value) else Failure(OutOfRange)
  }
}
