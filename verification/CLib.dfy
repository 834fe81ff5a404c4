/** The C library pieces the program leans on: bounded string copies, `%d` printing and `atoi`. */
module CLib {
  datatype Option<+T> = None | Some(value: T)

  /** `MAX_LEN`: the string limit every bounded string function of the program is given. */
  const MAX_LEN: nat := 4096
  const INT32_MAX: int := 0x7FFF_FFFF
  const NUL: char := '\0'

  /** A C string: it holds octets and no NUL. */
  predicate IsCString(s: string) {
    forall k :: 0 <= k < |s| ==> 0 < s[k] as int < 256
  }

  function Min(a: int, b: int): int {
    if a < b then a else b
  }

  /** `strcpy_s`: a source that does not fit with its terminator leaves the destination empty. */
  function StrCpyS(dmax: nat, src: string): string {
    if |src| < dmax then src else ""
  }

  /** The string that starts a buffer: everything before the first NUL. */
  function CStr(buf: string): (s: string)
    ensures s <= buf
    ensures forall k :: 0 <= k < |s| ==> s[k] != NUL
    ensures |s| < |buf| ==> buf[|s|] == NUL
  {
    if buf == "" || buf[0] == NUL then "" else [buf[0]] + CStr(buf[1..])
  }

  /** What `strnlen_s(buf, MAX_LEN)` characters of a buffer are. */
  function CStrN(buf: string): string {
    CStr(buf[..Min(|buf|, MAX_LEN)])
  }

  function Zeros(n: nat): (z: string)
    ensures |z| == n && forall k :: 0 <= k < n ==> z[k] == NUL
  {
    seq(n, _ => NUL)
  }

  lemma {:induction false} CStrOfTerminated(s: string, rest: string)
    requires forall k :: 0 <= k < |s| ==> s[k] != NUL
    requires rest == "" || rest[0] == NUL
    ensures CStr(s + rest) == s
  {
    if s == "" {
      assert s + rest == rest;
    } else {
      assert (s + rest)[1..] == s[1..] + rest && (s + rest)[0] == s[0];
      CStrOfTerminated(s[1..], rest);
      assert [s[0]] + s[1..] == s;
    }
  }

  // ---- `%d` and `atoi` -------------------------------------------------------------------------

  predicate IsDigit(c: char) { '0' <= c <= '9' }

  function DigitValue(c: char): (d: int)
    requires IsDigit(c)
    ensures 0 <= d <= 9
  {
    c as int - '0' as int
  }

  function DecimalNat(n: nat): (s: string)
    ensures s != "" && forall k :: 0 <= k < |s| ==> IsDigit(s[k])
  {
    var last := ('0' as int + n % 10) as char;
    if n < 10 then [last] else DecimalNat(n / 10) + [last]
  }

  /** `snprintf(.., "%d", n)` */
  function Decimal(n: int): (s: string)
    ensures s != ""
    ensures forall k :: 0 <= k < |s| ==> IsDigit(s[k]) || s[k] == '-'
  {
    if n < 0 then "-" + DecimalNat(-n) else DecimalNat(n)
  }

  /** The value of the digits that start `s`, with `acc` read before them. */
  function DigitsFrom(s: string, acc: int): int {
    if s != "" && IsDigit(s[0]) then DigitsFrom(s[1..], 10 * acc + DigitValue(s[0])) else acc
  }

  predicate IsBlank(c: char) { c == ' ' || '\t' <= c <= '\r' }

  function SkipBlanks(s: string): string {
    if s != "" && IsBlank(s[0]) then SkipBlanks(s[1..]) else s
  }

  /** `atoi`: optional blanks, an optional sign, then digits; 0 when there are none. */
  function Atoi(s: string): int {
    var t := SkipBlanks(s);
    if t != "" && t[0] == '-' then -DigitsFrom(t[1..], 0)
    else if t != "" && t[0] == '+' then DigitsFrom(t[1..], 0)
    else DigitsFrom(t, 0)
  }

  lemma {:induction false} DigitsFromAppend(s: string, c: char, acc: int)
    requires forall k :: 0 <= k < |s| ==> IsDigit(s[k])
    requires IsDigit(c)
    ensures DigitsFrom(s + [c], acc) == 10 * DigitsFrom(s, acc) + DigitValue(c)
  {
    if s == "" {
      assert (s + [c])[1..] == "";
      assert DigitsFrom("", 10 * acc + DigitValue(c)) == 10 * acc + DigitValue(c);
    } else {
      assert (s + [c])[1..] == s[1..] + [c];
      DigitsFromAppend(s[1..], c, 10 * acc + DigitValue(s[0]));
    }
  }

  lemma {:induction false} DigitsOfDecimal(n: nat)
    ensures DigitsFrom(DecimalNat(n), 0) == n
  {
    var last := ('0' as int + n % 10) as char;
    assert IsDigit(last) && DigitValue(last) == n % 10;
    if n < 10 {
      DigitsFromAppend("", last, 0);
      assert "" + [last] == [last];
    } else {
      DigitsOfDecimal(n / 10);
      DigitsFromAppend(DecimalNat(n / 10), last, 0);
    }
  }

  /** Printing an integer with `%d` and reading it back with `atoi` loses nothing. */
  lemma AtoiOfDecimal(n: int)
    ensures Atoi(Decimal(n)) == n
  {
    var s := Decimal(n);
    assert SkipBlanks(s) == s;
    if n < 0 {
      assert s[1..] == DecimalNat(-n);
      DigitsOfDecimal(-n);
    } else {
      DigitsOfDecimal(n);
    }
  }

  // ---- 32-bit integers -----------------------------------------------------------------------------------

  const INT32_MIN: int := -0x8000_0000

  predicate IsInt32(n: int) { INT32_MIN <= n <= INT32_MAX }

  lemma DecimalIsCString(n: int)
    ensures IsCString(Decimal(n))
  {
  }

  function Pow10(k: nat): nat { if k == 0 then 1 else 10 * Pow10(k - 1) }

  lemma {:induction false} DecimalNatLength(n: nat, k: nat)
    requires k > 0 && n < Pow10(k)
    ensures |DecimalNat(n)| <= k
  {
    if n >= 10 {
      assert k == 1 ==> Pow10(k) == 10;
      DecimalNatLength(n / 10, k - 1);
    }
  }

  /** `%d` prints an `int` in at most 11 characters. */
  lemma Int32Decimal(n: int)
    requires IsInt32(n)
    ensures |Decimal(n)| <= 11
  {
    assert Pow10(2) == 100;
    assert Pow10(4) == 100 * Pow10(2);
    assert Pow10(6) == 100 * Pow10(4);
    assert Pow10(8) == 100 * Pow10(6);
    assert Pow10(10) == 100 * Pow10(8);
    DecimalNatLength(if n < 0 then -n else n, 10);
  }

  /** Some numbers as they are written and read. */
  lemma NumberTexts()
    ensures Decimal(0) == "0" && Decimal(98) == "98" && Decimal(-10) == "-10"
    ensures Atoi("98") == 98 && Atoi(" -7x") == -7 && Atoi("+5") == 5 && Atoi("") == 0 && Atoi("x1") == 0
  {
    assert DecimalNat(9) == "9" && DecimalNat(1) == "1";
    assert DecimalNat(98) == DecimalNat(9) + "8" && DecimalNat(10) == DecimalNat(1) + "0";
    AtoiOfDecimal(98);
    assert " -7x"[1..] == "-7x" && "-7x"[1..] == "7x" && "7x"[1..] == "x" && "+5"[1..] == "5" && "5"[1..] == "";
    assert SkipBlanks(" -7x") == "-7x" && DigitsFrom("7x", 0) == DigitsFrom("x", 7) == 7;
    assert SkipBlanks("+5") == "+5" && DigitsFrom("5", 0) == DigitsFrom("", 5) == 5;
    assert SkipBlanks("x1") == "x1" && SkipBlanks("") == "";
  }
}
