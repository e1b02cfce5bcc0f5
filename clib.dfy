/**
  The pieces of C and C++ library behaviour that the detector reader relies on,
  written out because Dafny's own integers and strings behave differently:
  the truncating remainder of C's `%`, the wrap-around of a conversion to a
  64-bit `size_t`, `atoi`, `strtoul` in base 16, `std::string::substr` and
  the conversion of a zero-terminated byte buffer to a `std::string`.
*/
module CLib {
  import opened Wrappers

  /** An unsigned 8-bit value, as read from a file. */
  newtype byte = b: int | 0 <= b < 0x100

  /** 2^64: `size_t` is 64 bits wide on the targets of the reader. */
  const SizeModulus: int := 0x1_0000_0000_0000_0000

  function Abs(a: int): nat { if a < 0 then -a else a }

  function Max(a: int, b: int): int { if a < b then b else a }

  /** C's `a % b`: truncates toward zero, so the remainder has the sign of `a`. */
  function CRem(a: int, b: int): (r: int)
    requires b != 0
    ensures Abs(r) < Abs(b)
    ensures a >= 0 ==> r >= 0
    ensures a <= 0 ==> r <= 0
    ensures a == CDiv(a, b) * b + r
  {
    if a >= 0 then a % Abs(b) else -((-a) % Abs(b))
  }

  /** C's `a / b`: truncates toward zero. */
  function CDiv(a: int, b: int): int
    requires b != 0
  {
    if (a >= 0) == (b > 0) then Abs(a) / Abs(b) else -(Abs(a) / Abs(b))
  }

  lemma MulNonneg(a: int, b: int)
    requires a >= 0 && b >= 0
    ensures a * b >= 0
  {
  }

  /** A multiple of a positive `n` strictly between `-n` and `n` is zero. */
  lemma MulSmall(n: int, d: int)
    requires n > 0 && -n < n * d < n
    ensures d == 0
  {
    if d > 0 {
      MulNonneg(n, d - 1);
    } else if d < 0 {
      MulNonneg(n, -d - 1);
    }
  }

  /** Euclidean quotient and remainder are the unique pair with `i == n * q + r` and `0 <= r < n`. */
  lemma DivModUnique(i: int, n: int, q: int, r: int)
    requires n > 0 && 0 <= r < n && i == n * q + r
    ensures i / n == q && i % n == r
  {
    var q', r' := i / n, i % n;
    assert n * q + r == n * q' + r';
    assert n * (q - q') == r' - r;
    MulSmall(n, q - q');
  }

  /** The value an `int` takes when it is converted to `size_t` (wrap-around modulo 2^64). */
  function AsSize(v: int): (r: nat)
    ensures r < SizeModulus
    ensures 0 <= v < SizeModulus ==> r == v
    ensures -SizeModulus <= v < 0 ==> r == v + SizeModulus
  {
    v % SizeModulus
  }

  /** The value a `size_t` takes when it is cast to a 32-bit `int` (two's complement wrap-around). */
  function AsInt(v: int): (r: int)
    ensures -0x8000_0000 <= r < 0x8000_0000
    ensures -0x8000_0000 <= v < 0x8000_0000 ==> r == v
  {
    (v + 0x8000_0000) % 0x1_0000_0000 - 0x8000_0000
  }

  /** `isspace` in the "C" locale. */
  predicate IsSpace(c: char) {
    c == ' ' || c == '\t' || c == '\n' || c == '\U{000B}' || c == '\U{000C}' || c == '\r'
  }

  function SkipSpace(s: string): (t: string)
    ensures t == [] || !IsSpace(t[0])
  {
    if |s| > 0 && IsSpace(s[0]) then SkipSpace(s[1..]) else s
  }

  predicate IsDigit(c: char) { '0' <= c <= '9' }

  function DigitValue(c: char): nat
    requires IsDigit(c)
  {
    (c as int) - ('0' as int)
  }

  /** Where `atoi` is: before the number (white space, then an optional sign), or in its digits. */
  datatype AtoiState = Leading | Digits(negative: bool, acc: nat)

  function AtoiScan(s: string, st: AtoiState): int
    decreases |s|, if st.Leading? then 1 else 0
  {
    match st
    case Leading =>
      if |s| > 0 && IsSpace(s[0]) then AtoiScan(s[1..], Leading)
      else if |s| > 0 && s[0] == '-' then AtoiScan(s[1..], Digits(true, 0))
      else if |s| > 0 && s[0] == '+' then AtoiScan(s[1..], Digits(false, 0))
      else AtoiScan(s, Digits(false, 0))
    case Digits(negative, acc) =>
      if |s| > 0 && IsDigit(s[0]) then AtoiScan(s[1..], Digits(negative, acc * 10 + DigitValue(s[0])))
      else if negative then -(acc as int) else acc
  }

  /** `atoi`: leading white space, an optional sign, then the longest run of decimal digits. */
  function Atoi(s: string): int {
    AtoiScan(s, Leading)
  }

  predicate IsHexDigit(c: char) {
    IsDigit(c) || 'a' <= c <= 'f' || 'A' <= c <= 'F'
  }

  function HexDigitValue(c: char): nat
    requires IsHexDigit(c)
  {
    if IsDigit(c) then DigitValue(c)
    else if 'a' <= c <= 'f' then (c as int) - ('a' as int) + 10
    else (c as int) - ('A' as int) + 10
  }

  function HexFrom(s: string, acc: nat): nat {
    if |s| > 0 && IsHexDigit(s[0]) then HexFrom(s[1..], acc * 16 + HexDigitValue(s[0])) else acc
  }

  /**
    `strtoul(s, 0, 16)`: leading white space, an optional sign, an optional `0x`
    or `0X`, then the longest run of hexadecimal digits; a minus sign negates.
  */
  function StrToULHex(s: string): int {
    var t := SkipSpace(s);
    var u := if |t| > 0 && (t[0] == '-' || t[0] == '+') then t[1..] else t;
    var v := if |u| >= 2 && u[0] == '0' && (u[1] == 'x' || u[1] == 'X') then HexFrom(u[2..], 0) else HexFrom(u, 0);
    if |t| > 0 && t[0] == '-' then -(v as int) else v
  }

  /** `s.substr(pos, len)`: out of range (an exception in C++) when `pos > s.size()`. */
  function Substr(s: string, pos: nat, len: nat): (r: Option<string>)
    ensures r.None? <==> pos > |s|
    ensures r.Some? ==> |r.value| <= len && r.value <= s[pos..]
    ensures r.Some? ==> |r.value| == if pos + len <= |s| then len else |s| - pos
  {
    if pos > |s| then None
    else if pos + len <= |s| then Some(s[pos..pos + len])
    else Some(s[pos..])
  }

  function ByteToChar(b: byte): char {
    (b as int) as char
  }

  /** The `std::string` built from a `char` buffer: everything before its first zero byte. */
  function CString(buf: seq<byte>): (s: string)
    ensures |s| <= |buf|
    ensures forall i :: 0 <= i < |s| ==> buf[i] != 0 && s[i] == ByteToChar(buf[i])
    ensures |s| < |buf| ==> buf[|s|] == 0
  {
    if |buf| == 0 || buf[0] == 0 then [] else [ByteToChar(buf[0])] + CString(buf[1..])
  }

  /** A prefix of the buffer holds the same string, cut at the prefix's length. */
  lemma {:induction false} CStringPrefix(buf: seq<byte>, k: nat)
    requires k <= |buf|
    ensures CString(buf[..k]) == CString(buf)[..if k < |CString(buf)| then k else |CString(buf)|]
  {
    if k > 0 && buf[0] != 0 {
      CStringPrefix(buf[1..], k - 1);
      assert buf[..k][1..] == buf[1..][..k - 1];
    }
  }
}
