/**
 * The zpl library routines that json.c calls but does not define, each stated as a
 * small function giving the behaviour json.c relies on, together with the C integer
 * widths json.c converts to and the printf conversions its writer uses.
 *
 * A text buffer is a `seq<char>` whose last element is the terminator NUL; a
 * position is an index into it.  Every scanning helper stops at a NUL, so on a
 * terminated buffer each of them stays inside the buffer.
 */
module ZplLib {

  const NUL: char := '\0'

  /** The buffer ends with its terminator. */
  predicate Terminated(s: seq<char>)
  {
    |s| > 0 && s[|s| - 1] == NUL
  }

  // ---------------------------------------------------------------------------
  // Integer widths

  const I64_MAX: int := 0x7FFF_FFFF_FFFF_FFFF

  type I64 = x: int | -I64_MAX - 1 <= x <= I64_MAX
  type I32 = x: int | -0x8000_0000 <= x < 0x8000_0000
  type U8 = x: int | 0 <= x < 0x100

  /** An unsigned 64-bit quantity stored into a zpl_i64: two's-complement wrap-around. */
  function ToI64(x: int): (r: I64)
    ensures -I64_MAX - 1 <= x <= I64_MAX ==> r == x
  {
    (x + I64_MAX + 1) % 0x1_0000_0000_0000_0000 - I64_MAX - 1
  }

  /** The conversion `(zpl_i32)x`: two's-complement wrap-around to 32 bits. */
  function ToI32(x: int): (r: I32)
    ensures -0x8000_0000 <= x < 0x8000_0000 ==> r == x
  {
    (x + 0x8000_0000) % 0x1_0000_0000 - 0x8000_0000
  }

  /** The conversion `cast(zpl_u8)x`: reduction modulo 256. */
  function ToU8(x: int): (r: U8)
    ensures 0 <= x < 0x100 ==> r == x
  {
    x % 0x100
  }

  // ---------------------------------------------------------------------------
  // Character classes (zpl_char_is_*)

  /** zpl_char_is_space: blank, tab, newline, carriage return, form feed, vertical tab. */
  predicate IsSpace(c: char)
  {
    c == ' ' || c == '\t' || c == '\n' || c == '\r' || c == '\U{000C}' || c == '\U{000B}'
  }

  predicate IsDigit(c: char)
  {
    '0' <= c <= '9'
  }

  predicate IsHexDigit(c: char)
  {
    IsDigit(c) || 'a' <= c <= 'f' || 'A' <= c <= 'F'
  }

  predicate IsAlpha(c: char)
  {
    'a' <= c <= 'z' || 'A' <= c <= 'Z'
  }

  predicate IsAlphanumeric(c: char)
  {
    IsAlpha(c) || IsDigit(c)
  }

  /** zpl_char_to_lower. */
  function ToLower(c: char): (r: char)
    ensures 'A' <= c <= 'Z' ==> 'a' <= r <= 'z'
    ensures !('A' <= c <= 'Z') ==> r == c
  {
    if 'A' <= c <= 'Z' then (c as int + 32) as char else c
  }

  /**
   * zpl_char_is_control: the characters that may follow a backslash escape, found with
   * zpl_strchr, which also finds the NUL character (the terminator of its set).
   */
  predicate IsControl(c: char)
  {
    c == NUL || c == '"' || c == '\\' || c == '/' || c == 'b' || c == 'f' || c == 'n' || c == 'r' || c == 't'
  }

  // ---------------------------------------------------------------------------
  // Scanning helpers

  /** `zpl_strncmp(s + p, lit, |lit|) == 0` for a literal without NUL. */
  predicate HasPrefix(s: seq<char>, p: nat, lit: string)
  {
    p + |lit| <= |s| && s[p..p + |lit|] == lit
  }

  /** `zpl_strncmp(s + p, "ab", 2) == 0`. */
  predicate Pair(s: seq<char>, p: nat, a: char, b: char)
  {
    p + 1 < |s| && s[p] == a && s[p + 1] == b
  }

  /** A literal free of NUL matched in a terminated buffer ends before the terminator. */
  lemma PrefixBeforeEnd(s: seq<char>, p: nat, lit: string)
    requires Terminated(s) && HasPrefix(s, p, lit) && NUL !in lit && |lit| > 0
    ensures p + |lit| < |s|
  {
  }

  /** zpl_str_trim(s + p, catchNewline): skip whitespace, stopping at '\n' when asked. */
  function Trim(s: seq<char>, p: nat, catchNewline: bool): (q: nat)
    requires Terminated(s) && p < |s|
    ensures p <= q < |s|
    ensures !IsSpace(s[q]) || (catchNewline && s[q] == '\n')
    decreases |s| - p
  {
    if IsSpace(s[p]) && !(catchNewline && s[p] == '\n') then Trim(s, p + 1, catchNewline) else p
  }

  /** Every character trimming passes is whitespace, and not a newline it was asked to catch. */
  lemma {:induction false} TrimPassesBlanks(s: seq<char>, p: nat, catchNewline: bool)
    requires Terminated(s) && p < |s|
    ensures forall k :: p <= k < Trim(s, p, catchNewline) ==> IsSpace(s[k]) && !(catchNewline && s[k] == '\n')
    decreases |s| - p
  {
    if IsSpace(s[p]) && !(catchNewline && s[p] == '\n') {
      TrimPassesBlanks(s, p + 1, catchNewline);
    }
  }

  /** Trimming at a run of `k` blanks that ends at a non-whitespace character stops right after the run. */
  lemma {:induction false} TrimBlanks(s: seq<char>, p: nat, k: nat, catchNewline: bool)
    requires Terminated(s) && p + k < |s|
    requires forall i :: p <= i < p + k ==> s[i] == ' '
    requires !IsSpace(s[p + k])
    ensures Trim(s, p, catchNewline) == p + k
    decreases k
  {
    if k > 0 {
      TrimBlanks(s, p + 1, k - 1, catchNewline);
    }
  }

  /** zpl_str_skip(s + p, c): the first `c` or terminator at or after `p`. */
  function Skip(s: seq<char>, p: nat, c: char): (q: nat)
    requires Terminated(s) && p < |s|
    ensures p <= q < |s|
    ensures s[q] == c || s[q] == NUL
    ensures forall i :: p <= i < q ==> s[i] != c && s[i] != NUL
    decreases |s| - p
  {
    if s[p] == c || s[p] == NUL then p else Skip(s, p + 1, c)
  }

  /** Where zpl_str_control_skip stops: the terminator, or a `c` not escaped when `c` is a control character. */
  predicate ControlStop(s: seq<char>, k: nat, c: char)
    requires 1 <= k < |s|
  {
    s[k] == NUL || (s[k] == c && !(s[k - 1] == '\\' && IsControl(c)))
  }

  /**
   * zpl_str_control_skip(s + p, c): like Skip, except that when `c` is a control
   * character an occurrence of `c` preceded by a backslash does not stop the scan.
   */
  function ControlSkip(s: seq<char>, p: nat, c: char): (q: nat)
    requires Terminated(s) && 1 <= p < |s| && c != NUL
    ensures p <= q < |s|
    ensures s[q] == NUL || (s[q] == c && !(s[q - 1] == '\\' && IsControl(c)))
    decreases |s| - p
  {
    if (s[p] != NUL && s[p] != c) || (s[p - 1] == '\\' && s[p] == c && IsControl(c))
    then ControlSkip(s, p + 1, c)
    else p
  }

  /** No character ControlSkip passes is a place where it could have stopped. */
  lemma {:induction false} ControlSkipPasses(s: seq<char>, p: nat, c: char)
    requires Terminated(s) && 1 <= p < |s| && c != NUL
    ensures forall k :: p <= k < ControlSkip(s, p, c) ==> !ControlStop(s, k, c)
    decreases |s| - p
  {
    if ControlSkip(s, p, c) != p {
      ControlSkipPasses(s, p + 1, c);
    }
  }

  /** The C string that starts at `b`: everything up to the next terminator. */
  function CStr(s: seq<char>, b: nat): (r: string)
    requires Terminated(s) && b < |s|
    ensures b + |r| < |s| && r == s[b..b + |r|] && s[b + |r|] == NUL
    ensures NUL !in r
  {
    s[b..Skip(s, b, NUL)]
  }

  /** A run of `n` non-terminators followed by a terminator is the C string at `b`. */
  lemma CStrOf(s: seq<char>, b: nat, n: nat)
    requires Terminated(s) && b + n < |s| && s[b + n] == NUL
    requires forall i :: b <= i < b + n ==> s[i] != NUL
    ensures CStr(s, b) == s[b..b + n]
  {
    assert Skip(s, b, NUL) == b + n;
  }

  // ---------------------------------------------------------------------------
  // zpl_str_to_i64

  /** A character that is a digit in base 10 or 16. */
  predicate IsDigitIn(c: char, base: nat)
  {
    IsDigit(c) || (base == 16 && IsHexDigit(c))
  }

  function DigitValue(c: char): (d: nat)
    ensures d < 16
  {
    if IsDigit(c) then c as int - '0' as int
    else if 'a' <= c <= 'f' then c as int - 'a' as int + 10
    else if 'A' <= c <= 'F' then c as int - 'A' as int + 10
    else 0
  }

  /** The length of the longest prefix of `t` made of digits of the base. */
  function DigitRun(t: seq<char>, base: nat): (n: nat)
    ensures n <= |t|
    ensures forall i :: 0 <= i < n ==> IsDigitIn(t[i], base)
    ensures n < |t| ==> !IsDigitIn(t[n], base)
  {
    if t == [] || !IsDigitIn(t[0], base) then 0 else 1 + DigitRun(t[1..], base)
  }

  /** The value of a digit string, most significant digit first. */
  function DigitsValue(t: seq<char>, base: nat): nat
  {
    if t == [] then 0 else DigitsValue(t[..|t| - 1], base) * base + DigitValue(t[|t| - 1])
  }

  /** The base zpl_str_to_i64 works in: base 0 means 16 after "0x" and 10 otherwise. */
  function ScanBase(t: seq<char>, base: nat): nat
  {
    if base == 0 then (if |t| >= 2 && t[..2] == "0x" then 16 else 10) else base
  }

  /** The unsigned quantity zpl_str_to_i64 accumulates before applying the sign. */
  function Magnitude(t: seq<char>, base: nat): nat
  {
    var b := ScanBase(t, base);
    var u := if |t| > 0 && t[0] == '-' then t[1..] else t;
    var v := if b == 16 && |u| >= 2 && u[..2] == "0x" then u[2..] else u;
    DigitsValue(v[..DigitRun(v, b)], b)
  }

  /**
   * zpl_str_to_i64(t, NULL, base) for base 0, 10 or 16: the digits accumulate in an
   * unsigned 64-bit value, which the sign then negates and which is stored as signed.
   */
  function StrToI64(t: seq<char>, base: nat): (r: I64)
    ensures Magnitude(t, base) <= I64_MAX && |t| > 0 && t[0] == '-' ==> r == -(Magnitude(t, base) as int)
    ensures Magnitude(t, base) <= I64_MAX && !(|t| > 0 && t[0] == '-') ==> r == Magnitude(t, base)
  {
    var m: int := Magnitude(t, base);
    ToI64(if |t| > 0 && t[0] == '-' then -m else m)
  }

  // ---------------------------------------------------------------------------
  // printf conversions (ISO C11 section 7.21.6.1)

  function DigitChar(d: nat): (c: char)
    requires d < 16
    ensures IsHexDigit(c) && DigitValue(c) == d
    ensures d < 10 <==> IsDigit(c)
    ensures !('A' <= c <= 'Z')
  {
    if d < 10 then ('0' as int + d) as char else ('a' as int + d - 10) as char
  }

  /** The digits of `n` in the base, without leading zeros. */
  function NatDigits(n: nat, base: nat): (r: string)
    requires base == 10 || base == 16
    ensures |r| > 0
    ensures forall i :: 0 <= i < |r| ==> IsDigitIn(r[i], base) && r[i] != 'x'
  {
    if n < base then [DigitChar(n)] else NatDigits(n / base, base) + [DigitChar(n % base)]
  }

  /** `%lld` and `%d`. */
  function Dec(n: int): (r: string)
    ensures |r| > 0 && (IsDigit(r[0]) || r[0] == '-')
    ensures n < 0 <==> r[0] == '-'
    ensures forall i :: 0 <= i < |r| ==> r[i] != 'x'
  {
    if n < 0 then "-" + NatDigits(-n, 10) else NatDigits(n, 10)
  }

  /** `%llx` of `(long long)n`: the 64-bit two's-complement pattern in lower-case hex. */
  function HexU64(n: int): string
  {
    NatDigits(n % 0x1_0000_0000_0000_0000, 16)
  }

  /** `%0*d` with width `w` and value 0: at least one zero, padded with zeros to `w`. */
  function ZeroPad(w: int): (r: string)
    ensures |r| == if w <= 1 then 1 else w
    ensures forall i :: 0 <= i < |r| ==> r[i] == '0'
  {
    if w <= 1 then "0" else seq(w, _ => '0')
  }

  /** `w` blanks, none for a negative count. */
  function Spaces(w: int): (r: string)
    ensures |r| == if w <= 0 then 0 else w
    ensures forall i :: 0 <= i < |r| ==> r[i] == ' '
  {
    if w <= 0 then "" else seq(w, _ => ' ')
  }

  // ---------------------------------------------------------------------------
  // Printing then scanning an integer gives it back

  lemma RunOfDigits(t: seq<char>, base: nat)
    requires forall i :: 0 <= i < |t| ==> IsDigitIn(t[i], base)
    ensures DigitRun(t, base) == |t|
  {
  }

  lemma {:induction false} NatDigitsValue(n: nat, base: nat)
    requires base == 10 || base == 16
    ensures DigitsValue(NatDigits(n, base), base) == n
    decreases n
  {
    var t := NatDigits(n, base);
    if n >= base {
      assert t[..|t| - 1] == NatDigits(n / base, base);
      NatDigitsValue(n / base, base);
    }
  }

  /** Scanning what `%lld` printed gives the number back. */
  lemma DecScansBack(n: int)
    requires -I64_MAX - 1 <= n <= I64_MAX
    ensures StrToI64(Dec(n), 0) == n
  {
    var t := Dec(n);
    var m := if n < 0 then -n else n;
    var d := NatDigits(m, 10);
    assert ScanBase(t, 0) == 10 by {
      if |t| >= 2 {
        if n < 0 {
          assert t[..2][0] == '-';
        } else {
          assert t[..2][1] == d[1];
        }
      }
    }
    assert (if |t| > 0 && t[0] == '-' then t[1..] else t) == d by {
      if n >= 0 { assert t[0] == d[0] && d[0] != '-'; }
    }
    RunOfDigits(d, 10);
    assert d[..DigitRun(d, 10)] == d;
    NatDigitsValue(m, 10);
  }

  /** Scanning "0x" followed by what `%llx` printed gives the number back. */
  lemma HexScansBack(n: int)
    requires -I64_MAX - 1 <= n <= I64_MAX
    ensures StrToI64("0x" + HexU64(n), 0) == n
  {
    var u := n % 0x1_0000_0000_0000_0000;
    HexMagnitude(u);
    WrapBack(n);
  }

  /** The unsigned quantity scanned from "0x" and the hex digits of `u` is `u`. */
  lemma HexMagnitude(u: nat)
    requires u < 0x1_0000_0000_0000_0000
    ensures Magnitude("0x" + NatDigits(u, 16), 0) == u
  {
    var d := NatDigits(u, 16);
    var t := "0x" + d;
    assert t[..2] == "0x";
    assert ScanBase(t, 0) == 16;
    assert t[0] != '-';
    assert t[2..] == d;
    RunOfDigits(d, 16);
    assert d[..DigitRun(d, 16)] == d;
    NatDigitsValue(u, 16);
  }

  /** Storing the 64-bit pattern of a signed 64-bit value as signed gives the value back. */
  lemma WrapBack(n: int)
    requires -I64_MAX - 1 <= n <= I64_MAX
    ensures ToI64(n % 0x1_0000_0000_0000_0000) == n
  {
    if n < 0 {
      assert n % 0x1_0000_0000_0000_0000 == n + 0x1_0000_0000_0000_0000;
      assert (n + 0x1_0000_0000_0000_0000 + I64_MAX + 1) % 0x1_0000_0000_0000_0000 == n + I64_MAX + 1;
    }
  }
}
