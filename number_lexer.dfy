/**
 * zpl__json_parse_number: a number literal is copied, character class by character
 * class, into a 48-character scratch buffer, which is then converted with
 * zpl_str_to_i64; a real also keeps the integer and fraction digits separately, for the
 * writer to print back.
 *
 * The scan is specified on the text: ScanMantissa and ScanExponent say which characters
 * the copy loops take, LexNumber what the node becomes.  ParseNumber is the C routine,
 * loop by loop, proved to agree with LexNumber.  The `zpl_f64 real` payload and the
 * scaling by `eb` that only affects it are not modelled.
 */
module NumberLexer {
  import opened Wrappers
  import opened ZplLib
  import opened JsonNode

  /** The first index at or after `i` that does not hold a decimal digit. */
  function DigitsEnd(s: seq<char>, i: nat): (j: nat)
    requires Terminated(s) && i < |s|
    ensures i <= j < |s| && !IsDigit(s[j])
    ensures forall k :: i <= k < j ==> IsDigit(s[k])
    decreases |s| - i
  {
    if IsDigit(s[i]) then DigitsEnd(s, i + 1) else i
  }

  /** A character the integer-part loop copies: a hex digit or an `x` of either case. */
  predicate IsRunChar(c: char)
  {
    IsHexDigit(c) || ToLower(c) == 'x'
  }

  /** The first index at or after `i` whose character the integer-part loop does not copy. */
  function RunEnd(s: seq<char>, i: nat): (j: nat)
    requires Terminated(s) && i < |s|
    ensures i <= j < |s| && !IsRunChar(s[j])
    ensures forall k :: i <= k < j ==> IsRunChar(s[k])
    decreases |s| - i
  {
    if IsRunChar(s[i]) then RunEnd(s, i + 1) else i
  }

  /** The number of '0' characters `t` begins with. */
  function LeadingZeros(t: string): (n: nat)
    ensures n <= |t|
    ensures forall k :: 0 <= k < n ==> t[k] == '0'
    ensures n < |t| ==> t[n] != '0'
  {
    if t != [] && t[0] == '0' then 1 + LeadingZeros(t[1..]) else 0
  }

  /**
   * What the mantissa loops copy into the scratch buffer: `whole` is everything before
   * the decimal point (sign included), `frac` everything after it; `isReal` says a point
   * was read, `dotFirst` that the literal began with it (after its sign), `hex` that it
   * began with 0x or 0X; `end` is where the cursor stops.
   */
  datatype Mantissa = Mantissa(whole: string, frac: string, isReal: bool, dotFirst: bool, hex: bool, end: nat)

  /** The scratch buffer's contents once the mantissa loops have run. */
  function Copied(m: Mantissa): string
  {
    if m.isReal then m.whole + "." + m.frac else m.whole
  }

  /** What the sign handling copies into the scratch buffer: a '-', but not a '+'. */
  function Sign(s: seq<char>, p: nat): (t: string)
    requires p < |s|
    ensures t == "" || t == "-"
  {
    if s[p] == '-' then "-" else ""
  }

  /** The cursor after the sign handling: past a '+' or '-'. */
  function AfterSign(s: seq<char>, p: nat): (e: nat)
    requires Terminated(s) && p < |s|
    ensures p <= e < |s|
  {
    if s[p] == '+' || s[p] == '-' then p + 1 else p
  }

  /** The sign handling and the two mantissa branches of zpl__json_parse_number. */
  function ScanMantissa(s: seq<char>, p: nat): (m: Mantissa)
    requires Terminated(s) && p < |s|
    ensures p <= m.end < |s|
    ensures m.dotFirst ==> m.isReal
  {
    var e0 := AfterSign(s, p);
    if s[e0] == '.' then PointFirst(s, e0, Sign(s, p)) else IntegerPart(s, e0, Sign(s, p))
  }

  /** A literal that starts (after its sign) with the decimal point: "0" stands in for the integer part. */
  function PointFirst(s: seq<char>, e: nat, sign: string): (m: Mantissa)
    requires Terminated(s) && e < |s| && s[e] == '.'
    ensures e < m.end < |s|
  {
    var f := DigitsEnd(s, e + 1);
    Mantissa(sign + "0", s[e + 1..f], true, true, false, f)
  }

  /** A literal that starts with its integer part, which may be followed by a decimal point. */
  function IntegerPart(s: seq<char>, e: nat, sign: string): (m: Mantissa)
    requires Terminated(s) && e < |s|
    ensures e <= m.end < |s| && !m.dotFirst
  {
    var hex := Pair(s, e, '0', 'x') || Pair(s, e, '0', 'X');
    var r := RunEnd(s, e);
    if s[r] == '.' then Mantissa(sign + s[e..r], FracDigits(s, r), true, false, hex, DigitsEnd(s, r + 1))
    else Mantissa(sign + s[e..r], "", false, false, hex, r)
  }

  /** The digits after the point at `r`, or "0" when there are none. */
  function FracDigits(s: seq<char>, r: nat): string
    requires Terminated(s) && r < |s| && s[r] == '.'
  {
    var f := DigitsEnd(s, r + 1);
    if f == r + 1 then "0" else s[r + 1..f]
  }

  /** The kind, props and lead-digit flag the mantissa branches give the node. */
  function Shaped(node: Node, m: Mantissa): Node
  {
    node.(kind := if m.isReal then Real else Integer,
          props := if m.dotFirst then IsParsedReal else if m.hex then IsHex else node.props,
          leadDigit := if m.isReal then !m.dotFirst else node.leadDigit)
  }

  /** The exponent digits copied into `expbuf`, whether a '-' preceded them, and the cursor after them. */
  datatype Exponent = Exponent(digits: string, neg: bool, end: nat)

  /** The exponent part of zpl__json_parse_number, read from cursor `c`. */
  function ScanExponent(s: seq<char>, c: nat): (x: Exponent)
    requires Terminated(s) && c < |s|
    ensures c <= x.end < |s|
    ensures forall k :: 0 <= k < |x.digits| ==> IsDigit(x.digits[k])
    ensures x.neg ==> x.digits != [] || x.end > c
  {
    if ToLower(s[c]) == 'e' then
      var c1 := c + 1;
      if s[c1] == '+' || s[c1] == '-' || IsDigit(s[c1]) then
        var d0 := if IsDigit(s[c1]) then c1 else c1 + 1;
        var d := DigitsEnd(s, d0);
        Exponent(s[d0..d], s[c1] == '-', d)
      else Exponent("", false, c1)
    else Exponent("", false, c)
  }

  /** The node parse_number leaves and the cursor it returns. */
  datatype Lexed = Lexed(node: Node, end: nat)

  /**
   * zpl__json_parse_number on `node` at cursor `p`.  `None` when the C code's behaviour
   * is undefined: the literal's copy does not leave the 48-character scratch buffer a
   * terminator, or more than five exponent digits leave `expbuf` none.
   */
  function LexNumber(s: seq<char>, p: nat, node: Node): (r: Option<Lexed>)
    requires Terminated(s) && p < |s|
    ensures r.Some? ==> p <= r.value.end < |s|
    ensures r.Some? ==> r.value.node.kind == Integer || r.value.node.kind == Real
    ensures r.Some? ==>
      r.value.node.name == node.name && r.value.node.nodes == node.nodes &&
      r.value.node.nameStyle == node.nameStyle && r.value.node.assignStyle == node.assignStyle &&
      r.value.node.text == node.text && r.value.node.delimStyle == node.delimStyle
    ensures r.None? <==>
      |Copied(ScanMantissa(s, p))| > 47 || |ScanExponent(s, ScanMantissa(s, p).end).digits| > 5
  {
    var m := ScanMantissa(s, p);
    var x := ScanExponent(s, m.end);
    if |Copied(m)| > 47 || |x.digits| > 5 then None
    else Some(Lexed(Converted(Shaped(node, m), m, ToI32(StrToI64(x.digits, 10)), x.neg), x.end))
  }

  /**
   * The conversion phase on the shaped node `n0`: an Integer takes the value of the copied
   * text; a Real counts the fraction's leading zeros into `base2Offset`, takes the two
   * halves' values as `base` and `base2`, and records a non-zero exponent.
   */
  function Converted(n0: Node, m: Mantissa, exp: I32, neg: bool): Node
  {
    if !m.isReal then n0.(integer := StrToI64(Copied(m), 0))
    else
      RealParts(n0, m.whole, m.frac, exp, neg)
  }

  /** A real's side-fields from the digits before and after its point. */
  function RealParts(n0: Node, whole: string, frac: string, exp: I32, neg: bool): Node
  {
    var n1 := n0.(base2Offset := n0.base2Offset + LeadingZeros(frac));
    var n2 := n1.(base := ToI32(StrToI64(whole, 0)), base2 := ToI32(StrToI64(frac, 0)));
    if exp != 0 then n2.(exp := exp, expNeg := neg, props := IsExp) else n2
  }

  // ---------------------------------------------------------------------------
  // What the lexer promises

  /** A number is an Integer exactly when no decimal point is read, a Real otherwise. */
  lemma KindByPoint(s: seq<char>, p: nat, node: Node)
    requires Terminated(s) && p < |s| && LexNumber(s, p, node).Some?
    ensures var e0 := if s[p] == '+' || s[p] == '-' then p + 1 else p;
      LexNumber(s, p, node).value.node.kind == Real <==>
        (s[e0] == '.' || s[RunEnd(s, e0)] == '.')
  {
  }

  /**
   * An Integer never carries an exponent: `e` and `E` are hex digits, so the integer
   * loop has already taken them and the scaling loop at json.c:518 never runs.
   */
  lemma IntegerHasNoExponent(s: seq<char>, p: nat)
    requires Terminated(s) && p < |s| && !ScanMantissa(s, p).isReal
    ensures ScanExponent(s, ScanMantissa(s, p).end) == Exponent("", false, ScanMantissa(s, p).end)
  {
  }

  /**
   * A decimal point after the integer part (signed or not) directly followed by no digit
   * reads as a point followed by one zero, and the cursor stops right after the point.
   */
  lemma BarePointReadsZero(s: seq<char>, p: nat)
    requires Terminated(s) && p < |s| && ScanMantissa(s, p).isReal && !ScanMantissa(s, p).dotFirst
    requires !IsDigit(s[RunEnd(s, AfterSign(s, p)) + 1])
    ensures ScanMantissa(s, p).frac == "0"
    ensures ScanMantissa(s, p).end == RunEnd(s, AfterSign(s, p)) + 1
  {
  }

  /** Every lexed literal covers at least its first character. */
  lemma CursorAdvances(s: seq<char>, p: nat, node: Node)
    requires Terminated(s) && p < |s| && LexNumber(s, p, node).Some?
    requires IsDigit(s[p]) || s[p] == '+' || s[p] == '-' || s[p] == '.'
    ensures LexNumber(s, p, node).value.end > p
  {
  }

  /** A leading '-' is copied into the scratch buffer as the first character; a '+' never is. */
  lemma SignHandling(s: seq<char>, p: nat)
    requires Terminated(s) && p < |s|
    ensures var m := ScanMantissa(s, p);
      (s[p] == '-' <==> (|m.whole| > 0 && m.whole[0] == '-')) &&
      (forall k :: 0 <= k < |m.whole| ==> m.whole[k] != '+') &&
      (forall k :: 0 < k < |m.whole| ==> m.whole[k] != '-')
  {
    var e := AfterSign(s, p);
    var m := ScanMantissa(s, p);
    var t := Sign(s, p);
    if s[e] != '.' {
      var r := RunEnd(s, e);
      assert m.whole == t + s[e..r];
      assert forall k :: 0 <= k < r - e ==> IsRunChar(s[e..r][k]);
    }
  }

  /**
   * A lexed real keeps the digits for the writer: `base2Offset` grows by the number of
   * zeros right after the point, `base` and `base2` are the values of the digits before
   * and after it (sign included, hex when it began with 0x), `leadDigit` says a digit
   * came first, and a non-zero exponent makes it IS_EXP with that exponent and its sign;
   * otherwise the props are those of the mantissa.
   */
  lemma RealSideFields(s: seq<char>, p: nat, node: Node)
    requires Terminated(s) && p < |s| && LexNumber(s, p, node).Some?
    requires LexNumber(s, p, node).value.node.kind == Real
    ensures var m := ScanMantissa(s, p); var x := ScanExponent(s, m.end);
      var n := LexNumber(s, p, node).value.node; var exp := ToI32(StrToI64(x.digits, 10));
      m.isReal &&
      n.base2Offset == node.base2Offset + LeadingZeros(m.frac) &&
      n.base == ToI32(StrToI64(m.whole, 0)) && n.base2 == ToI32(StrToI64(m.frac, 0)) &&
      n.leadDigit == !m.dotFirst &&
      (exp != 0 ==> n.props == IsExp && n.exp == exp && n.expNeg == x.neg) &&
      (exp == 0 ==>
         n.exp == node.exp && n.expNeg == node.expNeg &&
         n.props == if m.dotFirst then IsParsedReal else if m.hex then IsHex else node.props)
  {
  }

  /** A string of zeros in front of a digit string leaves its value alone. */
  lemma {:induction false} ZerosValue(z: nat, d: string, base: nat)
    ensures DigitsValue(seq(z, _ => '0') + d, base) == DigitsValue(d, base)
    decreases |d|, z
  {
    var t := seq(z, _ => '0') + d;
    if d == [] {
      if z > 0 {
        assert t[..|t| - 1] == seq(z - 1, _ => '0') + [];
        ZerosValue(z - 1, [], base);
      }
    } else {
      assert t[..|t| - 1] == seq(z, _ => '0') + d[..|d| - 1];
      ZerosValue(z, d[..|d| - 1], base);
    }
  }

  // ---------------------------------------------------------------------------
  // The routine

  /**
   * zpl__json_parse_number, phase by phase, on the text `s` (which it only reads,
   * so it is passed as a value) and the node it fills in; `e` is the cursor it returns.
   */
  method ParseNumber(s: seq<char>, p: nat, node: Node) returns (r: Node, e: nat)
    requires Terminated(s) && p < |s| && LexNumber(s, p, node).Some?
    ensures LexNumber(s, p, node) == Some(Lexed(r, e))
  {
    ghost var m := ScanMantissa(s, p);
    LexNumberIs(s, p, node, m, ScanExponent(s, m.end));
    var buf := Scratch();
    var ib;
    r, e, ib := CopyMantissa(s, p, node, buf);
    var exp, expNeg;
    exp, expNeg, e := ReadExponent(s, e);
    MantissaChars(s, p);
    if r.kind == Integer {
      r := IntegerValue(buf, ib, m, r);
      // The scaling loop `while (exp-- > 0)` that follows never runs for an Integer.
      IntegerHasNoExponent(s, p);
      assert exp == 0;
    } else {
      r := SplitReal(buf, m, r, exp, expNeg);
    }
  }

  /** `char buf[48] = { 0 };` */
  method Scratch() returns (buf: array<char>)
    ensures fresh(buf) && Holds(buf, "")
  {
    buf := new char[48](_ => NUL);
    NulsAre(48);
    assert buf[..] == "" + Nuls(48);
  }

  /** The characters the mantissa loops copy: no point or terminator before the point, digits after it. */
  predicate WellCopied(m: Mantissa)
  {
    NoPoint(m.whole) && AllDigits(m.frac)
  }

  /** Neither a point nor a terminator. */
  predicate NoPoint(t: string)
  {
    forall k :: 0 <= k < |t| ==> t[k] != '.' && t[k] != NUL
  }

  predicate AllDigits(t: string)
  {
    forall k :: 0 <= k < |t| ==> IsDigit(t[k])
  }

  /** The digits a DigitsEnd scan passes over. */
  lemma DigitsScanned(s: seq<char>, i: nat)
    requires Terminated(s) && i < |s|
    ensures AllDigits(s[i..DigitsEnd(s, i)])
  {
    var t := s[i..DigitsEnd(s, i)];
    assert forall k :: 0 <= k < |t| ==> t[k] == s[i + k];
  }

  /** The characters a RunEnd scan passes over, after the sign. */
  lemma RunScanned(s: seq<char>, e: nat, sign: string)
    requires Terminated(s) && e < |s| && (sign == "" || sign == "-")
    ensures NoPoint(sign + s[e..RunEnd(s, e)])
  {
    var t := s[e..RunEnd(s, e)];
    assert forall k :: 0 <= k < |t| ==> t[k] == s[e + k];
    var w := sign + t;
    assert forall k :: |sign| <= k < |w| ==> w[k] == t[k - |sign|];
  }

  /** LexNumber on a literal it accepts, phase by phase. */
  lemma LexNumberIs(s: seq<char>, p: nat, node: Node, m: Mantissa, x: Exponent)
    requires Terminated(s) && p < |s| && LexNumber(s, p, node).Some?
    requires m == ScanMantissa(s, p) && x == ScanExponent(s, m.end)
    ensures |Copied(m)| <= 47 && |x.digits| <= 5
    ensures LexNumber(s, p, node) == Some(Lexed(Converted(Shaped(node, m), m, ToI32(StrToI64(x.digits, 10)), x.neg), x.end))
  {
  }

  lemma MantissaChars(s: seq<char>, p: nat)
    requires Terminated(s) && p < |s|
    ensures WellCopied(ScanMantissa(s, p))
  {
    if s[AfterSign(s, p)] == '.' {
      PointFirstChars(s, AfterSign(s, p), Sign(s, p));
    } else {
      IntegerPartChars(s, AfterSign(s, p), Sign(s, p));
    }
  }

  lemma PointFirstChars(s: seq<char>, e: nat, sign: string)
    requires Terminated(s) && e < |s| && s[e] == '.' && (sign == "" || sign == "-")
    ensures WellCopied(PointFirst(s, e, sign))
  {
    DigitsScanned(s, e + 1);
  }

  lemma IntegerPartChars(s: seq<char>, e: nat, sign: string)
    requires Terminated(s) && e < |s| && (sign == "" || sign == "-")
    ensures WellCopied(IntegerPart(s, e, sign))
  {
    RunScanned(s, e, sign);
    var r := RunEnd(s, e);
    if s[r] == '.' {
      DigitsScanned(s, r + 1);
    }
  }

  /** `node->integer = zpl_str_to_i64(buf, 0, 0)` on the integer text in the scratch buffer. */
  method IntegerValue(buf: array<char>, ib: nat, ghost m: Mantissa, r0: Node) returns (r: Node)
    requires !m.isReal && WellCopied(m) && Holds(buf, Copied(m)) && ib == |Copied(m)|
    ensures r == Converted(r0, m, 0, false)
  {
    HoldsNuls(buf, Copied(m));
    CStrOf(buf[..], 0, ib);
    r := r0.(integer := StrToI64(CStr(buf[..], 0), 0));
  }

  /**
   * The real branch: the point in the scratch buffer is overwritten with a terminator,
   * the fraction's leading zeros are counted, and both halves are converted.
   */
  method SplitReal(buf: array<char>, ghost m: Mantissa, r0: Node, exp: I32, expNeg: bool) returns (r: Node)
    requires m.isReal && WellCopied(m) && Holds(buf, Copied(m))
    modifies buf
    ensures r == RealParts(r0, m.whole, m.frac, exp, expNeg)
  {
    var qp := Halves(buf, m);
    var u := buf[..];
    var whole, frac := CStr(u, 0), CStr(u, qp + 1);
    assert whole == m.whole && frac == m.frac;
    r := CountZeros(u, qp + 1, m.frac, r0);
    r := r.(base := ToI32(StrToI64(whole, 0)), base2 := ToI32(StrToI64(frac, 0)));
    if exp != 0 {
      r := r.(exp := exp, expNeg := expNeg, props := IsExp);
    }
  }

  /** The point is found and overwritten: the buffer now holds the two halves as C strings. */
  method Halves(buf: array<char>, ghost m: Mantissa) returns (qp: nat)
    requires m.isReal && WellCopied(m) && Holds(buf, Copied(m))
    modifies buf
    ensures qp + 1 + |m.frac| < buf.Length == 48 && Terminated(buf[..])
    ensures CStr(buf[..], 0) == m.whole && CStr(buf[..], qp + 1) == m.frac
    ensures buf[qp + 1..qp + 1 + |m.frac|] == m.frac && buf[qp + 1 + |m.frac|] == NUL
  {
    qp := FindPoint(buf, m);
    ghost var t := buf[..];
    buf[qp] := NUL;
    SplitHalves(t, m, buf[..]);
  }

  /** `while (*q != '.') q++;` on the buffer holding real mantissa `m`: it stops at the point. */
  method FindPoint(buf: array<char>, ghost m: Mantissa) returns (qp: nat)
    requires m.isReal && WellCopied(m) && Holds(buf, Copied(m))
    ensures qp == |m.whole| < 48
  {
    assert buf[|m.whole|] == '.';
    qp := 0;
    while buf[qp] != '.'
      invariant qp <= |m.whole|
      decreases |m.whole| - qp
    {
      qp := qp + 1;
    }
  }

  /** Once the point is overwritten, the buffer holds the integer part and the fraction as two strings. */
  lemma SplitHalves(t: string, m: Mantissa, u: string)
    requires m.isReal && WellCopied(m) && |Copied(m)| <= 47
    requires t == Copied(m) + Nuls(48 - |Copied(m)|) && u == t[|m.whole| := NUL]
    ensures Terminated(u) && CStr(u, 0) == m.whole && CStr(u, |m.whole| + 1) == m.frac
    ensures u[|m.whole| + 1..|m.whole| + 1 + |m.frac|] == m.frac && u[|m.whole| + 1 + |m.frac|] == NUL
  {
    FracHalf(t, m, u);
    WholeHalf(t, m, u);
  }

  /** The integer part, now ended by the terminator written over the point. */
  lemma WholeHalf(t: string, m: Mantissa, u: string)
    requires m.isReal && WellCopied(m) && |Copied(m)| <= 47 && Terminated(u)
    requires t == Copied(m) + Nuls(48 - |Copied(m)|) && u == t[|m.whole| := NUL]
    ensures CStr(u, 0) == m.whole
  {
    assert forall k :: 0 <= k < |m.whole| ==> u[k] == m.whole[k];
    CStrOf(u, 0, |m.whole|);
  }

  /** The fraction, ended by the first of the terminators that fill the rest of the buffer. */
  lemma FracHalf(t: string, m: Mantissa, u: string)
    requires m.isReal && WellCopied(m) && |Copied(m)| <= 47
    requires t == Copied(m) + Nuls(48 - |Copied(m)|) && u == t[|m.whole| := NUL]
    ensures Terminated(u) && CStr(u, |m.whole| + 1) == m.frac
    ensures u[|m.whole| + 1..|m.whole| + 1 + |m.frac|] == m.frac && u[|m.whole| + 1 + |m.frac|] == NUL
  {
    var w, f, n := |m.whole|, |m.frac|, 48 - |Copied(m)|;
    NulsAre(n);
    assert u[w + 1 + f] == Nuls(n)[0];
    assert u[47] == Nuls(n)[n - 1];
    assert forall k :: w + 1 <= k < w + 1 + f ==> u[k] == m.frac[k - w - 1];
    CStrOf(u, w + 1, f);
  }

  /** `while (*qp == '0') { node->base2_offset++; qp++; }` over the fraction `frac` at `start`. */
  method CountZeros(buf: seq<char>, start: nat, ghost frac: string, r0: Node) returns (r: Node)
    requires start + |frac| < |buf| && buf[start..start + |frac|] == frac && buf[start + |frac|] == NUL
    ensures r == r0.(base2Offset := r0.base2Offset + LeadingZeros(frac))
  {
    r := r0;
    var q := start;
    while buf[q] == '0'
      invariant start <= q <= start + LeadingZeros(frac)
      invariant r == r0.(base2Offset := r0.base2Offset + (q - start))
      decreases start + |frac| - q
    {
      assert buf[q] == frac[q - start];
      r := r.(base2Offset := r.base2Offset + 1);
      q := q + 1;
    }
    assert q - start < |frac| ==> buf[q] == frac[q - start];
  }

  /** The zeroed scratch buffer `buf` holds `text` followed by terminators. */
  predicate Holds(buf: array<char>, text: string)
    reads buf
  {
    buf.Length == 48 && |text| <= 47 && buf[..] == text + Nuls(48 - |text|)
  }

  /** `n` terminators. */
  function Nuls(n: nat): (r: string)
    ensures |r| == n
  {
    if n == 0 then [] else [NUL] + Nuls(n - 1)
  }

  lemma {:induction false} NulsAre(n: nat)
    ensures forall k :: 0 <= k < n ==> Nuls(n)[k] == NUL
  {
    if n > 0 {
      NulsAre(n - 1);
    }
  }

  /** Past its text, a scratch buffer holds nothing but terminators. */
  lemma HoldsNuls(buf: array<char>, text: string)
    requires Holds(buf, text)
    ensures Terminated(buf[..]) && buf[..|text|] == text
    ensures forall k :: |text| <= k < 48 ==> buf[k] == NUL
  {
    NulsAre(48 - |text|);
    assert forall k :: |text| <= k < 48 ==> buf[k] == Nuls(48 - |text|)[k - |text|];
  }

  /** `buf[ib++] = c`. */
  method Put(buf: array<char>, ib: nat, c: char, ghost text: string) returns (ib': nat)
    requires Holds(buf, text) && ib == |text| && |text| < 47 && c != NUL
    modifies buf
    ensures Holds(buf, text + [c]) && ib' == ib + 1
  {
    buf[ib] := c;
    ib' := ib + 1;
    assert buf[..] == text + [c] + Nuls(48 - |text + [c]|);
  }

  /** The copy of mantissa `m` is complete: the cursor is past it and the buffer holds it. */
  predicate Copy(buf: array<char>, m: Mantissa, e: nat, ib: nat)
    reads buf
  {
    e == m.end && ib == |Copied(m)| && Holds(buf, Copied(m))
  }

  /**
   * The sign and mantissa phase: what it copies into the zeroed scratch buffer `buf`,
   * the node's kind, props and lead-digit flag, and the cursor it leaves.
   */
  method CopyMantissa(s: seq<char>, p: nat, node: Node, buf: array<char>) returns (r: Node, e: nat, ib: nat)
    requires Terminated(s) && p < |s| && Holds(buf, "")
    requires |Copied(ScanMantissa(s, p))| <= 47
    modifies buf
    ensures Copy(buf, ScanMantissa(s, p), e, ib) && r == Shaped(node, ScanMantissa(s, p))
  {
    e, ib := CopySign(s, p, buf);
    r := node.(kind := Integer);
    if s[e] == '.' {
      r, ib, e := CopyPointFirst(s, e, buf, ib, r, Sign(s, p));
    } else {
      r, ib, e := CopyIntegerPart(s, e, buf, ib, r, Sign(s, p));
    }
  }

  /** `if (*e == '+') ++e; else if (*e == '-') buf[ib++] = *e++;` */
  method CopySign(s: seq<char>, p: nat, buf: array<char>) returns (e: nat, ib: nat)
    requires Terminated(s) && p < |s| && Holds(buf, "")
    modifies buf
    ensures e == AfterSign(s, p) && ib == |Sign(s, p)| && Holds(buf, Sign(s, p))
  {
    e := p;
    ib := 0;
    if s[e] == '+' {
      e := e + 1;
    } else if s[e] == '-' {
      ib := Put(buf, ib, s[e], "");
      assert "" + [s[e]] == Sign(s, p);
      e := e + 1;
    }
  }

  /** A literal that starts with its decimal point: "0", the point, and the digits after it. */
  method CopyPointFirst(s: seq<char>, e: nat, buf: array<char>, ib: nat, node: Node, ghost text: string)
      returns (r: Node, ib': nat, e': nat)
    requires Terminated(s) && e < |s| && s[e] == '.' && Holds(buf, text) && ib == |text|
    requires |Copied(PointFirst(s, e, text))| <= 47
    modifies buf
    ensures Copy(buf, PointFirst(s, e, text), e', ib') && r == Shaped(node, PointFirst(s, e, text))
  {
    r := node.(kind := Real, props := IsParsedReal, leadDigit := false);
    ib' := Put(buf, ib, '0', text);
    ib' := Put(buf, ib', s[e], text + "0");
    var n;
    ib', e', n := CopyDigits(s, e + 1, buf, ib', text + "0" + ".");
  }

  /** A literal that starts with its integer part: the run of hex digits and x's, then any fraction. */
  method CopyIntegerPart(s: seq<char>, e: nat, buf: array<char>, ib: nat, node: Node, ghost text: string)
      returns (r: Node, ib': nat, e': nat)
    requires Terminated(s) && e < |s| && Holds(buf, text) && ib == |text| && node.kind == Integer
    requires |Copied(IntegerPart(s, e, text))| <= 47
    modifies buf
    ensures Copy(buf, IntegerPart(s, e, text), e', ib') && r == Shaped(node, IntegerPart(s, e, text))
  {
    r := node;
    if Pair(s, e, '0', 'x') || Pair(s, e, '0', 'X') {
      r := r.(props := IsHex);
    }
    ib', e' := CopyRun(s, e, buf, ib, text);
    if s[e'] == '.' {
      r := r.(kind := Real, leadDigit := true);
      ib', e' := CopyFraction(s, e', buf, ib', text + s[e..e']);
    }
  }

  /**
   * The point after the integer part, the digits after it (`do ... while`), and the '0'
   * appended when no digit follows (`step < 2`).
   */
  method CopyFraction(s: seq<char>, e: nat, buf: array<char>, ib: nat, ghost text: string)
      returns (ib': nat, e': nat)
    requires Terminated(s) && e < |s| && s[e] == '.' && Holds(buf, text) && ib == |text|
    requires |text| + 1 + |FracDigits(s, e)| <= 47
    modifies buf
    ensures e' == DigitsEnd(s, e + 1) && ib' == |text| + 1 + |FracDigits(s, e)|
    ensures Holds(buf, text + "." + FracDigits(s, e))
  {
    var step := 0;
    ib' := Put(buf, ib, s[e], text);
    step := step + 1;
    var n;
    ib', e', n := CopyDigits(s, e + 1, buf, ib', text + ".");
    step := step + n;
    if step < 2 {
      ib' := Put(buf, ib', '0', text + "." + s[e + 1..e']);
      assert text + "." + s[e + 1..e'] + "0" == text + "." + "0";
    }
  }

  /** A copy loop `while (zpl_char_is_digit(*e)) buf[ib++] = *e++;` entered at `e`; `n` is how many it copied. */
  method CopyDigits(s: seq<char>, e: nat, buf: array<char>, ib: nat, ghost text: string)
      returns (ib': nat, e': nat, n: nat)
    requires Terminated(s) && e < |s| && Holds(buf, text) && ib == |text|
    requires |text| + (DigitsEnd(s, e) - e) <= 47
    modifies buf
    ensures e' == DigitsEnd(s, e) && n == e' - e && ib' == ib + n
    ensures Holds(buf, text + s[e..e'])
  {
        ib', e', n := ib, e, 0;
    while IsDigit(s[e'])
      invariant e <= e' <= DigitsEnd(s, e) && n == e' - e && ib' == ib + n
      invariant Holds(buf, text + s[e..e'])
      decreases |s| - e'
    {
      assert s[e..e' + 1] == s[e..e'] + [s[e']];
      ib' := Put(buf, ib', s[e'], text + s[e..e']);
      e' := e' + 1;
      n := n + 1;
    }
  }

  /** The integer-part loop `while (zpl_char_is_hex_digit(*e) || zpl_char_to_lower(*e) == 'x') buf[ib++] = *e++;`. */
  method CopyRun(s: seq<char>, e: nat, buf: array<char>, ib: nat, ghost text: string)
      returns (ib': nat, e': nat)
    requires Terminated(s) && e < |s| && Holds(buf, text) && ib == |text|
    requires |text| + (RunEnd(s, e) - e) <= 47
    modifies buf
    ensures e' == RunEnd(s, e) && ib' == ib + (e' - e)
    ensures Holds(buf, text + s[e..e'])
  {
        ib', e' := ib, e;
    while IsRunChar(s[e'])
      invariant e <= e' <= RunEnd(s, e) && ib' == ib + (e' - e)
      invariant Holds(buf, text + s[e..e'])
      decreases |s| - e'
    {
      assert s[e..e' + 1] == s[e..e'] + [s[e']];
      ib' := Put(buf, ib', s[e'], text + s[e..e']);
      e' := e' + 1;
    }
  }

  /**
   * The exponent phase at cursor `c`: the exponent `(zpl_i32)zpl_str_to_i64(expbuf, NULL, 10)`
   * (0 when there is no `e`), whether its sign was '-', and the cursor after it.
   */
  method ReadExponent(s: seq<char>, c: nat) returns (exp: I32, expNeg: bool, e: nat)
    requires Terminated(s) && c < |s| && |ScanExponent(s, c).digits| <= 5
    ensures var x := ScanExponent(s, c);
      exp == ToI32(StrToI64(x.digits, 10)) && expNeg == x.neg && e == x.end
  {
    e := c;
    exp := 0;
    expNeg := false;
    if ToLower(s[e]) == 'e' {
      e := e + 1;
      if s[e] == '+' || s[e] == '-' || IsDigit(s[e]) {
        if s[e] == '-' {
          expNeg := true;
        }
        if !IsDigit(s[e]) {
          e := e + 1;
        }
        exp, e := ExponentDigits(s, e);
      } else {
        NoDigitsZero(10);
      }
    } else {
      NoDigitsZero(10);
    }
  }

  /**
   * The copy of the exponent digits from `d0` into the six-character `expbuf`, and
   * their conversion.
   */
  method ExponentDigits(s: seq<char>, d0: nat) returns (exp: I32, e: nat)
    requires Terminated(s) && d0 < |s| && DigitsEnd(s, d0) - d0 <= 5
    ensures e == DigitsEnd(s, d0) && exp == ToI32(StrToI64(s[d0..e], 10))
  {
        var expbuf := new char[6](_ => NUL);
    var expi := 0;
    e := d0;
    while IsDigit(s[e])
      invariant d0 <= e <= DigitsEnd(s, d0) && expi == e - d0
      invariant forall k :: 0 <= k < expi ==> expbuf[k] == s[d0 + k]
      invariant forall k :: expi <= k < 6 ==> expbuf[k] == NUL
      decreases |s| - e
    {
      expbuf[expi] := s[e];
      expi := expi + 1;
      e := e + 1;
    }
    ExpText(expbuf[..], s, d0, e);
    exp := ToI32(StrToI64(CStr(expbuf[..], 0), 10));
  }

  /** After the copy loop, `expbuf` holds the exponent digits as a string. */
  lemma ExpText(t: string, s: seq<char>, d0: nat, e: nat)
    requires |t| == 6 && d0 <= e <= |s| && e - d0 <= 5
    requires forall k :: d0 <= k < e ==> IsDigit(s[k])
    requires forall k :: 0 <= k < e - d0 ==> t[k] == s[d0 + k]
    requires forall k :: e - d0 <= k < 6 ==> t[k] == NUL
    ensures Terminated(t) && CStr(t, 0) == s[d0..e]
  {
    CStrOf(t, 0, e - d0);
    assert t[0..e - d0] == s[d0..e];
  }

  /** An empty digit string scans as zero. */
  lemma NoDigitsZero(base: nat)
    ensures ToI32(StrToI64("", base)) == 0
  {
    assert Magnitude("", base) == 0 by {
      assert DigitRun("", ScanBase("", base)) == 0;
    }
  }
}
