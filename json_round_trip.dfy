/**
 * What the writer's output means to the parser: a value written by
 * zpl__json_write_value parses back, with zpl__json_parse_value, to a node carrying
 * the same value.  The texts are those of JsonWriter, the parses those of JsonParse.
 */
module JsonRoundTrip {
  import opened Wrappers
  import opened ZplLib
  import opened JsonNode
  import opened JsonLex
  import opened NumberLexer
  import opened JsonParse
  import JsonParseFacts
  import opened JsonWriter

  // ---------------------------------------------------------------------------
  // How long a printed integer is

  /** `b` to the power `k`. */
  function Pow(b: nat, k: nat): (r: nat)
    ensures b > 0 ==> r > 0
  {
    if k == 0 then 1 else b * Pow(b, k - 1)
  }

  lemma {:induction false} PowAdd(b: nat, j: nat, k: nat)
    ensures Pow(b, j + k) == Pow(b, j) * Pow(b, k)
  {
    if k > 0 {
      var x, y := Pow(b, j), Pow(b, k - 1);
      PowAdd(b, j, k - 1);
      assert Pow(b, j + k) == b * (x * y);
      assert b * (x * y) == x * (b * y);
    }
  }

  /** A number below `base^k` has at most `k` digits. */
  lemma {:induction false} DigitsFit(n: nat, base: nat, k: nat)
    requires (base == 10 || base == 16) && 1 <= k && n < Pow(base, k)
    ensures |NatDigits(n, base)| <= k
  {
    if n >= base {
      assert k >= 2;
      assert n / base < Pow(base, k - 1);
      DigitsFit(n / base, base, k - 1);
    }
  }

  /** `%lld` of a 64-bit integer is at most 20 characters, `0x%llx` at most 18. */
  lemma {:induction false} IntegerTextShort(n: I64)
    ensures |Dec(n)| <= 20 && |HexU64(n)| <= 16
  {
    PowAdd(10, 8, 11);
    PowAdd(10, 8, 3);
    assert Pow(10, 19) == 10000000000000000000;
    PowAdd(16, 8, 8);
    assert Pow(16, 16) == 0x1_0000_0000_0000_0000;
    if n < 0 {
      DigitsFit(-(n as int), 10, 19);
    } else {
      DigitsFit(n, 10, 19);
    }
    DigitsFit(n % 0x1_0000_0000_0000_0000, 16, 16);
  }

  // ---------------------------------------------------------------------------
  // Integers

  /** A character after which a written number is over: the integer loop does not copy it and it is no point. */
  predicate EndsNumber(c: char)
  {
    !IsRunChar(c) && c != '.'
  }

  /** Where the digits of an integer literal start: after its '-', if any. */
  function DigitsStart(t: string): nat
  {
    if t != [] && t[0] == '-' then 1 else 0
  }

  /** An unsigned literal that begins 0x or 0X. */
  predicate HexLead(t: string, d: nat)
  {
    d + 1 < |t| && t[d] == '0' && (t[d + 1] == 'x' || t[d + 1] == 'X')
  }

  /** An integer literal: integer-loop characters after an optional '-', a digit first, short enough to copy. */
  predicate IntegerLiteral(t: string)
  {
    |t| <= 47 && DigitsStart(t) < |t| && IsDigit(t[DigitsStart(t)]) &&
    forall k :: DigitsStart(t) <= k < |t| ==> IsRunChar(t[k])
  }

  /** A literal `t` at `p` whose characters from `i` on are all copied ends the integer loop where `t` ends. */
  lemma {:induction false} RunOver(s: seq<char>, p: nat, t: string, i: nat)
    requires Terminated(s) && p + |t| < |s| && s[p..p + |t|] == t && !IsRunChar(s[p + |t|])
    requires i <= |t| && forall k :: i <= k < |t| ==> IsRunChar(t[k])
    ensures RunEnd(s, p + i) == p + |t|
    decreases |t| - i
  {
    if i < |t| {
      assert s[p + i] == t[i];
      RunOver(s, p, t, i + 1);
    }
  }

  /**
   * The mantissa loops on an integer literal `t` at `p` (integer-loop characters after
   * an optional '-', a digit first) copy exactly `t` and stop after it.
   */
  lemma {:induction false} IntegerMantissa(s: seq<char>, p: nat, t: string)
    requires Terminated(s) && p + |t| < |s| && s[p..p + |t|] == t && EndsNumber(s[p + |t|])
    requires IntegerLiteral(t)
    ensures ScanMantissa(s, p) == Mantissa(t, "", false, false, HexLead(t, DigitsStart(t)), p + |t|)
  {
    var i := DigitsStart(t);
    var d := p + i;
    assert s[p] == t[0] && s[d] == t[i];
    assert AfterSign(s, p) == d && s[d] != '.';
    RunOver(s, p, t, i);
    assert d + 1 < p + |t| ==> s[d + 1] == t[i + 1];
    var hex := Pair(s, d, '0', 'x') || Pair(s, d, '0', 'X');
    assert hex == HexLead(t, i);
    var sign := Sign(s, p);
    assert sign == t[..i];
    assert s[d..p + |t|] == t[i..];
    assert sign + s[d..p + |t|] == t;
    assert IntegerPart(s, d, sign) == Mantissa(t, "", false, false, hex, p + |t|);
  }

  /** No exponent follows a number that is over. */
  lemma NoExponent(s: seq<char>, e: nat)
    requires Terminated(s) && e < |s| && EndsNumber(s[e])
    ensures ScanExponent(s, e) == Exponent("", false, e)
  {
    var c := s[e];
    assert c != 'e' && c != 'E';
    if 'A' <= c <= 'Z' {
      assert ToLower(c) == (c as int + 32) as char;
    }
  }

  /** A digit, or a '-' before one, sends zpl__json_parse_value to the number lexer, whose result it returns. */
  lemma ValueOfLexed(s: seq<char>, p: nat, obj: Node, x: Lexed)
    requires Terminated(s) && p < |s|
    requires IsDigit(s[p]) || (s[p] == '-' && p + 1 < |s| && IsDigit(s[p + 1]))
    requires LexNumber(s, p, obj) == Some(x)
    ensures Value(s, p, obj) == Some(Parsed(s, x.node, At(x.end), NoError))
  {
    NumberLead(s[p]);
  }

  /** A digit or '-' opens no string and no keyword. */
  lemma NumberLead(c: char)
    requires IsDigit(c) || c == '-'
    ensures !IsQuote(c) && !IsAlpha(c) && c != NUL
  {
  }

  /** The number lexer once the mantissa loops have copied an integer literal and no exponent follows. */
  lemma {:induction false} LexIntegerFrom(s: seq<char>, p: nat, m: Mantissa, obj: Node, props: Props, v: int)
    requires Terminated(s) && p < |s| && ScanMantissa(s, p) == m && ScanExponent(s, m.end) == Exponent("", false, m.end)
    requires !m.isReal && !m.dotFirst && |m.whole| <= 47
    requires props == (if m.hex then IsHex else obj.props) && v == StrToI64(m.whole, 0)
    ensures LexNumber(s, p, obj) == Some(Lexed(obj.(kind := Integer, props := props, integer := v), m.end))
  {
  }

  /** An integer literal starts with a digit or with a '-' before one. */
  lemma LiteralLead(s: seq<char>, p: nat, t: string)
    requires Terminated(s) && p + |t| < |s| && s[p..p + |t|] == t && IntegerLiteral(t)
    ensures IsDigit(s[p]) || (s[p] == '-' && p + 1 < |s| && IsDigit(s[p + 1]))
  {
    assert s[p] == t[0] && (t[0] == '-' ==> s[p + 1] == t[1]);
  }

  /** The number lexer on an integer literal `t` at `p`: the value of its text, hex when it begins with 0x. */
  lemma {:induction false} LexInteger(s: seq<char>, p: nat, t: string, obj: Node, props: Props, v: int)
    requires Terminated(s) && p + |t| < |s| && s[p..p + |t|] == t && EndsNumber(s[p + |t|])
    requires IntegerLiteral(t)
    requires props == (if HexLead(t, DigitsStart(t)) then IsHex else obj.props) && v == StrToI64(t, 0)
    ensures LexNumber(s, p, obj) == Some(Lexed(obj.(kind := Integer, props := props, integer := v), p + |t|))
  {
    var e := p + |t|;
    var m := Mantissa(t, "", false, false, HexLead(t, DigitsStart(t)), e);
    NoExponent(s, e);
    IntegerMantissa(s, p, t);
    LexIntegerFrom(s, p, m, obj, props, v);
  }

  /** Printed digits are characters the integer loop copies, and no `x`. */
  lemma PrintedRun(d: string, base: nat)
    requires forall i :: 0 <= i < |d| ==> IsDigitIn(d[i], base) && d[i] != 'x'
    ensures forall k :: 0 <= k < |d| ==>
      IsRunChar(d[k]) && d[k] != 'x' && d[k] != 'X' && (base == 10 ==> IsDigit(d[k]))
  {
  }

  /** `0x%llx` prints an integer literal that begins 0x and scans back to the same signed value. */
  lemma {:induction false} HexLiteral(v: I64)
    ensures var t := "0x" + HexU64(v);
      IntegerLiteral(t) && DigitsStart(t) == 0 && HexLead(t, 0) && StrToI64(t, 0) == v
  {
    var d := HexU64(v);
    var t := "0x" + d;
    IntegerTextShort(v);
    PrintedRun(d, 16);
    assert t[0] == '0' && t[1] == 'x' && DigitsStart(t) == 0 && HexLead(t, 0);
    assert forall k :: 2 <= k < |t| ==> t[k] == d[k - 2];
    HexScansBack(v);
  }

  /** `%lld` prints an integer literal without 0x that scans back to the same value. */
  lemma {:induction false} DecLiteral(v: I64)
    ensures var t := Dec(v);
      IntegerLiteral(t) && !HexLead(t, DigitsStart(t)) && StrToI64(t, 0) == v
  {
    var t := Dec(v);
    IntegerTextShort(v);
    var q := if v < 0 then 1 else 0;
    var d := NatDigits(if v < 0 then -(v as int) else v as int, 10);
    assert t == (if v < 0 then "-" else "") + d;
    PrintedRun(d, 10);
    assert DigitsStart(t) == q;
    assert forall k :: q <= k < |t| ==> t[k] == d[k - q];
    assert !HexLead(t, q);
    DecScansBack(v);
  }

  /**
   * An integer written by zpl__json_write_value, `0x%llx` for a hex one and `%lld`
   * otherwise, and followed by a character that ends a number, parses back to the same
   * 64-bit value, hex exactly when it was hex, the cursor just past it.
   */
  lemma {:induction false} IntegerReadsBack(s: seq<char>, p: nat, obj: Node, n: Node)
    requires Terminated(s) && n.kind == Integer
    requires p + |IntegerText(n)| < |s| && s[p..p + |IntegerText(n)|] == IntegerText(n)
    requires EndsNumber(s[p + |IntegerText(n)|])
    ensures Value(s, p, obj) ==
      Some(Parsed(s, obj.(kind := Integer, integer := n.integer, props := if n.props == IsHex then IsHex else obj.props),
                  At(p + |IntegerText(n)|), NoError))
  {
    var t := IntegerText(n);
    var props := if n.props == IsHex then IsHex else obj.props;
    if n.props == IsHex {
      HexLiteral(n.integer);
    } else {
      DecLiteral(n.integer);
    }
    LexInteger(s, p, t, obj, props, n.integer);
    LiteralLead(s, p, t);
    ValueOfLexed(s, p, obj, Lexed(obj.(kind := Integer, props := props, integer := n.integer), p + |t|));
  }

  // ---------------------------------------------------------------------------
  // Keywords

  /** A letter, or a '-' before a non-digit, sends zpl__json_parse_value to the keyword table. */
  lemma ValueOfKeyword(s: seq<char>, p: nat, obj: Node)
    requires Terminated(s) && p + 1 < |s|
    requires IsAlpha(s[p]) || (s[p] == '-' && !IsDigit(s[p + 1]))
    ensures Value(s, p, obj) == Some(Keyword(s, p, obj))
  {
    KeywordLead(s[p]);
  }

  /** A letter or '-' opens no string and is no terminator. */
  lemma KeywordLead(c: char)
    requires IsAlpha(c) || c == '-'
    ensures !IsQuote(c) && c != NUL
  {
  }

  /** The keyword table on a prefix that starts with `c`, the first letter of none of the earlier words. */
  lemma KeywordFirst(s: seq<char>, p: nat, kw: string)
    requires Terminated(s) && HasPrefix(s, p, kw) && |kw| >= 2
    ensures s[p] == kw[0] && s[p + 1] == kw[1]
  {
    assert s[p..p + |kw|][0] == kw[0] && s[p..p + |kw|][1] == kw[1];
  }

  /** A literal that differs from the buffer at its `i`-th character is no prefix there. */
  lemma Mismatch(s: seq<char>, p: nat, lit: string, i: nat)
    requires i < |lit| && (p + i < |s| ==> s[p + i] != lit[i])
    ensures !HasPrefix(s, p, lit)
  {
  }

  /** `true`, `false` and `null`, as the writer prints them, parse back to the same constant. */
  lemma {:induction false} ConstantReadsBack(s: seq<char>, p: nat, obj: Node, c: ConstValue)
    requires Terminated(s) && HasPrefix(s, p, ConstantText(c))
    ensures Value(s, p, obj) ==
      Some(Parsed(s, obj.(kind := Constant, constant := c), At(p + |ConstantText(c)|), NoError))
  {
    var kw := ConstantText(c);
    KeywordFirst(s, p, kw);
    PrefixBeforeEnd(s, p, kw);
    ValueOfKeyword(s, p, obj);
    match c
    case ConstTrue =>
    case ConstFalse => Mismatch(s, p, "true", 0);
    case ConstNull => Mismatch(s, p, "true", 0); Mismatch(s, p, "false", 0);
  }

  /** A real the writer prints as `NaN`, `-NaN`, `Infinity` or `-Infinity` parses back with the same props. */
  lemma {:induction false} SpecialRealReadsBack(s: seq<char>, p: nat, obj: Node, n: Node, fixed: Node -> string)
    requires Terminated(s) && n.kind == Real
    requires n.props == NaN || n.props == NaNNeg || n.props == Infinity || n.props == InfinityNeg
    requires HasPrefix(s, p, RealText(n, fixed))
    ensures Value(s, p, obj) ==
      Some(Parsed(s, obj.(kind := Real, props := n.props), At(p + |RealText(n, fixed)|), NoError))
  {
    var kw := RealText(n, fixed);
    KeywordFirst(s, p, kw);
    PrefixBeforeEnd(s, p, kw);
    ValueOfKeyword(s, p, obj);
    match n.props
    case NaN => NaNWord(s, p, obj);
    case NaNNeg => NaNNegWord(s, p, obj);
    case Infinity => InfinityWord(s, p, obj);
    case InfinityNeg => InfinityNegWord(s, p, obj);
  }

  // The keyword table on each non-finite word: a Real with that word's props.

  lemma {:induction false} NaNWord(s: seq<char>, p: nat, obj: Node)
    requires Terminated(s) && HasPrefix(s, p, "NaN")
    ensures Keyword(s, p, obj) == Hit(s, p, obj.(kind := Real, props := NaN), "NaN")
  {
    KeywordFirst(s, p, "NaN");
    Mismatch(s, p, "true", 0);
    Mismatch(s, p, "false", 0);
    Mismatch(s, p, "null", 0);
    Mismatch(s, p, "Infinity", 0);
    Mismatch(s, p, "-Infinity", 0);
  }

  lemma {:induction false} NaNNegWord(s: seq<char>, p: nat, obj: Node)
    requires Terminated(s) && HasPrefix(s, p, "-NaN")
    ensures Keyword(s, p, obj) == Hit(s, p, obj.(kind := Real, props := NaNNeg), "-NaN")
  {
    KeywordFirst(s, p, "-NaN");
    Mismatch(s, p, "true", 0);
    Mismatch(s, p, "false", 0);
    Mismatch(s, p, "null", 0);
    Mismatch(s, p, "Infinity", 0);
    Mismatch(s, p, "-Infinity", 1);
    Mismatch(s, p, "NaN", 0);
  }

  lemma {:induction false} InfinityWord(s: seq<char>, p: nat, obj: Node)
    requires Terminated(s) && HasPrefix(s, p, "Infinity")
    ensures Keyword(s, p, obj) == Hit(s, p, obj.(kind := Real, props := Infinity), "Infinity")
  {
    KeywordFirst(s, p, "Infinity");
    Mismatch(s, p, "true", 0);
    Mismatch(s, p, "false", 0);
    Mismatch(s, p, "null", 0);
  }

  lemma {:induction false} InfinityNegWord(s: seq<char>, p: nat, obj: Node)
    requires Terminated(s) && HasPrefix(s, p, "-Infinity")
    ensures Keyword(s, p, obj) == Hit(s, p, obj.(kind := Real, props := InfinityNeg), "-Infinity")
  {
    KeywordFirst(s, p, "-Infinity");
    Mismatch(s, p, "true", 0);
    Mismatch(s, p, "false", 0);
    Mismatch(s, p, "null", 0);
    Mismatch(s, p, "Infinity", 0);
  }

  // ---------------------------------------------------------------------------
  // Strings

  /** A character a quoted text may hold and still end at its closing quote `q`. */
  predicate Plain(c: char, q: char)
  {
    c != q && c != NUL && c != '\\'
  }

  /** The quote the writer uses for a string node. */
  function QuoteOf(k: Kind): char
  {
    if k == MultiString then '`' else '"'
  }

  /** A quote character sends zpl__json_parse_value to the string reader. */
  lemma ValueOfQuote(s: seq<char>, p: nat, obj: Node)
    requires Terminated(s) && p < |s| && (s[p] == '"' || s[p] == '`')
    ensures Value(s, p, obj) == StringValue(s, p, obj)
  {
  }

  /** The layout of `q`, `t`, `q` at `p`. */
  lemma QuotedLayout(s: seq<char>, p: nat, q: char, t: string)
    requires HasPrefix(s, p, [q] + t + [q])
    ensures s[p] == q && s[p + 1 + |t|] == q && s[p + 1..p + 1 + |t|] == t
  {
    var w := [q] + t + [q];
    assert s[p..p + |w|] == w;
    assert s[p] == w[0] && s[p + 1 + |t|] == w[1 + |t|];
    forall k | 0 <= k < |t|
      ensures s[p + 1..p + 1 + |t|][k] == t[k]
    {
      assert s[p + 1 + k] == s[p..p + |w|][1 + k] == w[1 + k];
    }
  }

  /**
   * A text quoted with `"` or `` ` `` and holding neither that quote, nor a backslash,
   * nor a terminator, parses back to the same text: the closing quote becomes the
   * terminator that ends it, and the cursor moves past it.
   */
  lemma {:induction false} QuotedReadsBack(s: seq<char>, p: nat, obj: Node, q: char, t: string)
    requires Terminated(s) && (q == '"' || q == '`') && HasPrefix(s, p, [q] + t + [q])
    requires forall k :: 0 <= k < |t| ==> Plain(t[k], q)
    ensures p + |t| + 2 < |s| && s[p] == q
    ensures StringValue(s, p, obj) ==
      Some(Parsed(s[p + |t| + 1 := NUL], obj.(kind := if q == '`' then MultiString else String, text := Some(t)),
                  At(p + |t| + 2), NoError))
  {
    var j := p + 1 + |t|;
    QuotedLayout(s, p, q, t);
    QuoteEndAt(s, p, q, t);
    TextAt(s, p, q, t);
    StringValueIs(s, p, obj, j);
    QuotedIs(s, p, obj, j, t);
  }

  /** The scan for the closing quote stops right after the text. */
  lemma QuoteEndAt(s: seq<char>, p: nat, q: char, t: string)
    requires Terminated(s) && q != '\\' && p + 1 + |t| < |s|
    requires s[p] == q && s[p + 1 + |t|] == q && s[p + 1..p + 1 + |t|] == t
    requires forall k :: 0 <= k < |t| ==> Plain(t[k], q)
    ensures QuoteEnd(s, p + 1, q) == Some(p + 1 + |t|)
  {
    var j := p + 1 + |t|;
    assert forall i :: p < i < j ==> s[i] == t[i - p - 1];
    QuoteEndPlain(s, p, q, j);
  }

  /** Once the closing quote is a terminator, the C string after the opening quote is the text. */
  lemma TextAt(s: seq<char>, p: nat, q: char, t: string)
    requires Terminated(s) && p + 1 + |t| < |s| && s[p + 1..p + 1 + |t|] == t
    requires forall k :: 0 <= k < |t| ==> Plain(t[k], q)
    ensures CStr(s[p + 1 + |t| := NUL], p + 1) == t
  {
    var j := p + 1 + |t|;
    var u := s[j := NUL];
    assert forall i :: p + 1 <= i < j ==> u[i] == t[i - p - 1];
    CStrOf(u, p + 1, |t|);
    assert u[p + 1..j] == t;
  }

  /** The string reader's result once the closing quote is known. */
  lemma StringValueIs(s: seq<char>, p: nat, obj: Node, j: nat)
    requires Terminated(s) && p < |s| && (s[p] == '"' || s[p] == '`')
    requires QuoteEnd(s, p + 1, s[p]) == Some(j)
    ensures StringValue(s, p, obj) == Some(Quoted(s, p, obj, j))
  {
  }

  /** The string closed at `j`, once its text is known. */
  lemma QuotedIs(s: seq<char>, p: nat, obj: Node, j: nat, t: string)
    requires Terminated(s) && p < j < |s| && CStr(s[j := NUL], p + 1) == t
    ensures Quoted(s, p, obj, j) ==
      Parsed(s[j := NUL], obj.(kind := if s[p] == '`' then MultiString else String, text := Some(t)), At(j + 1), NoError)
  {
  }

  /** What the writer prints for a String or MultiString node. */
  lemma StringPayload(n: Node, ind: int, fixed: Node -> string)
    requires (n.kind == String || n.kind == MultiString) && n.text.Some?
    ensures PayloadText(n, ind, fixed) == [QuoteOf(n.kind)] + n.text.value + [QuoteOf(n.kind)]
  {
  }

  /**
   * A String or MultiString node written by zpl__json_write_value parses back to the
   * same kind and text, when the text holds neither its quote, nor a backslash, nor a
   * terminator.
   */
  lemma {:induction false} StringReadsBack(s: seq<char>, p: nat, obj: Node, n: Node, ind: int, fixed: Node -> string)
    requires Terminated(s) && (n.kind == String || n.kind == MultiString) && n.text.Some?
    requires HasPrefix(s, p, PayloadText(n, ind, fixed))
    requires forall k :: 0 <= k < |n.text.value| ==> Plain(n.text.value[k], QuoteOf(n.kind))
    ensures Value(s, p, obj) ==
      Some(Parsed(s[p + |PayloadText(n, ind, fixed)| - 1 := NUL], obj.(kind := n.kind, text := n.text),
                  At(p + |PayloadText(n, ind, fixed)|), NoError))
  {
    var q := QuoteOf(n.kind);
    var t := n.text.value;
    var w := PayloadText(n, ind, fixed);
    StringPayload(n, ind, fixed);
    assert |w| == |t| + 2 && HasPrefix(s, p, [q] + t + [q]);
    QuotedReadsBack(s, p, obj, q, t);
    ValueOfQuote(s, p, obj);
    var k := if q == '`' then MultiString else String;
    assert k == n.kind;
    var r := Parsed(s[p + |t| + 1 := NUL], obj.(kind := k, text := Some(t)), At(p + |t| + 2), NoError);
    assert Value(s, p, obj) == Some(r);
    assert r == Parsed(s[p + |w| - 1 := NUL], obj.(kind := n.kind, text := n.text), At(p + |w|), NoError);
  }

  // ---------------------------------------------------------------------------
  // Assignments and delimiters

  /** The blanks the writer puts before `=` or `|`: as many as recorded, at least one; none before `:`. */
  function AssignGap(n: Node): nat
  {
    if n.assignStyle == Colon then 0 else if n.assignLineWidth as int > 1 then n.assignLineWidth as int else 1
  }

  /**
   * An assignment written by zpl__json_write_value after a name that ended at `e` reads
   * back with the same style; its width is the number of blanks written (zero for a
   * colon), and the cursor stops at the assignment character, so that the value is read
   * from past the blank that follows it.
   */
  lemma AssignReadsBack(s: seq<char>, b: nat, e: nat, node: Node, n: Node)
    requires Terminated(s) && b <= e < |s| && HasPrefix(s, e, AssignText(n))
    ensures Assign(s, b, e, node).Some? ==>
      var r := Assign(s, b, e, node).value;
      r.node.assignStyle == n.assignStyle && r.node.assignLineWidth == AssignGap(n) &&
      (r.at.At? ==> r.at.pos == e + AssignGap(n) && r.at.pos + 2 == e + |AssignText(n)|)
  {
    AssignAt(s, e, n);
    if Assign(s, b, e, node).Some? {
      JsonParseFacts.AssignIs(s, b, e, node);
    }
  }

  /** Where the parser's assignment scan stops on a written assignment, and what it finds there. */
  lemma AssignAt(s: seq<char>, e: nat, n: Node)
    requires Terminated(s) && e < |s| && HasPrefix(s, e, AssignText(n))
    ensures e + AssignGap(n) + 2 == e + |AssignText(n)| && Trim(s, e, false) == e + AssignGap(n)
    ensures s[e + AssignGap(n)] == if n.assignStyle == Colon then ':' else if n.assignStyle == Equals then '=' else '|'
  {
    var a := AssignText(n);
    var k := AssignGap(n);
    assert |a| == k + 2 && a[k] == (if n.assignStyle == Colon then ':' else if n.assignStyle == Equals then '=' else '|');
    forall i | e <= i < e + k
      ensures s[i] == ' '
    {
      assert s[i] == s[e..e + |a|][i - e];
    }
    assert s[e + k] == s[e..e + |a|][k];
    TrimBlanks(s, e, k, false);
  }

  /** The delimiter style the parser reads back for a member written with `n`'s delimiter. */
  function DelimRead(n: Node, isLast: bool): DelimStyle
  {
    if n.delimStyle == Comma && isLast then Newline else n.delimStyle
  }

  /** The node a delimiter step leaves, whether the loop stops or goes on. */
  function StepNode(st: Step): Node
  {
    match st
    case Stop(d) => d.node
    case More(m, _) => m
  }

  /**
   * A delimiter written by zpl__json_write_value after a member that ended at `e` is
   * read back into that member (the last child) with the same style and line width,
   * except that the bare newline after a comma-style last member reads as a newline
   * delimiter, which the writer prints the same way.
   */
  lemma DelimReadsBack(s: seq<char>, e: nat, obj: Node, brace: bool, bracket: bool, n: Node, isLast: bool)
    requires Terminated(s) && e < |s| && obj.nodes.Items? && |obj.nodes.elems| > 0
    requires HasPrefix(s, e, DelimText(n, isLast))
    ensures Delimit(s, e, obj, brace, bracket).Some?
    ensures var o := StepNode(Delimit(s, e, obj, brace, bracket).value);
      o.nodes.Items? && |o.nodes.elems| == |obj.nodes.elems| &&
      o.nodes.elems[..|o.nodes.elems| - 1] == obj.nodes.elems[..|obj.nodes.elems| - 1] &&
      o.nodes.elems[|o.nodes.elems| - 1].delimStyle == DelimRead(n, isLast) &&
      (n.delimStyle == DelimLine ==> o.nodes.elems[|o.nodes.elems| - 1].delimLineWidth == n.delimLineWidth)
  {
    var k := DelimAt(s, e, n, isLast);
    var kids := obj.nodes.elems;
    var last := kids[|kids| - 1];
    var m := if n.delimStyle == DelimLine then last.(delimStyle := DelimLine, delimLineWidth := ToU8(k))
             else last.(delimStyle := DelimRead(n, isLast));
    DelimMarks(s, e, obj, brace, bracket, e + k, m);
  }

  /** A delimiter character other than the terminator marks the last member and the loop goes on to the closer test. */
  lemma DelimMarks(s: seq<char>, e: nat, obj: Node, brace: bool, bracket: bool, t: nat, m: Node)
    requires Terminated(s) && e <= t && t + 1 < |s| && obj.nodes.Items? && |obj.nodes.elems| > 0
    requires t == Trim(s, e, true) && (s[t] == '\n' || s[t] == '|' || s[t] == ',')
    requires var last := obj.nodes.elems[|obj.nodes.elems| - 1];
      m == if s[t] == '\n' then last.(delimStyle := Newline)
           else if s[t] == '|' then last.(delimStyle := DelimLine, delimLineWidth := ToU8(t - e))
           else last.(delimStyle := Comma)
    ensures Delimit(s, e, obj, brace, bracket).Some?
    ensures StepNode(Delimit(s, e, obj, brace, bracket).value) ==
      obj.(nodes := Items(obj.nodes.elems[..|obj.nodes.elems| - 1] + [m]))
  {
  }

  /** Where the parser's delimiter scan stops on a written delimiter, and what it finds there. */
  lemma DelimAt(s: seq<char>, e: nat, n: Node, isLast: bool) returns (k: nat)
    requires Terminated(s) && e < |s| && HasPrefix(s, e, DelimText(n, isLast))
    ensures k == (if n.delimStyle == DelimLine then n.delimLineWidth as int else 0)
    ensures e + k + 1 < |s| && Trim(s, e, true) == e + k
    ensures s[e + k] == if n.delimStyle == DelimLine then '|' else if n.delimStyle == Comma && !isLast then ',' else '\n'
  {
    var d := DelimText(n, isLast);
    k := if n.delimStyle == DelimLine then n.delimLineWidth as int else 0;
    assert d[k] == (if n.delimStyle == DelimLine then '|' else if n.delimStyle == Comma && !isLast then ',' else '\n');
    forall i | e <= i < e + k
      ensures s[i] == ' '
    {
      assert s[i] == s[e..e + |d|][i - e];
    }
    assert s[e + k] == s[e..e + |d|][k];
    if s[e + k] != '\n' {
      TrimBlanks(s, e, k, true);
    }
  }
}
