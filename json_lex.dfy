/**
 * The character-level scanning json.c shares between its comment stripper, its value
 * parser and its member parser: finding the end of a quoted literal, the assignment
 * and delimiter character classes, and the backslash check on member names
 * (zpl__json_validate_name).
 */
module JsonLex {
  import opened Wrappers
  import opened ZplLib

  /** zpl__json_is_assign_char: `:`, `=`, `|`, and (by zpl_strchr) the NUL character. */
  predicate IsAssignChar(c: char)
  {
    c == NUL || c == ':' || c == '=' || c == '|'
  }

  /** zpl__json_is_delim_char: `,`, `|`, newline, and (by zpl_strchr) the NUL character. */
  predicate IsDelimChar(c: char)
  {
    c == NUL || c == ',' || c == '|' || c == '\n'
  }

  /** A character that opens a quoted value (zpl_strchr on "`\"'"); NUL is one too. */
  predicate IsQuote(c: char)
  {
    c == NUL || c == '`' || c == '"' || c == '\''
  }

  // ---------------------------------------------------------------------------
  // The end of a quoted literal

  /** Where the closing-quote scan may stop: a `c` or the terminator not directly after a backslash. */
  predicate QuoteStop(s: seq<char>, i: nat, c: char)
    requires 1 <= i < |s|
  {
    (s[i] == c || s[i] == NUL) && s[i - 1] != '\\'
  }

  /**
   * The loop `do { ++e; e = zpl_str_skip(e, c); } while (*(e-1) == '\\');` entered with
   * `e + 1 == start`: the index of the first `c` (or terminator) at or after `start`
   * that is not directly preceded by a backslash.  `None` when the scan would run past
   * the buffer, which happens when the terminator itself follows a backslash.
   */
  function QuoteEnd(s: seq<char>, start: nat, c: char): (r: Option<nat>)
    requires Terminated(s) && 1 <= start
    ensures r.Some? ==> start <= r.value < |s| && (s[r.value] == c || s[r.value] == NUL)
    ensures r.Some? ==> s[r.value - 1] != '\\'
    decreases |s| - start, 1
  {
    if start >= |s| then None else QuoteAfter(s, start, Skip(s, start, c), c)
  }

  /** The `while` test of that loop, at the stop `e` that zpl_str_skip returned. */
  function QuoteAfter(s: seq<char>, start: nat, e: nat, c: char): (r: Option<nat>)
    requires Terminated(s) && 1 <= start <= e < |s|
    requires s[e] == c || s[e] == NUL
    requires forall i :: start <= i < e ==> s[i] != c && s[i] != NUL
    ensures r.Some? ==> e <= r.value < |s| && (s[r.value] == c || s[r.value] == NUL)
    ensures r.Some? ==> s[r.value - 1] != '\\'
    decreases |s| - e, 0
  {
    if s[e - 1] == '\\' then QuoteEnd(s, e + 1, c) else Some(e)
  }

  /**
   * The stop QuoteEnd finds is the first one: every `c` or terminator before it, from
   * `start` on, directly follows a backslash.
   */
  lemma {:induction false} QuoteEndFirst(s: seq<char>, start: nat, c: char)
    requires Terminated(s) && 1 <= start && QuoteEnd(s, start, c).Some?
    ensures forall i :: start <= i < QuoteEnd(s, start, c).value ==> !QuoteStop(s, i, c)
    decreases |s| - start
  {
    var e := Skip(s, start, c);
    if s[e - 1] == '\\' {
      QuoteEndFirst(s, e + 1, c);
    }
  }

  /** The same from the `while` test: the result is the first stop at or after `start`. */
  lemma QuoteAfterFirst(s: seq<char>, start: nat, e: nat, c: char)
    requires Terminated(s) && 1 <= start <= e < |s|
    requires s[e] == c || s[e] == NUL
    requires forall i :: start <= i < e ==> s[i] != c && s[i] != NUL
    requires QuoteAfter(s, start, e, c).Some?
    ensures forall i :: start <= i < QuoteAfter(s, start, e, c).value ==> !QuoteStop(s, i, c)
  {
    if s[e - 1] == '\\' {
      QuoteEndFirst(s, e + 1, c);
    }
  }

  /** A quoted literal opened by `c` at `p` and holding no backslash ends at the next `c`. */
  lemma QuoteEndPlain(s: seq<char>, p: nat, c: char, j: nat)
    requires Terminated(s) && p < j < |s| && s[p] == c && s[j] == c && c != '\\'
    requires forall i :: p < i < j ==> s[i] != c && s[i] != NUL && s[i] != '\\'
    ensures QuoteEnd(s, p + 1, c) == Some(j)
  {
    assert Skip(s, p + 1, c) == j;
  }

  // ---------------------------------------------------------------------------
  // Unquoted member names

  /** The characters that may start a member (json.c:656): quotes, letters, `_`, `$`. */
  predicate IsNameStart(c: char)
  {
    c == '"' || c == '\'' || IsAlpha(c) || c == '_' || c == '$'
  }

  /**
   * The `do ... while` that ends an unquoted name: the first index after `b` whose
   * character is the terminator or neither alphanumeric nor `_`.
   */
  function NameEnd(s: seq<char>, i: nat): (e: nat)
    requires Terminated(s) && i < |s|
    ensures i <= e < |s|
    ensures s[e] == NUL || !(IsAlphanumeric(s[e]) || s[e] == '_')
    decreases |s| - i
  {
    if s[i] != NUL && (IsAlphanumeric(s[i]) || s[i] == '_') && !IsSpace(s[i]) && !IsAssignChar(s[i])
    then NameEnd(s, i + 1)
    else i
  }

  /** Every character of an unquoted name, up to where NameEnd stops, is alphanumeric or `_`. */
  lemma {:induction false} NameEndRun(s: seq<char>, i: nat)
    requires Terminated(s) && i < |s|
    ensures forall k :: i <= k < NameEnd(s, i) ==> s[k] != NUL && (IsAlphanumeric(s[k]) || s[k] == '_')
    decreases |s| - i
  {
    if NameEnd(s, i) != i {
      NameEndRun(s, i + 1);
    }
  }

  // ---------------------------------------------------------------------------
  // zpl__json_validate_name

  /**
   * The rejected pattern at position `i`: a backslash followed by a character that is
   * not an escape code, and then four characters none of which is a hex digit.  The
   * reads beyond `i + 1` look past the name's terminator into the rest of the buffer.
   */
  predicate BadEscapeAt(s: seq<char>, i: nat)
    requires i + 4 < |s|
  {
    s[i] == '\\' && !IsControl(s[i + 1]) &&
    !IsHexDigit(s[i + 1]) && !IsHexDigit(s[i + 2]) && !IsHexDigit(s[i + 3]) && !IsHexDigit(s[i + 4])
  }

  /**
   * The test at position `i`, evaluated with C's short-circuit order: `Some(true)` when
   * the pattern is present, `Some(false)` when it is not, `None` when the evaluation
   * reads past the buffer before it can decide.
   */
  function EscapeTest(s: seq<char>, i: nat): (r: Option<bool>)
    requires Terminated(s) && i < |s| - 1
    ensures r.Some? && i + 4 < |s| ==> (r.value <==> BadEscapeAt(s, i))
    ensures r.Some? && r.value ==> i + 4 < |s|
    ensures s[i] != '\\' ==> r == Some(false)
  {
    if s[i] != '\\' then Some(false)
    else if IsControl(s[i + 1]) || IsHexDigit(s[i + 1]) then Some(false)
    else if IsHexDigit(s[i + 2]) then Some(false)
    else if i + 3 >= |s| then None
    else if IsHexDigit(s[i + 3]) then Some(false)
    else if i + 4 >= |s| then None
    else Some(!IsHexDigit(s[i + 4]))
  }

  /**
   * zpl__json_validate_name on the name starting at `b`: `Some(true)` when it is
   * accepted, `Some(false)` when some position of the name carries the pattern,
   * `None` when a test reads past the buffer.
   */
  function ValidateName(s: seq<char>, b: nat): (r: Option<bool>)
    requires Terminated(s) && b < |s|
    ensures s[b] == NUL ==> r == Some(true)
    ensures r == Some(false) ==> exists i :: b <= i && i + 4 < |s| && BadEscapeAt(s, i)
    decreases |s| - b
  {
    if s[b] == NUL then Some(true)
    else
      match EscapeTest(s, b)
      case None => None
      case Some(bad) => if bad then Some(false) else ValidateName(s, b + 1)
  }

  /** The name at `b` ends at `e` and holds the pattern at no position. */
  predicate CleanName(s: seq<char>, b: nat, e: nat)
    requires b <= e < |s|
  {
    forall i :: b <= i < e && i + 4 < |s| ==> !BadEscapeAt(s, i)
  }

  /**
   * Acceptance means exactly that no position of the name carries the pattern; a
   * rejection points at a position that does.  Both directions hold whenever the
   * check stays inside the buffer.
   */
  lemma {:induction false} ValidateNameMeaning(s: seq<char>, b: nat)
    requires Terminated(s) && b < |s|
    requires ValidateName(s, b).Some?
    ensures var e := Skip(s, b, NUL);
      ValidateName(s, b).value <==> CleanName(s, b, e)
    decreases |s| - b
  {
    var e := Skip(s, b, NUL);
    if s[b] != NUL {
      var t := EscapeTest(s, b);
      if !t.value {
        ValidateNameMeaning(s, b + 1);
        assert Skip(s, b + 1, NUL) == e;
        assert b + 4 < |s| ==> !BadEscapeAt(s, b);
      } else {
        assert BadEscapeAt(s, b);
      }
    }
  }

  /** A name without a backslash is always accepted. */
  lemma {:induction false} NoBackslashValid(s: seq<char>, b: nat)
    requires Terminated(s) && b < |s|
    requires forall i :: b <= i < Skip(s, b, NUL) ==> s[i] != '\\'
    ensures ValidateName(s, b) == Some(true)
    decreases |s| - b
  {
    if s[b] != NUL {
      assert Skip(s, b + 1, NUL) == Skip(s, b, NUL);
      NoBackslashValid(s, b + 1);
    }
  }

  // ---------------------------------------------------------------------------
  // The quote scan on a live buffer

  /** Scanning the live buffer from `p` gives what scanning the original would. */
  lemma {:induction false} SkipLocal(s: seq<char>, t: seq<char>, q: nat, p: nat, c: char)
    requires Terminated(s) && Terminated(t) && |t| == |s| && q <= p < |s|
    requires forall i :: q <= i < |s| ==> t[i] == s[i]
    ensures Skip(t, p, c) == Skip(s, p, c)
    decreases |s| - p
  {
    if s[p] != c && s[p] != NUL {
      SkipLocal(s, t, q, p + 1, c);
    }
  }

  /**
   * The scan for the end of the quoted literal opened at `p` (`do { ++e; e =
   * zpl_str_skip(e, c); } while (*(e-1) == '\\');`), reading the live buffer.
   */
  method QuoteScan(buf: array<char>, p: nat, ghost s0: seq<char>) returns (e: nat)
    requires Terminated(s0) && |s0| == buf.Length && p < buf.Length
    requires forall i :: p <= i < buf.Length ==> buf[i] == s0[i]
    requires QuoteEnd(s0, p + 1, s0[p]).Some?
    ensures QuoteEnd(s0, p + 1, s0[p]) == Some(e)
  {
    var c := buf[p];
    ghost var b := buf[..];
    var st := p + 1;
    SkipLocal(s0, b, p, p + 1, c);
    e := Skip(buf[..], p + 1, c);
    while buf[e - 1] == '\\'
      invariant p + 1 <= st <= e < buf.Length && e == Skip(s0, st, c)
      invariant QuoteEnd(s0, p + 1, c) == QuoteAfter(s0, st, e, c)
      decreases buf.Length - e
    {
      QuoteNext(s0, b, p, st, e, c);
      st := e + 1;
      e := Skip(buf[..], st, c);
    }
    assert s0[e - 1] == buf[e - 1];
  }

  /** One turn of that loop: after an escaped stop the scan resumes at the next character. */
  lemma QuoteNext(s: seq<char>, t: seq<char>, p: nat, st: nat, e: nat, c: char)
    requires Terminated(s) && Terminated(t) && |t| == |s| && p + 1 <= st <= e < |s|
    requires forall i :: p <= i < |s| ==> t[i] == s[i]
    requires e == Skip(s, st, c) && t[e - 1] == '\\'
    requires QuoteEnd(s, p + 1, c) == QuoteAfter(s, st, e, c) && QuoteAfter(s, st, e, c).Some?
    ensures e + 1 < |s| && Skip(t, e + 1, c) == Skip(s, e + 1, c)
    ensures QuoteEnd(s, p + 1, c) == QuoteAfter(s, e + 1, Skip(s, e + 1, c), c)
  {
    assert s[e - 1] == '\\';
    QuoteAfterEscaped(s, st, e, c);
    SkipLocal(s, t, p, e + 1, c);
  }

  /** An escaped stop sends the scan on from the next character. */
  lemma QuoteAfterEscaped(s: seq<char>, st: nat, e: nat, c: char)
    requires Terminated(s) && 1 <= st <= e < |s| && e == Skip(s, st, c) && s[e - 1] == '\\'
    requires QuoteAfter(s, st, e, c).Some?
    ensures e + 1 < |s| && QuoteAfter(s, st, e, c) == QuoteAfter(s, e + 1, Skip(s, e + 1, c), c)
  {
  }
}
