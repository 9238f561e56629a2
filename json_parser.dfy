/**
 * The parser of json.c as it runs: methods over the mutable buffer that mirror
 * zpl__json_parse_value, zpl__json_parse_array, zpl__json_parse_object and
 * zpl_json_parse statement by statement, each proved to leave exactly what the
 * corresponding function of JsonParse describes.
 */
module JsonParser {
  import opened Wrappers
  import opened ZplLib
  import opened JsonLex
  import opened JsonNode
  import opened NumberLexer
  import opened JsonParse
  import opened CommentStrip
  import opened JsonParseFacts

  // ---------------------------------------------------------------------------
  // zpl_json_parse

  /**
   * zpl_json_parse on a non-NULL root and source: the comment stripper when
   * `handleComments` is set, then the document.
   */
  function JsonDocument(s: seq<char>, handleComments: bool): (r: Option<Document>)
    requires Terminated(s)
    ensures r.Some? ==> |r.value.buf| == |s| && Terminated(r.value.buf)
  {
    if handleComments then
      match Strip(s)
      case None => None
      case Some(t) => ParseDocument(t)
    else ParseDocument(s)
  }

  /**
   * zpl_json_parse.  A NULL root pointer is `None`, a NULL source `null`; either gives
   * ERROR_OBJECT_OR_SOURCE_WAS_NULL and leaves root and source as they were.  Otherwise
   * the returned root is what `*root = root_` stores.
   */
  method Parse(root: Option<Node>, source: array?<char>, handleComments: bool) returns (root': Option<Node>, err: Error)
    requires root.Some? && source != null ==> Terminated(source[..]) && JsonDocument(source[..], handleComments).Some?
    modifies source
    ensures root.None? || source == null ==>
      root' == root && err == ObjectOrSourceWasNull && (source != null ==> source[..] == old(source[..]))
    ensures root.Some? && source != null ==>
      root'.Some? && JsonDocument(old(source[..]), handleComments) == Some(Document(source[..], root'.value, err))
  {
    if root.None? || source == null {
      return root, ObjectOrSourceWasNull;
    }
    if handleComments {
      StripComments(source);
    }
    var r;
    r, err := ParseDoc(source);
    root' := Some(r);
  }

  /** zpl_json_parse after the comment stripper: the document shape, the parse and its error. */
  method ParseDoc(buf: array<char>) returns (root: Node, err: Error)
    requires Terminated(buf[..]) && ParseDocument(buf[..]).Some?
    modifies buf
    ensures ParseDocument(old(buf[..])) == Some(Document(buf[..], root, err))
  {
    var dest := Trim(buf[..], 0, false);
    root := Zero;
    var startsWithBracket := false;
    if buf[dest] != '{' && buf[dest] != '[' {
      root := root.(cfgMode := true);
    }
    if buf[dest] == '[' {
      startsWithBracket := true;
    }
    var endp;
    if !startsWithBracket {
      root, endp, err := ParseObject(buf, dest, root);
    } else {
      ElementsShape(buf[..], dest + 1, root);
      root, endp, err := ParseArray(buf, dest + 1, root);
    }
    if !root.cfgMode && endp.Null? {
      err := InvalidValue;
    }
    if startsWithBracket && root.kind != Array {
      // Replacing the root by its first child (json.c:91-94) cannot happen.
      assert false;
    }
  }

  // ---------------------------------------------------------------------------
  // The parse routines

  /** zpl__json_parse_value. */
  method ParseValue(buf: array<char>, p: nat, obj: Node) returns (r: Node, at: Cursor, err: Error)
    requires Terminated(buf[..]) && p < buf.Length && Value(buf[..], p, obj).Some?
    modifies buf
    ensures Value(old(buf[..]), p, obj) == Some(Parsed(buf[..], r, at, err))
    decreases buf.Length - p, 2
  {
    var c := buf[p];
    if IsQuote(c) {
      r, at := ParseString(buf, p, obj);
      err := NoError;
    } else if IsAlpha(c) || (c == '-' && !IsDigit(buf[p + 1])) {
      r, at, err := ParseKeyword(buf, p, obj);
    } else if IsDigit(c) || c == '+' || c == '-' || c == '.' {
      var e;
      r, e := ParseNumber(buf[..], p, obj);
      at, err := At(e), NoError;
    } else if c == '[' {
      r, at, err := ParseArrayValue(buf, p, obj);
    } else if c == '{' {
      r, at, err := ParseObjectValue(buf, p, obj);
    } else {
      r, at, err := obj, At(p), NoError;
    }
  }

  /** The string branch: the closing quote is overwritten with a terminator. */
  method ParseString(buf: array<char>, p: nat, obj: Node) returns (r: Node, at: Cursor)
    requires Terminated(buf[..]) && p < buf.Length && IsQuote(buf[p]) && StringValue(buf[..], p, obj).Some?
    modifies buf
    ensures StringValue(old(buf[..]), p, obj) == Some(Parsed(buf[..], r, at, NoError))
  {
    var c := buf[p];
    r := obj.(kind := String);
    var e := QuoteScan(buf, p, buf[..]);
    if c == '`' {
      r := r.(kind := MultiString);
    }
    buf[e] := NUL;
    r := r.(text := Some(CStr(buf[..], p + 1)));
    at := At(e + 1);
  }

  /** The keyword branch: `zpl_strncmp` against each keyword in turn. */
  method ParseKeyword(buf: array<char>, p: nat, obj: Node) returns (r: Node, at: Cursor, err: Error)
    requires Terminated(buf[..]) && p < buf.Length && buf[p] != NUL
    ensures Keyword(buf[..], p, obj) == Parsed(buf[..], r, at, err)
  {
    r := obj.(kind := Constant);
    err := NoError;
    var s := buf[..];
    if HasPrefix(s, p, "true") {
      r, at := r.(constant := ConstTrue), At(p + 4);
    } else if HasPrefix(s, p, "false") {
      r, at := r.(constant := ConstFalse), At(p + 5);
    } else if HasPrefix(s, p, "null") {
      r, at := r.(constant := ConstNull), At(p + 4);
    } else if HasPrefix(s, p, "Infinity") {
      r, at := r.(kind := Real, props := Infinity), At(p + 8);
    } else if HasPrefix(s, p, "-Infinity") {
      r, at := r.(kind := Real, props := InfinityNeg), At(p + 9);
    } else if HasPrefix(s, p, "NaN") {
      r, at := r.(kind := Real, props := NaN), At(p + 3);
    } else if HasPrefix(s, p, "-NaN") {
      r, at := r.(kind := Real, props := NaNNeg), At(p + 4);
    } else {
      at, err := Null, InvalidValue;
    }
  }

  /** The `[` branch of zpl__json_parse_value. */
  method ParseArrayValue(buf: array<char>, p: nat, obj: Node) returns (r: Node, at: Cursor, err: Error)
    requires Terminated(buf[..]) && p < buf.Length && buf[p] == '[' && ArrayValue(buf[..], p, obj).Some?
    modifies buf
    ensures ArrayValue(old(buf[..]), p, obj) == Some(Parsed(buf[..], r, at, err))
    decreases buf.Length - p, 1
  {
    var q := Trim(buf[..], p + 1, false);
    r := obj.(kind := Array);
    if buf[q] == ']' {
      return r, At(q + 1), NoError;
    }
    r, at, err := ParseArray(buf, q, r);
    if err != NoError {
      return r, Null, err;
    }
    at := At(at.pos + 1);
  }

  /** The `{` branch of zpl__json_parse_value. */
  method ParseObjectValue(buf: array<char>, p: nat, obj: Node) returns (r: Node, at: Cursor, err: Error)
    requires Terminated(buf[..]) && p < buf.Length && buf[p] == '{' && ObjectValue(buf[..], p, obj).Some?
    modifies buf
    ensures ObjectValue(old(buf[..]), p, obj) == Some(Parsed(buf[..], r, at, err))
    decreases buf.Length - p, 1
  {
    var q := Trim(buf[..], p + 1, false);
    r := obj.(kind := Object);
    if buf[q] == '}' {
      return r, At(q + 1), NoError;
    }
    r, at, err := ParseObject(buf, q, r);
    if err != NoError {
      return r, Null, err;
    }
    at := At(at.pos + 1);
  }

  /** zpl__json_parse_array. */
  method ParseArray(buf: array<char>, p: nat, obj: Node) returns (r: Node, at: Cursor, err: Error)
    requires Terminated(buf[..]) && p < buf.Length && Elements(buf[..], p, obj).Some?
    modifies buf
    ensures Elements(old(buf[..]), p, obj) == Some(Parsed(buf[..], r, at, err))
    decreases buf.Length - p, 5
  {
    r := obj.(kind := Array, nodes := Items([]));
    ghost var want := ElementLoop(buf[..], p, r);
    var q := p;
    while buf[q] != NUL
      invariant Terminated(buf[..]) && p <= q < buf.Length && r.nodes.Items?
      invariant ElementLoop(buf[..], q, r) == want
      decreases buf.Length - q
    {
      var step := ElementStep(buf, q, r);
      match step
      case Stop(d) =>
        return d.node, d.at, d.err;
      case More(o, u) =>
        r, q := o, u;
    }
    return r, At(q), InvalidValue;
  }

  /** What one pass of a parse loop from `q` on `obj` leaves: a result, or the next pass's node and cursor. */
  ghost predicate Stepped(want: Option<Parsed>, step: Step, q: nat, buf: seq<char>)
  {
    match step
    case Stop(d) => want == Some(d) && d.buf == buf
    case More(o, u) => q < u < |buf| && Terminated(buf) && o.nodes.Items?
  }

  /**
   * One pass of the `while (*p)` loop of zpl__json_parse_array: blanks, a `]`, or an
   * element, which is appended, and what follows it.
   */
  method ElementStep(buf: array<char>, q0: nat, r0: Node) returns (step: Step)
    requires Terminated(buf[..]) && q0 < buf.Length && buf[q0] != NUL && r0.nodes.Items?
    requires ElementLoop(buf[..], q0, r0).Some?
    modifies buf
    ensures Stepped(ElementLoop(old(buf[..]), q0, r0), step, q0, buf[..])
    ensures step.More? ==> ElementLoop(old(buf[..]), q0, r0) == ElementLoop(buf[..], step.at, step.node)
    decreases buf.Length - q0, 3
  {
    var q := Trim(buf[..], q0, false);
    if buf[q] == ']' {
      return Stop(Parsed(buf[..], r0, At(q), NoError));
    }
    var elem, vat, verr := ParseValue(buf, q, Zero);
    if verr != NoError {
      return Stop(Parsed(buf[..], r0, Null, verr));
    }
    step := ElementTail(buf, q0, r0, elem, vat);
  }

  /** After an element, which is appended: a `,` goes round again, anything else returns. */
  method ElementTail(buf: array<char>, q0: nat, r0: Node, elem: Node, vat: Cursor) returns (step: Step)
    requires Terminated(buf[..]) && q0 < buf.Length && r0.nodes.Items?
    requires Kept(buf[..], q0, Parsed(buf[..], elem, vat, NoError))
    requires AfterElement(buf[..], q0, Parsed(buf[..], elem, vat, NoError), r0).Some?
    ensures Stepped(AfterElement(buf[..], q0, Parsed(buf[..], elem, vat, NoError), r0), step, q0, buf[..])
    ensures step.More? ==>
      AfterElement(buf[..], q0, Parsed(buf[..], elem, vat, NoError), r0) == ElementLoop(buf[..], step.at, step.node)
  {
    ghost var v := Parsed(buf[..], elem, vat, NoError);
    var r := r0.(nodes := Items(r0.nodes.elems + [elem]));
    var q := Trim(buf[..], vat.pos, false);
    if buf[q] == ',' {
      AfterComma(buf[..], q0, v, r0, r, q, ElementLoop(buf[..], q + 1, r));
      return More(r, q + 1);
    }
    AfterNoComma(buf[..], q0, v, r0, r, q);
    if buf[q] != ']' {
      return Stop(Parsed(buf[..], r, At(q), InvalidValue));
    }
    return Stop(Parsed(buf[..], r, At(q), NoError));
  }

  /** zpl__json_parse_object. */
  method ParseObject(buf: array<char>, p: nat, obj: Node) returns (r: Node, at: Cursor, err: Error)
    requires Terminated(buf[..]) && p < buf.Length && Members(buf[..], p, obj).Some?
    modifies buf
    ensures Members(old(buf[..]), p, obj) == Some(Parsed(buf[..], r, at, err))
    decreases buf.Length - p, 6
  {
    r := obj.(nodes := Items([]));
    var q := Trim(buf[..], p, false);
    if buf[q] == '{' {
      r, at, err := MemberLoopRun(buf, q + 1, r.(kind := Object), true, false);
    } else if buf[q] == '[' {
      r, at, err := MemberLoopRun(buf, q + 1, r.(kind := Array), false, true);
    } else {
      r, at, err := MemberLoopRun(buf, q, r, false, false);
    }
  }

  /** The `while (*p)` loop of zpl__json_parse_object, from `q0` with the opener flags. */
  method MemberLoopRun(buf: array<char>, q0: nat, r0: Node, brace: bool, bracket0: bool) returns (r: Node, at: Cursor, err: Error)
    requires Terminated(buf[..]) && q0 < buf.Length && r0.nodes.Items?
    requires MemberLoop(buf[..], q0, r0, brace, bracket0).Some?
    modifies buf
    ensures MemberLoop(old(buf[..]), q0, r0, brace, bracket0) == Some(Parsed(buf[..], r, at, err))
    decreases buf.Length - q0, 5
  {
    ghost var want := MemberLoop(buf[..], q0, r0, brace, bracket0);
    var q, bracket := q0, bracket0;
    r := r0;
    while buf[q] != NUL
      invariant Terminated(buf[..]) && q0 <= q < buf.Length && r.nodes.Items?
      invariant MemberLoop(buf[..], q, r, brace, bracket) == want
      decreases buf.Length - q
    {
      var step;
      step, bracket := MemberStep(buf, q, r, brace, bracket);
      match step
      case Stop(d) =>
        return d.node, d.at, d.err;
      case More(o, u) =>
        r, q := o, u;
    }
    return r, At(q), InvalidValue;
  }

  /**
   * One pass of the `while (*p)` loop of zpl__json_parse_object: blanks, a closer, or
   * a member, which is appended, and its delimiter; `bracket'` is the new
   * `starts_with_bracket`.
   */
  method MemberStep(buf: array<char>, q0: nat, r0: Node, brace: bool, bracket: bool) returns (step: Step, bracket': bool)
    requires Terminated(buf[..]) && q0 < buf.Length && buf[q0] != NUL && r0.nodes.Items?
    requires MemberLoop(buf[..], q0, r0, brace, bracket).Some?
    modifies buf
    ensures Stepped(MemberLoop(old(buf[..]), q0, r0, brace, bracket), step, q0, buf[..])
    ensures step.More? ==>
      MemberLoop(old(buf[..]), q0, r0, brace, bracket) == MemberLoop(buf[..], step.at, step.node, brace, bracket')
    decreases buf.Length - q0, 4
  {
    var q := Trim(buf[..], q0, false);
    var c := buf[q];
    if (c == '}' && brace) || (c == ']' && bracket) || c == NUL {
      return Stop(Parsed(buf[..], r0, At(q), NoError)), bracket;
    }
    if (c == ']' && brace) || (c == '}' && bracket) {
      return Stop(Parsed(buf[..], r0, At(q), InvalidValue)), bracket;
    }
    ghost var s0 := buf[..];
    var node, vat, verr;
    node, vat, verr, bracket' := ParseMember(buf, q, bracket);
    ghost var v := Parsed(buf[..], node, vat, verr);
    assert MemberLoop(s0, q0, r0, brace, bracket) == AfterMember(s0, q0, v, r0, brace, bracket');
    if verr != NoError {
      return Stop(Parsed(buf[..], r0, Null, verr)), bracket';
    }
    step := MemberTail(buf, s0, q0, r0, node, vat, brace, bracket');
  }

  /** The member at `q`, which is not a closer: its value, and the new `starts_with_bracket`. */
  method ParseMember(buf: array<char>, q: nat, bracket: bool) returns (node: Node, at: Cursor, err: Error, bracket': bool)
    requires Terminated(buf[..]) && q < buf.Length && buf[q] != NUL && MemberValue(buf[..], q, bracket).Some?
    modifies buf
    ensures MemberValue(old(buf[..]), q, bracket) == Some((Parsed(buf[..], node, at, err), bracket'))
    decreases buf.Length - q, 3
  {
    if buf[q] == '[' {
      bracket' := true;
      node, at, err := ParseValue(buf, q, Zero);
    } else {
      bracket' := bracket;
      node, at, err := NamedMember(buf, q);
    }
  }

  /**
   * After a member, which is appended: its delimiter, then a closer or the next member.
   * `s0` is the buffer as the pass found it, of which only the length matters here.
   */
  method MemberTail(buf: array<char>, ghost s0: seq<char>, q0: nat, r0: Node, node: Node, vat: Cursor, brace: bool, bracket: bool)
      returns (step: Step)
    requires Terminated(buf[..]) && Terminated(s0) && |s0| == buf.Length && q0 < buf.Length && r0.nodes.Items?
    requires Kept(s0, q0, Parsed(buf[..], node, vat, NoError)) && vat.At? && vat.pos > q0
    requires AfterMember(s0, q0, Parsed(buf[..], node, vat, NoError), r0, brace, bracket).Some?
    ensures Stepped(AfterMember(s0, q0, Parsed(buf[..], node, vat, NoError), r0, brace, bracket), step, q0, buf[..])
    ensures step.More? ==>
      AfterMember(s0, q0, Parsed(buf[..], node, vat, NoError), r0, brace, bracket) ==
      MemberLoop(buf[..], step.at, step.node, brace, bracket)
  {
    var r := r0.(nodes := Items(r0.nodes.elems + [node]));
    step := ParseDelimiter(buf, vat.pos, r, brace, bracket);
  }

  /** A member that does not start with `[`: its name and assignment, then its value one past them. */
  method NamedMember(buf: array<char>, q: nat) returns (node: Node, at: Cursor, err: Error)
    requires Terminated(buf[..]) && q < buf.Length && buf[q] != NUL && buf[q] != '['
    requires NamedValue(buf[..], q).Some?
    modifies buf
    ensures NamedValue(old(buf[..]), q) == Some(Parsed(buf[..], node, at, err))
    decreases buf.Length - q, 2
  {
    ghost var s0 := buf[..];
    var head, hat, herr := ParseMemberHead(buf, q);
    if herr != NoError {
      return head, Null, herr;
    }
    node, at, err := HeadThenValue(buf, q, s0, head, hat);
  }

  /** The value after a member's head, parsed from past the blanks one after the head's cursor. */
  method HeadThenValue(buf: array<char>, q: nat, ghost s0: seq<char>, head: Node, hat: Cursor)
      returns (node: Node, at: Cursor, err: Error)
    requires Terminated(s0) && q < |s0| && Kept(s0, q, Parsed(buf[..], head, hat, NoError))
    requires Inside(Parsed(buf[..], head, hat, NoError)) && buf[q] == s0[q]
    requires HeadValue(s0, q, Parsed(buf[..], head, hat, NoError)).Some?
    modifies buf
    ensures HeadValue(s0, q, Parsed(old(buf[..]), head, hat, NoError)) == Some(Parsed(buf[..], node, at, err))
    decreases buf.Length - q, 1
  {
    node, at, err := ParseValue(buf, Trim(buf[..], hat.pos + 1, false), head);
  }

  /** A member's name and assignment (json.c:656-703), with the name check. */
  method ParseMemberHead(buf: array<char>, q: nat) returns (node: Node, at: Cursor, err: Error)
    requires Terminated(buf[..]) && q < buf.Length && buf[q] != NUL && MemberHead(buf[..], q).Some?
    modifies buf
    ensures MemberHead(old(buf[..]), q) == Some(Parsed(buf[..], node, at, err))
  {
    var c := buf[q];
    if c == '"' || c == '\'' {
      node, at, err := QuotedName(buf, q);
    } else if IsAlpha(c) || c == '_' || c == '$' {
      var e := ScanName(buf, q);
      node, at, err := ParseAssign(buf, q, e, Zero.(nameStyle := NoQuotes));
    } else {
      node, at, err := Zero, At(q), NoError;
    }
  }

  /** A quoted name: its closing quote is overwritten with a terminator. */
  method QuotedName(buf: array<char>, q: nat) returns (node: Node, at: Cursor, err: Error)
    requires Terminated(buf[..]) && q < buf.Length && (buf[q] == '"' || buf[q] == '\'')
    requires MemberHead(buf[..], q).Some?
    modifies buf
    ensures MemberHead(old(buf[..]), q) == Some(Parsed(buf[..], node, at, err))
  {
    var c := buf[q];
    node := Zero.(nameStyle := if c == '"' then DoubleQuote else SingleQuote);
    var b := q + 1;
    ghost var s0 := buf[..];
    var e := ControlSkip(buf[..], b, c);
    buf[e] := NUL;
    assert buf[..] == s0[e := NUL];
    node := node.(name := Some(CStr(buf[..], b)));
    node, at, err := ParseAssign(buf, b, e + 1, node);
  }

  /** The unquoted name's `do { ++e; } while (...)`. */
  method ScanName(buf: array<char>, b: nat) returns (e: nat)
    requires Terminated(buf[..]) && b < buf.Length && buf[b] != NUL
    ensures e == NameEnd(buf[..], b + 1)
  {
    e := b + 1;
    while buf[e] != NUL && (IsAlphanumeric(buf[e]) || buf[e] == '_') && !IsSpace(buf[e]) && !IsAssignChar(buf[e])
      invariant b + 1 <= e < buf.Length && NameEnd(buf[..], e) == NameEnd(buf[..], b + 1)
      decreases buf.Length - e
    {
      e := e + 1;
    }
  }

  /** The assignment after a name from `b` to `e`, and the name check. */
  method ParseAssign(buf: array<char>, b: nat, e: nat, node0: Node) returns (node: Node, at: Cursor, err: Error)
    requires Terminated(buf[..]) && b <= e < buf.Length && Assign(buf[..], b, e, node0).Some?
    modifies buf
    ensures Assign(old(buf[..]), b, e, node0) == Some(Parsed(buf[..], node, at, err))
  {
    var p := Trim(buf[..], e, false);
    node := node0.(assignLineWidth := ToU8(p - e));
    if buf[p] != NUL && !IsAssignChar(buf[p]) {
      return node, Null, InvalidName;
    }
    if buf[p] == '=' {
      node := node.(assignStyle := Equals);
    } else if buf[p] == '|' {
      node := node.(assignStyle := AssignLine);
    } else {
      node := node.(assignStyle := Colon);
    }
    node, at, err := EndName(buf, b, e, p, node);
  }

  /** The terminator after an unquoted name (json.c:701-702) and the name check (json.c:705-709). */
  method EndName(buf: array<char>, b: nat, e: nat, p: nat, node0: Node) returns (node: Node, at: Cursor, err: Error)
    requires Terminated(buf[..]) && b <= e <= p < buf.Length && NameEnded(buf[..], b, e, p, node0).Some?
    modifies buf
    ensures NameEnded(old(buf[..]), b, e, p, node0) == Some(Parsed(buf[..], node, at, err))
  {
    node := node0;
    if node.nameStyle == NoQuotes && buf[e] != NUL {
      buf[e] := NUL;
    }
    if node.nameStyle == NoQuotes {
      node := node.(name := Some(CStr(buf[..], b)));
    }
    var ok := CheckName(buf, b);
    if !ok {
      return node, Null, InvalidName;
    }
    at, err := At(p), NoError;
  }

  /** zpl__json_validate_name on the name at `b`. */
  method CheckName(buf: array<char>, b: nat) returns (ok: bool)
    requires Terminated(buf[..]) && b < buf.Length && ValidateName(buf[..], b).Some?
    ensures ValidateName(buf[..], b) == Some(ok)
  {
    var i := b;
    while buf[i] != NUL
      invariant b <= i < buf.Length && ValidateName(buf[..], i) == ValidateName(buf[..], b)
      decreases buf.Length - i
    {
      if buf[i] == '\\' && !IsControl(buf[i + 1]) &&
         !IsHexDigit(buf[i + 1]) && !IsHexDigit(buf[i + 2]) && !IsHexDigit(buf[i + 3]) && !IsHexDigit(buf[i + 4]) {
        return false;
      }
      i := i + 1;
    }
    return true;
  }

  /** The delimiter and closer after a member that ended at `e` (json.c:720-754). */
  method ParseDelimiter(buf: array<char>, e: nat, obj: Node, brace: bool, bracket: bool) returns (step: Step)
    requires Terminated(buf[..]) && e <= buf.Length && obj.nodes.Items? && |obj.nodes.elems| > 0
    requires Delimit(buf[..], e, obj, brace, bracket).Some?
    ensures Delimit(buf[..], e, obj, brace, bracket) == Some(step)
  {
    var p := Trim(buf[..], e, true);
    var o := obj;
    if IsDelimChar(buf[p]) {
      var kids := o.nodes.elems;
      var n := kids[|kids| - 1].(delimStyle := Comma);
      if buf[p] == '\n' {
        n := n.(delimStyle := Newline);
      } else if buf[p] == '|' {
        n := n.(delimStyle := DelimLine, delimLineWidth := ToU8(p - e));
      }
      o := o.(nodes := Items(kids[..|kids| - 1] + [n]));
      if buf[p] == NUL {
        return Stop(Parsed(buf[..], o, At(p), NoError));
      }
      p := p + 1;
    }
    p := Trim(buf[..], p, false);
    if buf[p] == NUL || buf[p] == '}' || buf[p] == ']' {
      if buf[p] == NUL {
        return Stop(Parsed(buf[..], o, At(p), NoError));
      }
      if brace && buf[p] != '}' {
        return Stop(Parsed(buf[..], o, Null, InvalidValue));
      }
      if bracket && buf[p] != ']' {
        return Stop(Parsed(buf[..], o, Null, InvalidValue));
      }
      return Stop(Parsed(buf[..], o, At(p), NoError));
    }
    return More(o, p);
  }
}
