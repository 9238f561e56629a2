/**
 * The recursive-descent parser of json.c (zpl__json_parse_value, zpl__json_parse_array,
 * zpl__json_parse_object) and the document shape of zpl_json_parse, as functions of the
 * buffer they parse.
 *
 * The parser is destructive: it ends strings and names by writing terminators into the
 * buffer, so every routine takes the buffer and a cursor and gives back the buffer as
 * it leaves it, the node it filled in, the pointer it returns and the error code.  The
 * error code starts out ERROR_NONE at every call (each caller returns as soon as it is
 * set), so the code a routine leaves is the one it sets itself or ERROR_NONE.  A `None`
 * outcome is a read or write past the buffer, which the C leaves undefined.
 */
module JsonParse {
  import opened Wrappers
  import opened ZplLib
  import opened JsonLex
  import opened JsonNode
  import opened NumberLexer

  /** The `char *` a parse routine returns: NULL, or a position in the buffer (one past its end at most). */
  datatype Cursor = Null | At(pos: nat)

  /** What a parse routine leaves behind. */
  datatype Parsed = Parsed(buf: seq<char>, node: Node, at: Cursor, err: Error)

  /**
   * A result on buffer `s` from cursor `p`: same length, still terminated, changed only
   * by terminators written at or after `p`, cursor not behind `p`, NULL only with an
   * error.
   */
  predicate Kept(s: seq<char>, p: nat, r: Parsed)
  {
    |r.buf| == |s| && Terminated(r.buf) &&
    (forall i {:trigger r.buf[i]} :: 0 <= i < |s| ==> r.buf[i] == s[i] || (p <= i && r.buf[i] == NUL)) &&
    (r.at.At? ==> p <= r.at.pos <= |s|) &&
    (r.at.Null? ==> r.err != NoError)
  }

  /** A routine that returns with ERROR_NONE returns a position inside the buffer. */
  predicate Inside(r: Parsed)
  {
    r.err == NoError ==> r.at.At? && r.at.pos < |r.buf|
  }

  // ---------------------------------------------------------------------------
  // zpl__json_parse_value

  /**
   * zpl__json_parse_value on `obj` at `p`: a quoted string, a keyword, a number, an
   * array or an object, chosen by the character at `p`; any other character leaves
   * everything as it was and returns `p`.
   */
  function Value(s: seq<char>, p: nat, obj: Node): (r: Option<Parsed>)
    requires Terminated(s) && p < |s|
    ensures r.Some? ==> Kept(s, p, r.value)
    ensures r.Some? && s[p] == '[' && r.value.at.At? ==> r.value.at.pos > p
    decreases |s| - p, 2
  {
    var c := s[p];
    if IsQuote(c) then StringValue(s, p, obj)
    else if IsAlpha(c) || (c == '-' && !IsDigit(s[p + 1])) then Some(Keyword(s, p, obj))
    else if IsDigit(c) || c == '+' || c == '-' || c == '.' then
      match LexNumber(s, p, obj)
      case None => None
      case Some(x) => Some(Parsed(s, x.node, At(x.end), NoError))
    else if c == '[' then ArrayValue(s, p, obj)
    else if c == '{' then ObjectValue(s, p, obj)
    else Some(Parsed(s, obj, At(p), NoError))
  }

  /**
   * A quoted value: the first unescaped copy of the opening quote (or the terminator)
   * becomes a terminator, the string is what follows the opening quote, and the cursor
   * moves one past the closing quote.
   */
  function StringValue(s: seq<char>, p: nat, obj: Node): (r: Option<Parsed>)
    requires Terminated(s) && p < |s| && IsQuote(s[p])
    ensures r.Some? ==> Kept(s, p, r.value) && r.value.err == NoError
  {
    match QuoteEnd(s, p + 1, s[p])
    case None => None
    case Some(e) => Some(Quoted(s, p, obj, e))
  }

  /** The string opened at `p` and closed at `e`: a terminator at `e`, the text in between, the cursor past `e`. */
  function Quoted(s: seq<char>, p: nat, obj: Node, e: nat): (r: Parsed)
    requires Terminated(s) && p < e < |s|
    ensures Kept(s, p, r) && r.err == NoError && r.at == At(e + 1)
  {
    var t := s[e := NUL];
    Parsed(t, obj.(kind := if s[p] == '`' then MultiString else String, text := Some(CStr(t, p + 1))), At(e + 1), NoError)
  }

  /** The keywords, tried in the order of json.c:570-600; an unknown word is INVALID_VALUE. */
  function Keyword(s: seq<char>, p: nat, obj: Node): (r: Parsed)
    requires Terminated(s) && p < |s| && s[p] != NUL
    ensures Kept(s, p, r) && r.buf == s
  {
    var o := obj.(kind := Constant);
    if HasPrefix(s, p, "true") then Hit(s, p, o.(constant := ConstTrue), "true")
    else if HasPrefix(s, p, "false") then Hit(s, p, o.(constant := ConstFalse), "false")
    else if HasPrefix(s, p, "null") then Hit(s, p, o.(constant := ConstNull), "null")
    else if HasPrefix(s, p, "Infinity") then Hit(s, p, o.(kind := Real, props := Infinity), "Infinity")
    else if HasPrefix(s, p, "-Infinity") then Hit(s, p, o.(kind := Real, props := InfinityNeg), "-Infinity")
    else if HasPrefix(s, p, "NaN") then Hit(s, p, o.(kind := Real, props := NaN), "NaN")
    else if HasPrefix(s, p, "-NaN") then Hit(s, p, o.(kind := Real, props := NaNNeg), "-NaN")
    else Parsed(s, o, Null, InvalidValue)
  }

  /** A matched keyword: the cursor moves past it. */
  function Hit(s: seq<char>, p: nat, o: Node, kw: string): (r: Parsed)
    requires Terminated(s) && HasPrefix(s, p, kw) && NUL !in kw && |kw| > 0
    ensures Kept(s, p, r) && r.buf == s && r.at == At(p + |kw|) && p + |kw| < |s|
  {
    PrefixBeforeEnd(s, p, kw);
    Parsed(s, o, At(p + |kw|), NoError)
  }

  /** `[`: an empty array returns past its `]`; otherwise zpl__json_parse_array, then one past its `]`. */
  function ArrayValue(s: seq<char>, p: nat, obj: Node): (r: Option<Parsed>)
    requires Terminated(s) && p < |s| && s[p] == '['
    ensures r.Some? ==> Kept(s, p, r.value) && (r.value.at.At? ==> r.value.at.pos > p)
    decreases |s| - p, 1
  {
    var q := Trim(s, p + 1, false);
    var o := obj.(kind := Array);
    if s[q] == ']' then Some(Parsed(s, o, At(q + 1), NoError))
    else
      match Elements(s, q, o)
      case None => None
      case Some(a) =>
        if a.err != NoError then Some(a.(at := Null)) else Some(a.(at := At(a.at.pos + 1)))
  }

  /** `{`: an empty object returns past its `}`; otherwise zpl__json_parse_object, then one past where it stopped. */
  function ObjectValue(s: seq<char>, p: nat, obj: Node): (r: Option<Parsed>)
    requires Terminated(s) && p < |s| && s[p] == '{'
    ensures r.Some? ==> Kept(s, p, r.value)
    decreases |s| - p, 1
  {
    var q := Trim(s, p + 1, false);
    var o := obj.(kind := Object);
    if s[q] == '}' then Some(Parsed(s, o, At(q + 1), NoError))
    else
      match Members(s, q, o)
      case None => None
      case Some(a) =>
        if a.err != NoError then Some(a.(at := Null)) else Some(a.(at := At(a.at.pos + 1)))
  }

  // ---------------------------------------------------------------------------
  // zpl__json_parse_array

  /** zpl__json_parse_array: the node becomes an Array with a fresh, empty child array. */
  function Elements(s: seq<char>, p: nat, obj: Node): (r: Option<Parsed>)
    requires Terminated(s) && p < |s|
    ensures r.Some? ==> Kept(s, p, r.value) && Inside(r.value)
    ensures r.Some? && r.value.err == NoError ==> r.value.buf[r.value.at.pos] == ']'
    decreases |s| - p, 4
  {
    ElementLoop(s, p, obj.(kind := Array, nodes := Items([])))
  }

  /**
   * The `while (*p)` loop of zpl__json_parse_array from `p`: skip blanks, stop at `]`,
   * parse an element into a zeroed node and append it, then go on after a `,`.
   * Anything else after an element, or the end of the input, is INVALID_VALUE.
   */
  function ElementLoop(s: seq<char>, p: nat, obj: Node): (r: Option<Parsed>)
    requires Terminated(s) && p < |s| && obj.nodes.Items?
    ensures r.Some? ==> Kept(s, p, r.value) && Inside(r.value)
    ensures r.Some? && r.value.err == NoError ==> r.value.buf[r.value.at.pos] == ']'
    decreases |s| - p, 3
  {
    if s[p] == NUL then Some(Parsed(s, obj, At(p), InvalidValue))
    else
      var q := Trim(s, p, false);
      if s[q] == ']' then Some(Parsed(s, obj, At(q), NoError))
      else
        match Value(s, q, Zero)
        case None => None
        case Some(v) => AfterElement(s, p, v, obj)
  }

  /**
   * After an element `v` (parsed in the iteration that began at `p`): give up on an
   * error, otherwise append it and go on after a `,`, or return at anything else.
   */
  function AfterElement(s: seq<char>, p: nat, v: Parsed, obj: Node): (r: Option<Parsed>)
    requires Terminated(s) && p < |s| && obj.nodes.Items? && Kept(s, p, v)
    ensures r.Some? ==> Kept(s, p, r.value) && Inside(r.value)
    ensures r.Some? && r.value.err == NoError ==> r.value.buf[r.value.at.pos] == ']'
    decreases |s| - p, 1
  {
    if v.err != NoError then Some(Parsed(v.buf, obj, Null, v.err))
    else if v.at.pos >= |s| then None
    else
      var o := obj.(nodes := Items(obj.nodes.elems + [v.node]));
      var t := Trim(v.buf, v.at.pos, false);
      if v.buf[t] == ',' then ElementLoop(v.buf, t + 1, o)
      else Some(Parsed(v.buf, o, At(t), if v.buf[t] != ']' then InvalidValue else NoError))
  }

  // ---------------------------------------------------------------------------
  // zpl__json_parse_object

  /**
   * zpl__json_parse_object: a fresh, empty child array; a leading `{` or `[` (after
   * blanks) is consumed, makes the node an Object or an Array, and decides which closer
   * ends the member loop.
   */
  function Members(s: seq<char>, p: nat, obj: Node): (r: Option<Parsed>)
    requires Terminated(s) && p < |s|
    ensures r.Some? ==> Kept(s, p, r.value) && Inside(r.value)
    decreases |s| - p, 5
  {
    var o := obj.(nodes := Items([]));
    var q := Trim(s, p, false);
    if s[q] == '{' then MemberLoop(s, q + 1, o.(kind := Object), true, false)
    else if s[q] == '[' then MemberLoop(s, q + 1, o.(kind := Array), false, true)
    else MemberLoop(s, q, o, false, false)
  }

  /**
   * The `while (*p)` loop of zpl__json_parse_object from `p`.  `brace` and `bracket` are
   * the `starts_with_*` flags; a member that starts with `[` sets `bracket`.
   */
  function MemberLoop(s: seq<char>, p: nat, obj: Node, brace: bool, bracket: bool): (r: Option<Parsed>)
    requires Terminated(s) && p < |s| && obj.nodes.Items?
    ensures r.Some? ==> Kept(s, p, r.value) && Inside(r.value)
    decreases |s| - p, 4
  {
    if s[p] == NUL then Some(Parsed(s, obj, At(p), InvalidValue))
    else
      var q := Trim(s, p, false);
      var c := s[q];
      if (c == '}' && brace) || (c == ']' && bracket) || c == NUL then Some(Parsed(s, obj, At(q), NoError))
      else if (c == ']' && brace) || (c == '}' && bracket) then Some(Parsed(s, obj, At(q), InvalidValue))
      else
        match MemberValue(s, q, bracket)
        case None => None
        case Some((v, bracket')) => AfterMember(s, p, v, obj, brace, bracket')
  }

  /**
   * The member that starts at `q` (not a closer): a `[` starts an unnamed value and sets
   * `starts_with_bracket`; otherwise the name and assignment, then the value one past
   * them.  The result carries the value (or the name's error) and the new flag.
   */
  function MemberValue(s: seq<char>, q: nat, bracket: bool): (r: Option<(Parsed, bool)>)
    requires Terminated(s) && q < |s| && s[q] != NUL
    ensures r.Some? ==> Kept(s, q, r.value.0) && (r.value.0.at.At? ==> r.value.0.at.pos > q)
    ensures r.Some? ==> r.value.1 == (bracket || s[q] == '[')
    decreases |s| - q, 3
  {
    if s[q] == '[' then
      match Value(s, q, Zero)
      case None => None
      case Some(v) => Some((v, true))
    else
      match NamedValue(s, q)
      case None => None
      case Some(v) => Some((v, bracket))
  }

  /** A member that does not start with `[`: its name and assignment, then its value one past them. */
  function NamedValue(s: seq<char>, q: nat): (r: Option<Parsed>)
    requires Terminated(s) && q < |s| && s[q] != NUL
    ensures r.Some? ==> Kept(s, q + 1, r.value)
    decreases |s| - q, 2
  {
    match MemberHead(s, q)
    case None => None
    case Some(h) => HeadValue(s, q, h)
  }

  /**
   * What follows the head `h` of a member that began at `q`: the head's error, or the
   * value parsed from past the blanks one after the head's cursor.
   */
  function HeadValue(s: seq<char>, q: nat, h: Parsed): (r: Option<Parsed>)
    requires Terminated(s) && q < |s| && Kept(s, q, h) && Inside(h) && h.buf[q] == s[q]
    ensures r.Some? ==> Kept(s, q + 1, r.value)
    decreases |s| - q, 1
  {
    if h.err != NoError then Some(Parsed(h.buf, h.node, Null, h.err))
    else if h.at.pos + 1 >= |s| then None
    else Value(h.buf, Trim(h.buf, h.at.pos + 1, false), h.node)
  }

  /**
   * After a member's value `v` (parsed in the iteration that began at `p`): give up on
   * an error, otherwise append the member, read its delimiter, and either stop or go
   * round the loop again.
   */
  function AfterMember(s: seq<char>, p: nat, v: Parsed, obj: Node, brace: bool, bracket: bool): (r: Option<Parsed>)
    requires Terminated(s) && p < |s| && obj.nodes.Items? && Kept(s, p, v) && (v.at.At? ==> v.at.pos > p)
    ensures r.Some? ==> Kept(s, p, r.value) && Inside(r.value)
    decreases |s| - p, 1
  {
    if v.err != NoError then Some(Parsed(v.buf, obj, Null, v.err))
    else
      var o := obj.(nodes := Items(obj.nodes.elems + [v.node]));
      match Delimit(v.buf, v.at.pos, o, brace, bracket)
      case None => None
      case Some(Stop(d)) => Some(d)
      case Some(More(o2, q)) => MemberLoop(v.buf, q, o2, brace, bracket)
  }

  /** Where the member loop goes after a delimiter: it returns `r`, or carries on at `at` with `node`. */
  datatype Step = Stop(r: Parsed) | More(node: Node, at: nat)

  /**
   * The delimiter after a member that ended at `e`: blanks (newlines excepted) are
   * skipped; a newline, `|`, `,` or the terminator sets the last member's delimiter
   * style (a terminator returns at once); blanks are skipped again, and a terminator or
   * closer ends the loop, INVALID_VALUE when the closer does not match the opener.
   */
  function Delimit(s: seq<char>, e: nat, obj: Node, brace: bool, bracket: bool): (r: Option<Step>)
    requires Terminated(s) && e <= |s| && obj.nodes.Items? && |obj.nodes.elems| > 0
    ensures r.Some? ==> match r.value
      case Stop(d) => Kept(s, e, d) && Inside(d) && d.buf == s
      case More(n, q) => e <= q < |s| && n.nodes.Items?
  {
    if e >= |s| then None
    else
      var t := Trim(s, e, true);
      var kids := obj.nodes.elems;
      var last := kids[|kids| - 1];
      if IsDelimChar(s[t]) then
        var n :=
          if s[t] == '\n' then last.(delimStyle := Newline)
          else if s[t] == '|' then last.(delimStyle := DelimLine, delimLineWidth := ToU8(t - e))
          else last.(delimStyle := Comma);
        var o := obj.(nodes := Items(kids[..|kids| - 1] + [n]));
        if s[t] == NUL then Some(Stop(Parsed(s, o, At(t), NoError)))
        else Some(Closing(s, e, Trim(s, t + 1, false), o, brace, bracket))
      else Some(Closing(s, e, Trim(s, t, false), obj, brace, bracket))
  }

  /** The closer test at `u`, after the delimiter. */
  function Closing(s: seq<char>, e: nat, u: nat, obj: Node, brace: bool, bracket: bool): (r: Step)
    requires Terminated(s) && e <= u < |s| && obj.nodes.Items?
    ensures match r
      case Stop(d) => Kept(s, e, d) && Inside(d) && d.buf == s
      case More(n, q) => e <= q < |s| && n.nodes.Items?
  {
    if s[u] == NUL then Stop(Parsed(s, obj, At(u), NoError))
    else if s[u] == '}' || s[u] == ']' then
      if (brace && s[u] != '}') || (bracket && s[u] != ']') then Stop(Parsed(s, obj, Null, InvalidValue))
      else Stop(Parsed(s, obj, At(u), NoError))
    else More(obj, u)
  }

  /**
   * The member's name and assignment, at `q`: a quoted name runs to the first matching
   * quote that is not an escaped control character, an unquoted one over letters, digits
   * and `_`; in both a terminator ends the name.  Then blanks, whose count is the
   * assignment width, and the assignment character; the name is then validated.  A
   * member that starts with anything else has no name and no assignment.  The cursor
   * returned is the one the value is parsed one past.
   */
  function MemberHead(s: seq<char>, q: nat): (r: Option<Parsed>)
    requires Terminated(s) && q < |s| && s[q] != NUL
    ensures r.Some? ==> Kept(s, q, r.value) && Inside(r.value) && r.value.buf[q] == s[q]
  {
    if s[q] == '"' || s[q] == '\'' then
      var e := ControlSkip(s, q + 1, s[q]);
      var t := s[e := NUL];
      if e + 1 >= |s| then None
      else
        var node := Zero.(name := Some(CStr(t, q + 1)), nameStyle := if s[q] == '"' then DoubleQuote else SingleQuote);
        Assign(t, q + 1, e + 1, node)
    else if IsAlpha(s[q]) || s[q] == '_' || s[q] == '$' then
      var e := NameEnd(s, q + 1);
      Assign(s, q, e, Zero.(nameStyle := NoQuotes))
    else Some(Parsed(s, Zero, At(q), NoError))
  }

  /**
   * The assignment after a name that began at `b` and ended at `e`: its width, its
   * style or INVALID_NAME, the terminator after an unquoted name, and the name check.
   */
  function Assign(s: seq<char>, b: nat, e: nat, node: Node): (r: Option<Parsed>)
    requires Terminated(s) && b <= e < |s|
    ensures r.Some? ==> Kept(s, e, r.value) && Inside(r.value)
  {
    var p := Trim(s, e, false);
    var n := node.(assignLineWidth := ToU8(p - e));
    if s[p] != NUL && !IsAssignChar(s[p]) then Some(Parsed(s, n, Null, InvalidName))
    else
      var n1 := n.(assignStyle := if s[p] == '=' then Equals else if s[p] == '|' then AssignLine else Colon);
      NameEnded(s, b, e, p, n1)
  }

  /** The terminator written after an unquoted name, and zpl__json_validate_name on the name. */
  function NameEnded(s: seq<char>, b: nat, e: nat, p: nat, n: Node): (r: Option<Parsed>)
    requires Terminated(s) && b <= e <= p < |s|
    ensures r.Some? ==> Kept(s, e, r.value) && Inside(r.value)
  {
    var t := if n.nameStyle == NoQuotes && s[e] != NUL then s[e := NUL] else s;
    var n2 := if n.nameStyle == NoQuotes then n.(name := Some(CStr(t, b))) else n;
    match ValidateName(t, b)
    case None => None
    case Some(ok) => Some(Parsed(t, n2, if ok then At(p) else Null, if ok then NoError else InvalidName))
  }

  // ---------------------------------------------------------------------------
  // zpl_json_parse, after the comments are stripped

  /** The parsed document: the root node and the error code. */
  datatype Document = Document(buf: seq<char>, root: Node, err: Error)

  /**
   * The document shape: after leading blanks, `[` starts an array document, `{` an
   * object document, anything else a configuration-style (cfg_mode) document parsed as
   * the members of an object.  When the root, once parsed, is not in cfg_mode and the
   * parse returned NULL, the error is INVALID_VALUE.
   */
  function ParseDocument(s: seq<char>): (r: Option<Document>)
    requires Terminated(s)
    ensures r.Some? ==> |r.value.buf| == |s| && Terminated(r.value.buf)
    ensures r.Some? ==> forall i :: 0 <= i < |s| ==> r.value.buf[i] == s[i] || r.value.buf[i] == NUL
  {
    var q := Trim(s, 0, false);
    var cfg := s[q] != '{' && s[q] != '[';
    var root := Zero.(cfgMode := cfg);
    var a := if s[q] == '[' then Elements(s, q + 1, root) else Members(s, q, root);
    match a
    case None => None
    case Some(x) => Some(Document(x.buf, x.node, if !x.node.cfgMode && x.at.Null? then InvalidValue else x.err))
  }
}
