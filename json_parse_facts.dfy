/**
 * Properties of the parser of json.c, stated on the functions of JsonParse: what the
 * container parsers change in the node they fill, what a document's root looks like,
 * and how single values are read.
 */
module JsonParseFacts {
  import opened Wrappers
  import opened ZplLib
  import opened JsonLex
  import opened JsonNode
  import opened NumberLexer
  import opened JsonParse

  /** `b` is `a` with (at most) its child array replaced, by an allocated one. */
  predicate ChildrenOnly(a: Node, b: Node)
  {
    b.nodes.Items? && b == a.(nodes := b.nodes)
  }

  // ---------------------------------------------------------------------------
  // zpl__json_parse_array and zpl__json_parse_object change only the children

  /** The array loop changes nothing in its node but the children. */
  lemma {:induction false} ElementLoopChildrenOnly(s: seq<char>, p: nat, obj: Node)
    requires Terminated(s) && p < |s| && obj.nodes.Items? && ElementLoop(s, p, obj).Some?
    ensures ChildrenOnly(obj, ElementLoop(s, p, obj).value.node)
    decreases |s| - p, 3
  {
    if s[p] != NUL {
      var q := Trim(s, p, false);
      if s[q] != ']' {
        AfterElementChildrenOnly(s, p, Value(s, q, Zero).value, obj);
      }
    }
  }

  lemma {:induction false} AfterElementChildrenOnly(s: seq<char>, p: nat, v: Parsed, obj: Node)
    requires Terminated(s) && p < |s| && obj.nodes.Items? && Kept(s, p, v) && AfterElement(s, p, v, obj).Some?
    ensures ChildrenOnly(obj, AfterElement(s, p, v, obj).value.node)
    decreases |s| - p, 1
  {
    if v.err == NoError && v.at.pos < |s| {
      var o := obj.(nodes := Items(obj.nodes.elems + [v.node]));
      var t := Trim(v.buf, v.at.pos, false);
      if v.buf[t] == ',' {
        CommaChildrenOnly(s, p, v, obj, o, t);
      } else {
        AfterNoComma(s, p, v, obj, o, t);
      }
    }
  }

  lemma {:induction false} CommaChildrenOnly(s: seq<char>, p: nat, v: Parsed, obj: Node, o: Node, t: nat)
    requires Terminated(s) && p < |s| && obj.nodes.Items? && Kept(s, p, v) && AfterElement(s, p, v, obj).Some?
    requires v.err == NoError && v.at.pos < |s| && o == obj.(nodes := Items(obj.nodes.elems + [v.node]))
    requires t == Trim(v.buf, v.at.pos, false) && v.buf[t] == ','
    ensures ChildrenOnly(obj, AfterElement(s, p, v, obj).value.node)
    decreases |s| - p, 0
  {
    var r := ElementLoop(v.buf, t + 1, o);
    AfterComma(s, p, v, obj, o, t, r);
    ElementLoopChildrenOnly(v.buf, t + 1, o);
    ChildrenOnlyThrough(obj, o, r.value.node);
  }

  /** After an element and a `,`, the array loop goes round again. */
  lemma AfterComma(s: seq<char>, p: nat, v: Parsed, obj: Node, o: Node, t: nat, r: Option<Parsed>)
    requires Terminated(s) && p < |s| && obj.nodes.Items? && Kept(s, p, v)
    requires v.err == NoError && v.at.pos < |s| && o == obj.(nodes := Items(obj.nodes.elems + [v.node]))
    requires t == Trim(v.buf, v.at.pos, false) && v.buf[t] == ',' && t + 1 < |v.buf|
    requires r == ElementLoop(v.buf, t + 1, o)
    ensures AfterElement(s, p, v, obj) == r
  {
  }

  /**
   * After an element and anything but a `,`, the array loop stops with the element
   * appended: at a `]` without an error, at anything else (the end of the input
   * included) with INVALID_VALUE.
   */
  lemma AfterNoComma(s: seq<char>, p: nat, v: Parsed, obj: Node, o: Node, t: nat)
    requires Terminated(s) && p < |s| && obj.nodes.Items? && Kept(s, p, v)
    requires v.err == NoError && v.at.pos < |s| && o == obj.(nodes := Items(obj.nodes.elems + [v.node]))
    requires t == Trim(v.buf, v.at.pos, false) && v.buf[t] != ','
    ensures AfterElement(s, p, v, obj) ==
      Some(Parsed(v.buf, o, At(t), if v.buf[t] == ']' then NoError else InvalidValue))
  {
  }

  /** An element that failed ends the array loop with its error and a NULL result. */
  lemma AfterElementError(s: seq<char>, p: nat, v: Parsed, obj: Node)
    requires Terminated(s) && p < |s| && obj.nodes.Items? && Kept(s, p, v) && v.err != NoError
    ensures AfterElement(s, p, v, obj) == Some(Parsed(v.buf, obj, Null, v.err))
  {
  }

  /** The end of the input where an element or `]` is due is INVALID_VALUE. */
  lemma ElementLoopAtEnd(s: seq<char>, p: nat, obj: Node)
    requires Terminated(s) && p < |s| && obj.nodes.Items? && s[p] == NUL
    ensures ElementLoop(s, p, obj) == Some(Parsed(s, obj, At(p), InvalidValue))
  {
  }

  /**
   * The loop's head test: a `]` (after blanks) ends the array with no error and appends
   * nothing, so a trailing comma as in `[1, ]` is accepted before any value is parsed.
   */
  lemma ElementLoopCloser(s: seq<char>, p: nat, obj: Node)
    requires Terminated(s) && p < |s| && obj.nodes.Items? && s[p] != NUL
    requires s[Trim(s, p, false)] == ']'
    ensures ElementLoop(s, p, obj) == Some(Parsed(s, obj, At(Trim(s, p, false)), NoError))
  {
  }

  /**
   * An empty slot, as in `[1, , 2]`: the value dispatch at the `,` parses no value, so a
   * zeroed element is appended and the loop goes round again after that comma.
   */
  lemma ElementLoopEmptySlot(s: seq<char>, p: nat, obj: Node)
    requires Terminated(s) && p < |s| && obj.nodes.Items? && s[p] != NUL
    requires s[Trim(s, p, false)] == ','
    ensures Trim(s, p, false) + 1 < |s|
    ensures ElementLoop(s, p, obj) ==
      ElementLoop(s, Trim(s, p, false) + 1, obj.(nodes := Items(obj.nodes.elems + [Zero])))
  {
    var q := Trim(s, p, false);
    var v := Parsed(s, Zero, At(q), NoError);
    var o := obj.(nodes := Items(obj.nodes.elems + [Zero]));
    UnrecognisedLead(s, q, Zero);
    assert ElementLoop(s, p, obj) == AfterElement(s, p, v, obj);
    TrimBlanks(s, q, 0, false);
    AfterComma(s, p, v, obj, o, q, ElementLoop(s, q + 1, o));
  }

  /** An array with no `]` after its opener never parses without an error. */
  lemma ElementsNeedCloser(s: seq<char>, p: nat, obj: Node)
    requires Terminated(s) && p < |s| && Elements(s, p, obj).Some?
    requires forall i :: p <= i < |s| ==> s[i] != ']'
    ensures Elements(s, p, obj).value.err != NoError
  {
  }

  /** Changing only the children twice changes only the children. */
  lemma ChildrenOnlyThrough(a: Node, o: Node, b: Node)
    requires o == a.(nodes := o.nodes) && ChildrenOnly(o, b)
    ensures ChildrenOnly(a, b)
  {
  }

  /** The object loop changes nothing in its node but the children. */
  lemma {:induction false} MemberLoopChildrenOnly(s: seq<char>, p: nat, obj: Node, brace: bool, bracket: bool)
    requires Terminated(s) && p < |s| && obj.nodes.Items? && MemberLoop(s, p, obj, brace, bracket).Some?
    ensures ChildrenOnly(obj, MemberLoop(s, p, obj, brace, bracket).value.node)
    decreases |s| - p, 4
  {
    if s[p] != NUL {
      var q := Trim(s, p, false);
      var c := s[q];
      if !((c == '}' && brace) || (c == ']' && bracket) || c == NUL) && !((c == ']' && brace) || (c == '}' && bracket)) {
        var m := MemberLoopOn(s, p, obj, brace, bracket, q);
        AfterMemberChildrenOnly(s, p, m.0, obj, brace, m.1);
      }
    }
  }

  /** A member that is not a closer: the object loop goes on after it. */
  lemma MemberLoopOn(s: seq<char>, p: nat, obj: Node, brace: bool, bracket: bool, q: nat) returns (m: (Parsed, bool))
    requires Terminated(s) && p < |s| && obj.nodes.Items? && MemberLoop(s, p, obj, brace, bracket).Some?
    requires s[p] != NUL && q == Trim(s, p, false)
    requires !((s[q] == '}' && brace) || (s[q] == ']' && bracket) || s[q] == NUL)
    requires !((s[q] == ']' && brace) || (s[q] == '}' && bracket))
    ensures Kept(s, p, m.0) && (m.0.at.At? ==> m.0.at.pos > p)
    ensures MemberLoop(s, p, obj, brace, bracket) == AfterMember(s, p, m.0, obj, brace, m.1)
  {
    m := MemberValue(s, q, bracket).value;
  }

  lemma {:induction false} AfterMemberChildrenOnly(s: seq<char>, p: nat, v: Parsed, obj: Node, brace: bool, bracket: bool)
    requires Terminated(s) && p < |s| && obj.nodes.Items? && Kept(s, p, v) && (v.at.At? ==> v.at.pos > p)
    requires AfterMember(s, p, v, obj, brace, bracket).Some?
    ensures ChildrenOnly(obj, AfterMember(s, p, v, obj, brace, bracket).value.node)
    decreases |s| - p, 1
  {
    if v.err == NoError {
      var o := obj.(nodes := Items(obj.nodes.elems + [v.node]));
      DelimitChildrenOnly(v.buf, v.at.pos, o, brace, bracket);
      match Delimit(v.buf, v.at.pos, o, brace, bracket).value
      case Stop(d) =>
      case More(o2, q) =>
        MemberLoopChildrenOnly(v.buf, q, o2, brace, bracket);
    }
  }

  /** The delimiter step changes only the children (the last member's delimiter style). */
  lemma DelimitChildrenOnly(s: seq<char>, e: nat, obj: Node, brace: bool, bracket: bool)
    requires Terminated(s) && e <= |s| && obj.nodes.Items? && |obj.nodes.elems| > 0
    requires Delimit(s, e, obj, brace, bracket).Some?
    ensures match Delimit(s, e, obj, brace, bracket).value
      case Stop(d) => ChildrenOnly(obj, d.node)
      case More(n, _) => ChildrenOnly(obj, n)
  {
  }

  /** zpl__json_parse_array makes its node an Array and changes nothing else but the children. */
  lemma ElementsShape(s: seq<char>, p: nat, obj: Node)
    requires Terminated(s) && p < |s| && Elements(s, p, obj).Some?
    ensures var n := Elements(s, p, obj).value.node;
      n.kind == Array && ChildrenOnly(obj.(kind := Array), n)
  {
    var o := obj.(kind := Array, nodes := Items([]));
    assert Elements(s, p, obj) == ElementLoop(s, p, o);
    ElementLoopChildrenOnly(s, p, o);
  }

  /**
   * zpl__json_parse_object: after blanks, a `{` makes the node an Object, a `[` an Array,
   * anything else leaves the kind; nothing else but the children changes.
   */
  lemma MembersShape(s: seq<char>, p: nat, obj: Node)
    requires Terminated(s) && p < |s| && Members(s, p, obj).Some?
    ensures var q := Trim(s, p, false); var n := Members(s, p, obj).value.node;
      n.kind == (if s[q] == '{' then Object else if s[q] == '[' then Array else obj.kind) &&
      ChildrenOnly(obj.(kind := n.kind), n)
  {
    var q := Trim(s, p, false);
    if s[q] == '{' {
      MembersFrom(s, p, obj, q + 1, Object, true, false);
    } else if s[q] == '[' {
      MembersFrom(s, p, obj, q + 1, Array, false, true);
    } else {
      MembersFrom(s, p, obj, q, obj.kind, false, false);
    }
  }

  /** The member loop that zpl__json_parse_object runs, from `b`, as a node of kind `k`. */
  lemma MembersFrom(s: seq<char>, p: nat, obj: Node, b: nat, k: Kind, brace: bool, bracket: bool)
    requires Terminated(s) && p < |s| && Members(s, p, obj).Some?
    requires var q := Trim(s, p, false);
      (s[q] == '{' ==> b == q + 1 && k == Object && brace && !bracket) &&
      (s[q] == '[' ==> b == q + 1 && k == Array && !brace && bracket) &&
      (s[q] != '{' && s[q] != '[' ==> b == q && k == obj.kind && !brace && !bracket)
    ensures b < |s| && Members(s, p, obj) == MemberLoop(s, b, obj.(kind := k, nodes := Items([])), brace, bracket)
    ensures var n := Members(s, p, obj).value.node; n.kind == k && ChildrenOnly(obj.(kind := k), n)
  {
    var o := obj.(kind := k, nodes := Items([]));
    assert b < |s|;
    MembersIs(s, p, obj, b, k, brace, bracket, o);
    MemberLoopChildrenOnly(s, b, o, brace, bracket);
    ChildrenOnlyThrough(obj.(kind := k), o, Members(s, p, obj).value.node);
  }

  /** zpl__json_parse_object runs its member loop from `b` on the emptied node of kind `k`. */
  lemma MembersIs(s: seq<char>, p: nat, obj: Node, b: nat, k: Kind, brace: bool, bracket: bool, o: Node)
    requires Terminated(s) && p < |s|
    requires var q := Trim(s, p, false);
      (s[q] == '{' ==> b == q + 1 && k == Object && brace && !bracket) &&
      (s[q] == '[' ==> b == q + 1 && k == Array && !brace && bracket) &&
      (s[q] != '{' && s[q] != '[' ==> b == q && k == obj.kind && !brace && !bracket)
    requires o == obj.(kind := k, nodes := Items([])) && b < |s|
    ensures Members(s, p, obj) == MemberLoop(s, b, o, brace, bracket)
  {
  }

  // ---------------------------------------------------------------------------
  // zpl_json_parse

  /**
   * The root of a parsed document: an Array exactly when the document starts with `[`
   * (so the replacement of the root by its first child never happens), an Object
   * otherwise; in cfg_mode exactly when it starts with neither `{` nor `[`; otherwise a
   * zeroed node with a child array.
   */
  lemma DocumentRoot(s: seq<char>)
    requires Terminated(s) && ParseDocument(s).Some?
    ensures var q := Trim(s, 0, false); var root := ParseDocument(s).value.root;
      root.kind == (if s[q] == '[' then Array else Object) &&
      root.cfgMode == (s[q] != '{' && s[q] != '[') &&
      ChildrenOnly(Zero.(kind := root.kind, cfgMode := root.cfgMode), root)
  {
    var q := Trim(s, 0, false);
    var root := Zero.(cfgMode := s[q] != '{' && s[q] != '[');
    if s[q] == '[' {
      ElementsShape(s, q + 1, root);
    } else {
      MembersShape(s, q, root);
    }
  }

  // ---------------------------------------------------------------------------
  // The value dispatch

  /** A character that starts no value leaves the buffer and the node alone and the cursor where it was, with no error. */
  lemma UnrecognisedLead(s: seq<char>, p: nat, obj: Node)
    requires Terminated(s) && p < |s| && !IsQuote(s[p]) && !IsAlpha(s[p]) && !IsDigit(s[p])
    requires s[p] != '+' && s[p] != '-' && s[p] != '.' && s[p] != '[' && s[p] != '{'
    ensures Value(s, p, obj) == Some(Parsed(s, obj, At(p), NoError))
  {
  }

  /** The words zpl__json_parse_value accepts where a letter, or a '-' before a non-digit, starts a value. */
  predicate KnownWord(s: seq<char>, p: nat)
  {
    HasPrefix(s, p, "true") || HasPrefix(s, p, "false") || HasPrefix(s, p, "null") ||
    HasPrefix(s, p, "Infinity") || HasPrefix(s, p, "-Infinity") || HasPrefix(s, p, "NaN") || HasPrefix(s, p, "-NaN")
  }

  /**
   * A word that starts like a keyword but is none of them makes the node a Constant and
   * returns NULL with INVALID_VALUE; a keyword returns no error and the cursor past it.
   */
  lemma UnknownWord(s: seq<char>, p: nat, obj: Node)
    requires Terminated(s) && p + 1 < |s| && (IsAlpha(s[p]) || (s[p] == '-' && !IsDigit(s[p + 1])))
    ensures !KnownWord(s, p) ==> Value(s, p, obj) == Some(Parsed(s, obj.(kind := Constant), Null, InvalidValue))
    ensures KnownWord(s, p) ==>
      Value(s, p, obj).Some? && Value(s, p, obj).value.err == NoError &&
      Value(s, p, obj).value.at.At? && Value(s, p, obj).value.at.pos > p
  {
    assert !IsQuote(s[p]) && s[p] != NUL;
    assert Value(s, p, obj) == Some(Keyword(s, p, obj));
  }

  /**
   * `[` or `{` followed, after blanks, by its own closer is an empty container of that
   * kind whose child array is left as it was; the cursor is one past the closer.
   */
  lemma EmptyContainer(s: seq<char>, p: nat, obj: Node)
    requires Terminated(s) && p + 1 < |s| && (s[p] == '[' || s[p] == '{')
    requires s[Trim(s, p + 1, false)] == if s[p] == '[' then ']' else '}'
    ensures Value(s, p, obj) ==
      Some(Parsed(s, obj.(kind := if s[p] == '[' then Array else Object), At(Trim(s, p + 1, false) + 1), NoError))
  {
  }

  // ---------------------------------------------------------------------------
  // Closers

  /**
   * At the head of a member, a closer of the other kind than the opener (and not
   * also allowed by a `[` member) returns there with INVALID_VALUE.
   */
  lemma MemberLoopWrongCloser(s: seq<char>, p: nat, obj: Node, brace: bool, bracket: bool)
    requires Terminated(s) && p < |s| && obj.nodes.Items? && s[p] != NUL
    requires var c := s[Trim(s, p, false)];
      (c == ']' && brace && !bracket) || (c == '}' && bracket && !brace)
    ensures MemberLoop(s, p, obj, brace, bracket) == Some(Parsed(s, obj, At(Trim(s, p, false)), InvalidValue))
  {
  }

  /** After a member's delimiter, a closer of the wrong kind returns NULL with INVALID_VALUE. */
  lemma WrongCloser(s: seq<char>, e: nat, u: nat, obj: Node, brace: bool, bracket: bool)
    requires Terminated(s) && e <= u < |s| && obj.nodes.Items?
    requires (brace && s[u] == ']') || (bracket && s[u] == '}')
    ensures Closing(s, e, u, obj, brace, bracket) == Stop(Parsed(s, obj, Null, InvalidValue))
  {
  }

  // ---------------------------------------------------------------------------
  // Member heads

  /**
   * The name check after the assignment: only the name changes in the node; an unquoted
   * name is terminated at its end and is the C string from its start, a quoted one
   * leaves the buffer alone; the name is rejected exactly when the result is
   * INVALID_NAME with NULL, and otherwise the cursor is the assignment character.
   */
  lemma NameEndedIs(s: seq<char>, b: nat, e: nat, p: nat, n: Node)
    requires Terminated(s) && b <= e <= p < |s| && NameEnded(s, b, e, p, n).Some?
    ensures var r := NameEnded(s, b, e, p, n).value;
      r.node == n.(name := r.node.name) &&
      (n.nameStyle == NoQuotes ==> r.buf[e] == NUL && r.node.name == Some(CStr(r.buf, b))) &&
      (n.nameStyle != NoQuotes ==> r.buf == s && r.node.name == n.name) &&
      ValidateName(r.buf, b) == Some(r.err == NoError) &&
      (r.err == NoError ==> r.at == At(p)) &&
      (r.err != NoError ==> r.err == InvalidName && r.at.Null?)
  {
  }

  /**
   * A character after the name and its blanks that is neither the terminator nor `:`,
   * `=` or `|` is INVALID_NAME with NULL; the buffer is not written, and the width is
   * the number of blanks, cast to u8.
   */
  lemma AssignBadOperator(s: seq<char>, b: nat, e: nat, node: Node)
    requires Terminated(s) && b <= e < |s| && !IsAssignChar(s[Trim(s, e, false)])
    ensures var p := Trim(s, e, false);
      Assign(s, b, e, node) == Some(Parsed(s, node.(assignLineWidth := ToU8(p - e)), Null, InvalidName))
  {
  }

  /**
   * Otherwise the assignment style is read from that character (`=` Equals, `|` the
   * line style, anything else Colon), the width is the number of blanks, cast to u8,
   * and the name check decides the error.
   */
  lemma AssignIs(s: seq<char>, b: nat, e: nat, node: Node)
    requires Terminated(s) && b <= e < |s| && IsAssignChar(s[Trim(s, e, false)])
    requires Assign(s, b, e, node).Some?
    ensures var p := Trim(s, e, false); var r := Assign(s, b, e, node).value;
      var style := if s[p] == '=' then Equals else if s[p] == '|' then AssignLine else Colon;
      r.node == node.(assignLineWidth := ToU8(p - e), assignStyle := style, name := r.node.name) &&
      (node.nameStyle == NoQuotes ==> r.buf[e] == NUL && r.node.name == Some(CStr(r.buf, b))) &&
      (node.nameStyle != NoQuotes ==> r.buf == s && r.node.name == node.name) &&
      ValidateName(r.buf, b) == Some(r.err == NoError) &&
      (r.err == NoError ==> r.at == At(p)) &&
      (r.err != NoError ==> r.err == InvalidName && r.at.Null?)
  {
    var p := Trim(s, e, false);
    var style := if s[p] == '=' then Equals else if s[p] == '|' then AssignLine else Colon;
    var n1 := node.(assignLineWidth := ToU8(p - e), assignStyle := style);
    assert Assign(s, b, e, node) == NameEnded(s, b, e, p, n1);
    NameEndedIs(s, b, e, p, n1);
  }

  /**
   * A member head's name style comes from its first character: `"` gives the
   * double-quoted style and `'` the single-quoted one, with the name the C string after
   * the quote; a letter, `_` or `$` gives the unquoted style, with the name the C string
   * from that character once the name is accepted.
   */
  lemma MemberHeadNames(s: seq<char>, q: nat)
    requires Terminated(s) && q < |s| && s[q] != NUL && MemberHead(s, q).Some?
    requires s[q] == '"' || s[q] == '\'' || IsAlpha(s[q]) || s[q] == '_' || s[q] == '$'
    ensures var r := MemberHead(s, q).value;
      (s[q] == '"' ==> r.node.nameStyle == DoubleQuote) &&
      (s[q] == '\'' ==> r.node.nameStyle == SingleQuote) &&
      (s[q] == '"' || s[q] == '\'' ==> r.node.name == Some(CStr(r.buf, q + 1))) &&
      (s[q] != '"' && s[q] != '\'' ==> r.node.nameStyle == NoQuotes) &&
      (s[q] != '"' && s[q] != '\'' && r.err == NoError ==> r.node.name == Some(CStr(r.buf, q)))
  {
    if s[q] == '"' || s[q] == '\'' {
      var e := ControlSkip(s, q + 1, s[q]);
      var t := s[e := NUL];
      var node := Zero.(name := Some(CStr(t, q + 1)), nameStyle := if s[q] == '"' then DoubleQuote else SingleQuote);
      HeadAssign(t, q + 1, e + 1, node);
    } else {
      HeadAssign(s, q, NameEnd(s, q + 1), Zero.(nameStyle := NoQuotes));
    }
  }

  /** What a member head keeps of the node it passes to the assignment, whichever way it ends. */
  lemma HeadAssign(s: seq<char>, b: nat, e: nat, node: Node)
    requires Terminated(s) && b <= e < |s| && Assign(s, b, e, node).Some?
    ensures var r := Assign(s, b, e, node).value;
      r.node.nameStyle == node.nameStyle &&
      (node.nameStyle != NoQuotes ==> r.buf == s && r.node.name == node.name) &&
      (node.nameStyle == NoQuotes && r.err == NoError ==> r.node.name == Some(CStr(r.buf, b)))
  {
    if IsAssignChar(s[Trim(s, e, false)]) {
      AssignIs(s, b, e, node);
    } else {
      AssignBadOperator(s, b, e, node);
    }
  }

  /** A member that starts with any other character has no name: the head changes nothing. */
  lemma MemberHeadNameless(s: seq<char>, q: nat)
    requires Terminated(s) && q < |s| && s[q] != NUL
    requires !(s[q] == '"' || s[q] == '\'' || IsAlpha(s[q]) || s[q] == '_' || s[q] == '$')
    ensures MemberHead(s, q) == Some(Parsed(s, Zero, At(q), NoError))
  {
  }
}
