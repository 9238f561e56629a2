/**
 * The writer of json.c (zpl_json_write, zpl__json_write_value): it walks the tree and
 * re-emits each node with the formatting it recorded when it was parsed.  The output
 * file is a sink whose text grows; every `zpl_fprintf` appends one formatted piece.
 *
 * The text the writer produces is first defined by functions of the node; the methods
 * of the sink then append exactly that text, call by call, as the C does.
 */
module JsonWriter {
  import opened Wrappers
  import opened ZplLib
  import opened JsonNode

  // ---------------------------------------------------------------------------
  // What the writer reads

  /**
   * What zpl_json_write needs of a node to stay defined: each child has a name (printed
   * with `%s`) and can be written as a value.
   */
  predicate Writable(o: Node)
    decreases o, 1
  {
    o.nodes.Items? ==>
      forall k :: 0 <= k < |o.nodes.elems| ==> o.nodes.elems[k].name.Some? && ValueWritable(o.nodes.elems[k])
  }

  /**
   * What zpl__json_write_value needs: a string has its text, an array has a child array
   * (zpl_array_count reads through the pointer) of writable values, an object is writable.
   */
  predicate ValueWritable(n: Node)
    decreases n, 2
  {
    (n.kind == String || n.kind == MultiString ==> n.text.Some?) &&
    (n.kind == Array ==>
       n.nodes.Items? && forall k :: 0 <= k < |n.nodes.elems| ==> ValueWritable(n.nodes.elems[k])) &&
    (n.kind == Object ==> Writable(n))
  }

  /** The number of children zpl_json_write visits: none for a NULL child array. */
  function Count(o: Node): nat
  {
    if o.nodes.Items? then |o.nodes.elems| else 0
  }

  // ---------------------------------------------------------------------------
  // The text written

  /**
   * zpl_json_write(f, o, indent): `indent - 4` blanks, then `{` and a newline unless the
   * node is in cfg_mode (which writes its members four columns further left instead),
   * the members, blanks, and the closing brace: alone when the indent is positive,
   * with a newline at the top level, and not at all for a cfg_mode top level.
   */
  function ObjectText(o: Node, indent: int, fixed: Node -> string): (t: string)
    requires Writable(o)
    ensures |t| >= Count(o) + if o.cfgMode then 0 else 3
    decreases o, 1
  {
    var ind := Inner(o, indent);
    OpenText(o, indent) + MembersText(o, ind, Count(o), fixed) + CloseText(o, ind)
  }

  /** The indent the members are written at: four columns less in cfg_mode. */
  function Inner(o: Node, indent: int): int
  {
    if o.cfgMode then indent - 4 else indent
  }

  function OpenText(o: Node, indent: int): string
  {
    Spaces(indent - 4) + (if o.cfgMode then "" else "{\n")
  }

  function CloseText(o: Node, ind: int): string
  {
    Spaces(ind) + (if ind > 0 then "}" else if !o.cfgMode then "}\n" else "")
  }

  /** The first `j` members, each written as a named value; the last one is marked as such. */
  function MembersText(o: Node, indent: int, j: nat, fixed: Node -> string): (t: string)
    requires Writable(o) && j <= Count(o)
    ensures |t| >= j
    decreases o, 0, j
  {
    if j == 0 then ""
    else MembersText(o, indent, j - 1, fixed) + ValueText(o.nodes.elems[j - 1], indent, false, j == Count(o), fixed)
  }

  /**
   * zpl__json_write_value(f, n, _, indent, isInline, isLast): at `indent + 4` blanks the
   * name and assignment, then the value, then the delimiter; an inline value (an array
   * element) has neither name, assignment nor delimiter.  `fixed` is the `%f` rendering
   * of a real's floating-point value, which the model does not carry.
   */
  function ValueText(n: Node, indent: int, isInline: bool, isLast: bool, fixed: Node -> string): (t: string)
    requires ValueWritable(n) && (!isInline ==> n.name.Some?)
    ensures !isInline ==> |t| > 0 && t[|t| - 1] == '\n'
    decreases n, 3
  {
    var ind := indent + 4;
    HeadText(n, ind, isInline) + PayloadText(n, ind, fixed) + (if isInline then "" else DelimText(n, isLast))
  }

  /** A member's indentation, name and assignment; nothing for an inline value. */
  function HeadText(n: Node, ind: int, isInline: bool): (t: string)
    requires !isInline ==> n.name.Some?
    ensures isInline <==> t == ""
    ensures !isInline ==> t[|t| - 1] == ' '
  {
    if isInline then "" else Spaces(ind) + NameText(n) + AssignText(n)
  }

  /** The name in its recorded quoting. */
  function NameText(n: Node): (t: string)
    requires n.name.Some?
    ensures var q := if n.nameStyle == NoQuotes then 0 else 1;
      |t| == |n.name.value| + 2 * q && t[q..q + |n.name.value|] == n.name.value
    ensures n.nameStyle != NoQuotes ==>
      t[0] == t[|t| - 1] == (if n.nameStyle == DoubleQuote then '"' else '\'')
  {
    match n.nameStyle
    case DoubleQuote => "\"" + n.name.value + "\""
    case SingleQuote => "'" + n.name.value + "'"
    case NoQuotes => n.name.value
  }

  /** `": "` for a colon; otherwise at least one blank, as many as recorded, then `= ` or `| `. */
  function AssignText(n: Node): (t: string)
    ensures |t| >= 2 && t[|t| - 1] == ' '
    ensures t[|t| - 2] == match n.assignStyle case Colon => ':' case Equals => '=' case AssignLine => '|'
    ensures forall k :: 0 <= k < |t| - 2 ==> t[k] == ' '
    ensures n.assignStyle != Colon ==> |t| - 2 == if n.assignLineWidth as int > 1 then n.assignLineWidth as int else 1
  {
    if n.assignStyle == Colon then ": "
    else (Spaces(if n.assignLineWidth as int > 1 then n.assignLineWidth as int else 1) +
          (if n.assignStyle == Equals then "= " else "| "))
  }

  /** The delimiter: `,` and a newline between comma-style members, a newline after the last. */
  function DelimText(n: Node, isLast: bool): (t: string)
    ensures |t| > 0 && t[|t| - 1] == '\n'
    ensures ',' in t <==> n.delimStyle == Comma && !isLast
    ensures '|' in t <==> n.delimStyle == DelimLine
  {
    match n.delimStyle
    case Comma => if isLast then "\n" else ",\n"
    case Newline => "\n"
    case DelimLine => Spaces(n.delimLineWidth as int) + "|\n"
  }

  /** The value itself, by kind; an object is written by zpl_json_write at the value's indent. */
  function PayloadText(n: Node, ind: int, fixed: Node -> string): (t: string)
    requires ValueWritable(n)
    ensures n.kind == String ==> |t| >= 2 && t[0] == t[|t| - 1] == '"' && t[1..|t| - 1] == n.text.value
    ensures n.kind == MultiString ==> |t| >= 2 && t[0] == t[|t| - 1] == '`' && t[1..|t| - 1] == n.text.value
    ensures n.kind == Array ==> |t| >= 2 && t[0] == '[' && t[|t| - 1] == ']'
    decreases n, 2
  {
    match n.kind
    case String => "\"" + n.text.value + "\""
    case MultiString => "`" + n.text.value + "`"
    case Array => "[" + ElementsText(n, |n.nodes.elems|, fixed) + "]"
    case Integer => IntegerText(n)
    case Real => RealText(n, fixed)
    case Object => ObjectText(n, ind, fixed)
    case Constant => ConstantText(n.constant)
  }

  /**
   * The first `j` elements of an array, inline, each but the last followed by `, `; a
   * container element is written at indent 0, any other at -4.
   */
  function ElementsText(n: Node, j: nat, fixed: Node -> string): (t: string)
    requires ValueWritable(n) && n.kind == Array && j <= |n.nodes.elems|
    ensures 0 < j < |n.nodes.elems| ==> |t| >= 2 && t[|t| - 2..] == ", "
    decreases n, 0, j
  {
    if j == 0 then "" else ElementsText(n, j - 1, fixed) + ElementText(n, j - 1, fixed)
  }

  /** Element `j` and, unless it is the last, the `, ` after it. */
  function ElementText(n: Node, j: nat, fixed: Node -> string): (t: string)
    requires ValueWritable(n) && n.kind == Array && j < |n.nodes.elems|
    ensures j < |n.nodes.elems| - 1 ==> |t| >= 2 && t[|t| - 2..] == ", "
    decreases n, 0, 0
  {
    var e := n.nodes.elems[j];
    ValueText(e, ElementIndent(e), true, true, fixed) + (if j < |n.nodes.elems| - 1 then ", " else "")
  }

  /** The indent an array element is written at. */
  function ElementIndent(e: Node): int
  {
    if e.kind == Object || e.kind == Array then 0 else -4
  }

  /** `0x%llx` for a hex integer, `%lld` otherwise. */
  function IntegerText(n: Node): (t: string)
    ensures |t| > 0 && (IsDigit(t[0]) || t[0] == '-')
    ensures n.props == IsHex <==> |t| >= 2 && t[1] == 'x'
  {
    if n.props == IsHex then "0x" + HexU64(n.integer) else Dec(n.integer)
  }

  /**
   * A real, by its props.  The exponent and parsed-digit forms are the C's
   * `zpl_fprintf` calls as ISO C formats them, arguments as passed: `%0*d` with value 0
   * prints at least one zero, and the leading-digit form receives `base2_offset` as its
   * first `%lld` and `base` through `%0*d` with width 0.
   */
  function RealText(n: Node, fixed: Node -> string): (t: string)
    ensures n.props == IsExp ==> |t| > 0 && (IsDigit(t[0]) || t[0] == '-') && 'e' in t
    ensures n.props == IsParsedReal ==> |t| > 0 && (IsDigit(t[0]) || t[0] == '-' || t[0] == '.') && '.' in t
  {
    match n.props
    case NaN => "NaN"
    case NaNNeg => "-NaN"
    case Infinity => "Infinity"
    case InfinityNeg => "-Infinity"
    case IsExp =>
      Dec(n.base) + "." + ZeroPad(n.base2Offset) + Dec(n.base2) + "e" + (if n.expNeg then "-" else "+") + Dec(n.exp)
    case IsParsedReal =>
      if !n.leadDigit then "." + ZeroPad(n.base2Offset) + Dec(n.base2)
      else Dec(n.base2Offset) + "." + Dec(n.base) + Dec(n.base2)
    case _ => fixed(n)
  }

  function ConstantText(c: ConstValue): (t: string)
    ensures |t| >= 4 && forall k :: 0 <= k < |t| ==> 'a' <= t[k] <= 'z'
    ensures t[0] == match c case ConstTrue => 't' case ConstFalse => 'f' case ConstNull => 'n'
  {
    match c
    case ConstTrue => "true"
    case ConstFalse => "false"
    case ConstNull => "null"
  }

  // ---------------------------------------------------------------------------
  // The layout the writer promises

  /**
   * An object that is not in cfg_mode opens with its indentation (`indent - 4` blanks),
   * `{` and a newline.
   */
  lemma BracedOpening(o: Node, indent: int, fixed: Node -> string)
    requires Writable(o) && !o.cfgMode
    ensures var t := ObjectText(o, indent, fixed); var w := |Spaces(indent - 4)|;
      |t| >= w + 2 && t[..w + 2] == Spaces(indent - 4) + "{\n"
  {
    var rest := MembersText(o, Inner(o, indent), Count(o), fixed) + CloseText(o, Inner(o, indent));
    assert ObjectText(o, indent, fixed) == (Spaces(indent - 4) + "{\n") + rest;
  }

  /**
   * A cfg_mode object at the top level (`indent <= 4`) writes no brace at all: its
   * members, four columns further left, between the two indentations.
   */
  lemma CfgTopLevelUnbraced(o: Node, indent: int, fixed: Node -> string)
    requires Writable(o) && o.cfgMode && indent <= 4
    ensures ObjectText(o, indent, fixed) ==
      Spaces(indent - 4) + MembersText(o, indent - 4, Count(o), fixed) + Spaces(indent - 4)
  {
  }

  /** A named member starts at its own indentation: `indent + 4` blanks. */
  lemma MemberIndent(n: Node, indent: int, isLast: bool, fixed: Node -> string)
    requires ValueWritable(n) && n.name.Some?
    ensures var t := ValueText(n, indent, false, isLast, fixed); var w := |Spaces(indent + 4)|;
      |t| >= w && t[..w] == Spaces(indent + 4)
  {
    var ind := indent + 4;
    var head := NameText(n) + AssignText(n);
    var tail := PayloadText(n, ind, fixed) + DelimText(n, isLast);
    assert HeadText(n, ind, false) == Spaces(ind) + head;
    assert ValueText(n, indent, false, isLast, fixed) == (Spaces(ind) + head) + tail;
    Prefix(Spaces(ind), head, tail);
  }

  /** Regrouping a three-part text keeps its first part as a prefix. */
  lemma Prefix(a: string, b: string, c: string)
    ensures (a + b) + c == a + (b + c) && ((a + b) + c)[..|a|] == a
  {
  }

  /**
   * The last element of an array is its value alone, with no separator after it, so the
   * element list of a non-empty array ends with that value.
   */
  lemma LastElementBare(n: Node, fixed: Node -> string)
    requires ValueWritable(n) && n.kind == Array && |n.nodes.elems| > 0
    ensures var j := |n.nodes.elems| - 1; var e := n.nodes.elems[j];
      ElementText(n, j, fixed) == ValueText(e, ElementIndent(e), true, true, fixed) &&
      ElementsText(n, j + 1, fixed) == ElementsText(n, j, fixed) + ValueText(e, ElementIndent(e), true, true, fixed)
  {
  }

  // ---------------------------------------------------------------------------
  // The output file

  /** The output file: the text written to it so far. */
  class Sink {
    var text: string

    constructor ()
      ensures text == ""
    {
      text := "";
    }

    /** One `zpl_fprintf`. */
    method Append(s: string)
      modifies this
      ensures text == old(text) + s
    {
      text := text + s;
    }
  }

  lemma Assoc2(t: string, a: string, b: string)
    ensures t + (a + b) == t + a + b
  {
  }

  lemma Assoc(t: string, a: string, b: string, c: string)
    ensures t + (a + b + c) == t + a + b + c
  {
  }

  /** `zpl___ind(x)`: one blank per turn of `for (i = 0; i < x; ++i)`. */
  method Indent(f: Sink, x: int)
    modifies f
    ensures f.text == old(f.text) + Spaces(x)
  {
    var i := 0;
    while i < x
      invariant 0 <= i <= (if x > 0 then x else 0) && f.text == old(f.text) + Spaces(i)
      decreases x - i
    {
      assert Spaces(i + 1) == Spaces(i) + " ";
      f.Append(" ");
      i := i + 1;
    }
  }

  /** zpl_json_write: a NULL node writes nothing. */
  method Write(f: Sink, o: Option<Node>, indent: int, fixed: Node -> string)
    requires o.Some? ==> Writable(o.value)
    modifies f
    ensures f.text == old(f.text) + (if o.Some? then ObjectText(o.value, indent, fixed) else "")
  {
    if o.None? {
      return;
    }
    WriteObject(f, o.value, indent, fixed);
  }

  /** zpl_json_write on a node. */
  method WriteObject(f: Sink, o: Node, indent: int, fixed: Node -> string)
    requires Writable(o)
    modifies f
    ensures f.text == old(f.text) + ObjectText(o, indent, fixed)
    decreases o, 1
  {
    ghost var o0 := f.text;
    var ind := WriteOpen(f, o, indent);
    WriteMembers(f, o, ind, fixed);
    WriteClose(f, o, ind);
    Assoc(o0, OpenText(o, indent), MembersText(o, ind, Count(o), fixed), CloseText(o, ind));
  }

  /** The indentation and `{` before the members; the indent they are written at. */
  method WriteOpen(f: Sink, o: Node, indent: int) returns (ind: int)
    modifies f
    ensures ind == Inner(o, indent) && f.text == old(f.text) + OpenText(o, indent)
  {
    ind := indent;
    Indent(f, indent - 4);
    if !o.cfgMode {
      f.Append("{\n");
    } else {
      ind := indent - 4;
    }
  }

  /** The indentation and `}` after the members. */
  method WriteClose(f: Sink, o: Node, ind: int)
    modifies f
    ensures f.text == old(f.text) + CloseText(o, ind)
  {
    Indent(f, ind);
    if ind > 0 {
      f.Append("}");
    } else if !o.cfgMode {
      f.Append("}\n");
    }
  }

  /** The `for` loop over the children of zpl_json_write. */
  method WriteMembers(f: Sink, o: Node, ind: int, fixed: Node -> string)
    requires Writable(o)
    modifies f
    ensures f.text == old(f.text) + MembersText(o, ind, Count(o), fixed)
    decreases o, 0, 1
  {
    ghost var t0 := f.text;
    assert t0 + MembersText(o, ind, 0, fixed) == t0;
    if o.nodes.Items? {
      var cnt := |o.nodes.elems|;
      var i := 0;
      while i < cnt
        invariant 0 <= i <= cnt && f.text == t0 + MembersText(o, ind, i, fixed)
      {
        WriteMember(f, o, ind, i, fixed, t0);
        i := i + 1;
      }
    }
  }

  /** One turn of the loop over the children: member `i`, the last one marked as such. */
  method WriteMember(f: Sink, o: Node, ind: int, i: nat, fixed: Node -> string, ghost t0: string)
    requires Writable(o) && i < Count(o) && f.text == t0 + MembersText(o, ind, i, fixed)
    modifies f
    ensures f.text == t0 + MembersText(o, ind, i + 1, fixed)
    decreases o, 0, 0
  {
    ghost var written := MembersText(o, ind, i, fixed);
    ghost var member := ValueText(o.nodes.elems[i], ind, false, i + 1 == Count(o), fixed);
    WriteValue(f, o.nodes.elems[i], ind, false, !(i < |o.nodes.elems| - 1), fixed);
    assert MembersText(o, ind, i + 1, fixed) == written + member;
    Assoc2(t0, written, member);
  }

  /** zpl__json_write_value. */
  method WriteValue(f: Sink, n: Node, indent: int, isInline: bool, isLast: bool, fixed: Node -> string)
    requires ValueWritable(n) && (!isInline ==> n.name.Some?)
    modifies f
    ensures f.text == old(f.text) + ValueText(n, indent, isInline, isLast, fixed)
    decreases n, 3
  {
    var ind := indent + 4;
    ghost var o := f.text;
    WriteHead(f, n, ind, isInline);
    WritePayload(f, n, ind, fixed);
    WriteEnd(f, n, isInline, isLast);
    Assoc(o, HeadText(n, ind, isInline), PayloadText(n, ind, fixed), if isInline then "" else DelimText(n, isLast));
  }

  /** A member's delimiter; nothing for an inline value. */
  method WriteEnd(f: Sink, n: Node, isInline: bool, isLast: bool)
    modifies f
    ensures f.text == old(f.text) + (if isInline then "" else DelimText(n, isLast))
  {
    if !isInline {
      WriteDelim(f, n, isLast);
    }
  }

  method WriteHead(f: Sink, n: Node, ind: int, isInline: bool)
    requires !isInline ==> n.name.Some?
    modifies f
    ensures f.text == old(f.text) + HeadText(n, ind, isInline)
  {
    if !isInline {
      Indent(f, ind);
      WriteName(f, n);
      WriteAssign(f, n);
    }
  }

  method WriteName(f: Sink, n: Node)
    requires n.name.Some?
    modifies f
    ensures f.text == old(f.text) + NameText(n)
  {
    match n.nameStyle
    case DoubleQuote => f.Append("\"" + n.name.value + "\"");
    case SingleQuote => f.Append("'" + n.name.value + "'");
    case NoQuotes => f.Append(n.name.value);
  }

  method WriteAssign(f: Sink, n: Node)
    modifies f
    ensures f.text == old(f.text) + AssignText(n)
  {
    if n.assignStyle == Colon {
      f.Append(": ");
    } else {
      Indent(f, if n.assignLineWidth as int > 1 then n.assignLineWidth as int else 1);
      if n.assignStyle == Equals {
        f.Append("= ");
      } else if n.assignStyle == AssignLine {
        f.Append("| ");
      }
    }
  }

  method WriteDelim(f: Sink, n: Node, isLast: bool)
    modifies f
    ensures f.text == old(f.text) + DelimText(n, isLast)
  {
    if n.delimStyle != Comma {
      if n.delimStyle == Newline {
        f.Append("\n");
      } else if n.delimStyle == DelimLine {
        Indent(f, n.delimLineWidth as int);
        f.Append("|\n");
      }
    } else {
      if !isLast {
        f.Append(",\n");
      } else {
        f.Append("\n");
      }
    }
  }

  /** The `switch (node->type)` of zpl__json_write_value. */
  method WritePayload(f: Sink, n: Node, ind: int, fixed: Node -> string)
    requires ValueWritable(n)
    modifies f
    ensures f.text == old(f.text) + PayloadText(n, ind, fixed)
    decreases n, 2
  {
    match n.kind
    case String => f.Append("\"" + n.text.value + "\"");
    case MultiString => f.Append("`" + n.text.value + "`");
    case Array => WriteElements(f, n, fixed);
    case Integer =>
      if n.props == IsHex {
        f.Append("0x" + HexU64(n.integer));
      } else {
        f.Append(Dec(n.integer));
      }
    case Real => WriteReal(f, n, fixed);
    case Object => WriteObject(f, n, ind, fixed);
    case Constant =>
      if n.constant == ConstTrue {
        f.Append("true");
      } else if n.constant == ConstFalse {
        f.Append("false");
      } else if n.constant == ConstNull {
        f.Append("null");
      }
  }

  /** An array: `[`, the elements inline with `, ` between them, `]`. */
  method WriteElements(f: Sink, n: Node, fixed: Node -> string)
    requires ValueWritable(n) && n.kind == Array
    modifies f
    ensures f.text == old(f.text) + "[" + ElementsText(n, |n.nodes.elems|, fixed) + "]"
    decreases n, 1
  {
    f.Append("[");
    ghost var head := f.text;
    var elemn := |n.nodes.elems|;
    var j := 0;
    while j < elemn
      invariant 0 <= j <= elemn && f.text == head + ElementsText(n, j, fixed)
    {
      WriteElement(f, n, j, fixed, head);
      j := j + 1;
    }
    f.Append("]");
  }

  /** One turn of the element loop: element `j`, after the `j` already written. */
  method WriteElement(f: Sink, n: Node, j: nat, fixed: Node -> string, ghost t0: string)
    requires ValueWritable(n) && n.kind == Array && j < |n.nodes.elems|
    requires f.text == t0 + ElementsText(n, j, fixed)
    modifies f
    ensures f.text == t0 + ElementsText(n, j + 1, fixed)
    decreases n, 0
  {
    ghost var written := ElementsText(n, j, fixed);
    WriteElementText(f, n, j, fixed);
    Assoc2(t0, written, ElementText(n, j, fixed));
  }

  /** Element `j` and the `, ` after it unless it is the last. */
  method WriteElementText(f: Sink, n: Node, j: nat, fixed: Node -> string)
    requires ValueWritable(n) && n.kind == Array && j < |n.nodes.elems|
    modifies f
    ensures f.text == old(f.text) + ElementText(n, j, fixed)
    decreases n, 0, 0
  {
    ghost var t0 := f.text;
    var e := n.nodes.elems[j];
    ghost var value := ValueText(e, ElementIndent(e), true, true, fixed);
    ghost var sep := if j < |n.nodes.elems| - 1 then ", " else "";
    assert ElementText(n, j, fixed) == value + sep;
    if e.kind == Object || e.kind == Array {
      WriteValue(f, e, 0, true, true, fixed);
    } else {
      WriteValue(f, e, -4, true, true, fixed);
    }
    assert f.text == t0 + value;
    if j < |n.nodes.elems| - 1 {
      f.Append(", ");
    }
    Assoc2(t0, value, sep);
  }

  /** A real, by its props (json.c:353-372). */
  method WriteReal(f: Sink, n: Node, fixed: Node -> string)
    modifies f
    ensures f.text == old(f.text) + RealText(n, fixed)
  {
    if n.props == NaN {
      f.Append("NaN");
    } else if n.props == NaNNeg {
      f.Append("-NaN");
    } else if n.props == Infinity {
      f.Append("Infinity");
    } else if n.props == InfinityNeg {
      f.Append("-Infinity");
    } else if n.props == IsExp {
      f.Append(Dec(n.base) + "." + ZeroPad(n.base2Offset) + Dec(n.base2) + "e" + (if n.expNeg then "-" else "+") + Dec(n.exp));
    } else if n.props == IsParsedReal {
      if !n.leadDigit {
        f.Append("." + ZeroPad(n.base2Offset) + Dec(n.base2));
      } else {
        f.Append(Dec(n.base2Offset) + "." + Dec(n.base) + Dec(n.base2));
      }
    } else {
      f.Append(fixed(n));
    }
  }
}
