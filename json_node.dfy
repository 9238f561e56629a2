/**
 * The tree json.c builds (zpl_json_object) and its tree utilities: node
 * initialisation, checked insertion and find-by-name.
 *
 * A node is a value.  The C struct's `nodes` pointer becomes `nodes: Children`,
 * where `NullArray` is a NULL array (an empty `{}` or `[]` value never allocates one), and
 * the `name` and `string` pointers become copies of the C strings they point to.
 */
module JsonNode {
  import opened Wrappers
  import opened ZplLib

  datatype Kind = Object | String | MultiString | Array | Integer | Real | Constant
  datatype NameStyle = DoubleQuote | SingleQuote | NoQuotes
  datatype AssignStyle = Colon | Equals | AssignLine
  datatype DelimStyle = Comma | DelimLine | Newline
  datatype Props = NoProps | NaN | NaNNeg | Infinity | InfinityNeg | IsExp | IsHex | IsParsedReal
  datatype ConstValue = ConstFalse | ConstTrue | ConstNull
  datatype Error = NoError | ObjectOrSourceWasNull | InvalidName | InvalidValue

  /** A node's `nodes` pointer: NULL, or a zpl_array of child nodes. */
  datatype Children = NullArray | Items(elems: seq<Node>)

  /**
   * One zpl_json_object.  The floating-point payload `real` is not modelled; the
   * integer side-fields the writer uses to rebuild a real's digits are.
   */
  datatype Node = Node(
    name: Option<string>,
    kind: Kind,
    nameStyle: NameStyle,
    assignStyle: AssignStyle,
    assignLineWidth: U8,
    delimStyle: DelimStyle,
    delimLineWidth: U8,
    cfgMode: bool,
    props: Props,
    nodes: Children,
    text: Option<string>,
    integer: I64,
    constant: ConstValue,
    base: I32,
    base2: I32,
    base2Offset: nat,
    exp: I32,
    expNeg: bool,
    leadDigit: bool)

  /** `zpl_json_object o = {0}`: every field zero, which is the first member of each enumeration. */
  const Zero: Node := Node(None, Object, DoubleQuote, Colon, 0, Comma, 0, false, NoProps,
                           NullArray, None, 0, ConstFalse, 0, 0, 0, 0, false, false)

  predicate IsContainer(k: Kind)
  {
    k == Object || k == Array
  }

  /** zpl_json_init_node: a zeroed node with the name and kind, and an empty child array exactly for containers. */
  function InitNode(name: Option<string>, kind: Kind): (r: Node)
    ensures r.name == name && r.kind == kind
    ensures r.nodes.Items? <==> IsContainer(kind)
    ensures r.nodes.Items? ==> r.nodes.elems == []
    ensures r.nameStyle == DoubleQuote && r.assignStyle == Colon && r.delimStyle == Comma
    ensures r.props == NoProps && !r.cfgMode && r.text.None?
  {
    Zero.(name := name, kind := kind, nodes := if IsContainer(kind) then Items([]) else NullArray)
  }

  /**
   * zpl_json_add_at: insert a fresh node at `index` of a container's children.  `None`
   * for the parent stands for a NULL pointer; a `None` result is the NULL the C returns,
   * with the parent left as it was.  On success the parent's only change is the
   * insertion, and the inserted node is the one the C returns a pointer to.
   */
  function AddAt(obj: Option<Node>, index: int, name: Option<string>, kind: Kind): (r: Option<Node>)
    ensures r.Some? <==>
      obj.Some? && IsContainer(obj.value.kind) && obj.value.nodes.Items? &&
      0 <= index <= |obj.value.nodes.elems|
    ensures r.Some? ==>
      var before := obj.value.nodes.elems;
      r.value.nodes.Items? &&
      var after := r.value.nodes.elems;
      r.value == obj.value.(nodes := Items(after)) &&
      |after| == |before| + 1 &&
      after[index] == InitNode(name, kind) &&
      (forall j :: 0 <= j < index ==> after[j] == before[j]) &&
      (forall j :: index <= j < |before| ==> after[j + 1] == before[j])
  {
    if obj.None? || !IsContainer(obj.value.kind) then None
    else if obj.value.nodes.NullArray? then None
    else
      var kids := obj.value.nodes.elems;
      if index < 0 || index > |kids| then None
      else Some(obj.value.(nodes := Items(kids[..index] + [InitNode(name, kind)] + kids[index..])))
  }

  /** zpl_json_add: the same guards, then insertion after the last child. */
  function Add(obj: Option<Node>, name: Option<string>, kind: Kind): (r: Option<Node>)
    ensures r.Some? <==> obj.Some? && IsContainer(obj.value.kind) && obj.value.nodes.Items?
    ensures r.Some? ==>
      var before := obj.value.nodes.elems;
      r.value.nodes.Items? && r.value.nodes.elems == before + [InitNode(name, kind)] &&
      r.value == obj.value.(nodes := r.value.nodes)
  {
    if obj.None? || !IsContainer(obj.value.kind) then None
    else if obj.value.nodes.NullArray? then None
    else AddAt(obj, |obj.value.nodes.elems|, name, kind)
  }

  // ---------------------------------------------------------------------------
  // Paths: the model's counterpart of a pointer into the tree

  /** Following the child indices of `path` from `n` stays inside child arrays. */
  predicate ValidPath(n: Node, path: seq<nat>)
    decreases |path|
  {
    path == [] ||
    (n.nodes.Items? && path[0] < |n.nodes.elems| && ValidPath(n.nodes.elems[path[0]], path[1..]))
  }

  function NodeAt(n: Node, path: seq<nat>): Node
    requires ValidPath(n, path)
    decreases |path|
  {
    if path == [] then n else NodeAt(n.nodes.elems[path[0]], path[1..])
  }

  /** Every node the path passes through before its end is an Object. */
  predicate ThroughObjects(n: Node, path: seq<nat>)
    requires ValidPath(n, path)
    decreases |path|
  {
    path == [] || (n.kind == Object && ThroughObjects(n.nodes.elems[path[0]], path[1..]))
  }

  // ---------------------------------------------------------------------------
  // zpl_json_find

  /** The index of the first child named `name`, or the child count if there is none. */
  function FirstNamed(kids: seq<Node>, name: string): (i: nat)
    ensures i <= |kids|
    ensures forall j :: 0 <= j < i ==> kids[j].name != Some(name)
    ensures i < |kids| ==> kids[i].name == Some(name)
  {
    if kids == [] then 0
    else if kids[0].name == Some(name) then 0
    else 1 + FirstNamed(kids[1..], name)
  }

  /**
   * What zpl_json_find demands to stay defined: every Object it inspects has a child
   * array (zpl_array_count reads through the pointer), and every child it compares
   * by name has one (strcmp on a NULL name is undefined).
   */
  predicate Searchable(obj: Node, name: string, deep: bool)
    decreases obj, 1, 0
  {
    obj.kind == Object ==>
      obj.nodes.Items? &&
      (forall j :: 0 <= j < FirstNamed(obj.nodes.elems, name) ==> obj.nodes.elems[j].name.Some?) &&
      (deep && FirstNamed(obj.nodes.elems, name) == |obj.nodes.elems| ==> SearchableFrom(obj, 0, name))
  }

  /** The deep loop of zpl_json_find, from child `j` on, inspects only searchable nodes. */
  predicate SearchableFrom(obj: Node, j: nat, name: string)
    requires obj.nodes.Items? && j <= |obj.nodes.elems|
    decreases obj, 0, |obj.nodes.elems| - j
  {
    var kids := obj.nodes.elems;
    j == |kids| ||
    (Searchable(kids[j], name, true) &&
     (Find(kids[j], name, true).None? ==> SearchableFrom(obj, j + 1, name)))
  }

  /**
   * zpl_json_find: the path of the node found, `None` for NULL.  Non-Objects yield
   * `None`; the direct children are scanned first and the first one named `name` wins;
   * otherwise, when `deep`, each child is searched in turn and the first hit is returned.
   */
  function Find(obj: Node, name: string, deep: bool): (r: Option<seq<nat>>)
    requires Searchable(obj, name, deep)
    ensures obj.kind != Object ==> r.None?
    ensures r.Some? ==>
      |r.value| > 0 && ValidPath(obj, r.value) && ThroughObjects(obj, r.value) &&
      NodeAt(obj, r.value).name == Some(name)
    ensures r.Some? && !deep ==> |r.value| == 1
    ensures obj.kind == Object ==>
      ((r.Some? && |r.value| == 1) <==>
       exists j :: 0 <= j < |obj.nodes.elems| && obj.nodes.elems[j].name == Some(name))
    ensures r.Some? && |r.value| == 1 ==>
      forall j :: 0 <= j < r.value[0] ==> obj.nodes.elems[j].name != Some(name)
    ensures r.Some? && |r.value| > 1 ==>
      forall j :: 0 <= j < |obj.nodes.elems| ==> obj.nodes.elems[j].name != Some(name)
    decreases obj, 3, 0
  {
    if obj.kind != Object then None
    else
      var kids := obj.nodes.elems;
      var i := FirstNamed(kids, name);
      if i < |kids| then Some([i])
      else if deep then FindIn(obj, 0, name)
      else None
  }

  /** The deep loop: the first child, from `j` on, whose own search succeeds. */
  function FindIn(obj: Node, j: nat, name: string): (r: Option<seq<nat>>)
    requires obj.kind == Object && obj.nodes.Items? && j <= |obj.nodes.elems|
    requires SearchableFrom(obj, j, name)
    ensures r.Some? ==>
      |r.value| > 1 && j <= r.value[0] && ValidPath(obj, r.value) && ThroughObjects(obj, r.value) &&
      NodeAt(obj, r.value).name == Some(name)
    decreases obj, 2, |obj.nodes.elems| - j
  {
    var kids := obj.nodes.elems;
    if j == |kids| then None
    else
      match Find(kids[j], name, true)
      case Some(path) => Some([j] + path)
      case None => FindIn(obj, j + 1, name)
  }

  // ---------------------------------------------------------------------------
  // Properties of zpl_json_find

  /** The first children, up to the one named, are the same after an append. */
  lemma {:induction false} FirstNamedAppend(kids: seq<Node>, extra: Node, name: string)
    requires FirstNamed(kids, name) == |kids|
    ensures FirstNamed(kids + [extra], name) == if extra.name == Some(name) then |kids| else |kids| + 1
  {
    if kids != [] {
      assert (kids + [extra])[1..] == kids[1..] + [extra];
      FirstNamedAppend(kids[1..], extra, name);
    }
  }

  /** A deep search finds something whenever some node below is reachable through Objects and carries the name. */
  lemma {:induction false} FindComplete(obj: Node, name: string, path: seq<nat>)
    requires Searchable(obj, name, true)
    requires |path| > 0 && ValidPath(obj, path) && ThroughObjects(obj, path)
    requires NodeAt(obj, path).name == Some(name)
    ensures Find(obj, name, true).Some?
    decreases |path|, 1, 0
  {
    var kids := obj.nodes.elems;
    if FirstNamed(kids, name) == |kids| {
      FindInComplete(obj, 0, name, path[0], path[1..]);
    }
  }

  /** The deep loop reaches child `k` unless an earlier child already hit. */
  lemma {:induction false} FindInComplete(obj: Node, j: nat, name: string, k: nat, rest: seq<nat>)
    requires obj.kind == Object && obj.nodes.Items? && j <= k < |obj.nodes.elems|
    requires SearchableFrom(obj, j, name)
    requires |rest| > 0 && ValidPath(obj.nodes.elems[k], rest) && ThroughObjects(obj.nodes.elems[k], rest)
    requires NodeAt(obj.nodes.elems[k], rest).name == Some(name)
    ensures FindIn(obj, j, name).Some?
    decreases |rest| + 1, 0, k - j
  {
    var kids := obj.nodes.elems;
    if Find(kids[j], name, true).None? {
      if j == k {
        FindComplete(kids[k], name, rest);
      } else {
        FindInComplete(obj, j + 1, name, k, rest);
      }
    }
  }

  /**
   * A deep hit below child `i` is the first one in child order: every earlier child's
   * own search fails, and the rest of the path is the one child `i`'s search returns.
   */
  lemma {:induction false} FindFirstHit(obj: Node, name: string, i: nat, path: seq<nat>)
    requires Searchable(obj, name, true)
    requires Find(obj, name, true) == Some([i] + path) && |path| > 0
    ensures i < |obj.nodes.elems|
    ensures forall k :: 0 <= k < i ==>
      Searchable(obj.nodes.elems[k], name, true) && Find(obj.nodes.elems[k], name, true).None?
    ensures Searchable(obj.nodes.elems[i], name, true) && Find(obj.nodes.elems[i], name, true) == Some(path)
  {
    assert ([i] + path)[0] == i;
    FindInFirstHit(obj, 0, name, i, path);
  }

  lemma {:induction false} FindInFirstHit(obj: Node, j: nat, name: string, i: nat, path: seq<nat>)
    requires obj.kind == Object && obj.nodes.Items? && j <= |obj.nodes.elems|
    requires SearchableFrom(obj, j, name)
    requires FindIn(obj, j, name) == Some([i] + path)
    ensures j <= i < |obj.nodes.elems|
    ensures forall k :: j <= k < i ==>
      Searchable(obj.nodes.elems[k], name, true) && Find(obj.nodes.elems[k], name, true).None?
    ensures Searchable(obj.nodes.elems[i], name, true) && Find(obj.nodes.elems[i], name, true) == Some(path)
    decreases |obj.nodes.elems| - j
  {
    var kids := obj.nodes.elems;
    match Find(kids[j], name, true)
    case Some(p) =>
      assert [j] + p == [i] + path;
      assert ([j] + p)[0] == j && ([i] + path)[0] == i;
      assert ([j] + p)[1..] == p && ([i] + path)[1..] == path;
    case None =>
      FindInFirstHit(obj, j + 1, name, i, path);
  }

  /** A child added under a fresh name is found as the last direct child. */
  lemma AddThenFind(obj: Node, name: string, kind: Kind)
    requires obj.kind == Object && obj.nodes.Items?
    requires forall j :: 0 <= j < |obj.nodes.elems| ==>
      obj.nodes.elems[j].name.Some? && obj.nodes.elems[j].name != Some(name)
    ensures Add(Some(obj), Some(name), kind).Some?
    ensures var added := Add(Some(obj), Some(name), kind).value;
      Searchable(added, name, false) &&
      Find(added, name, false) == Some([|obj.nodes.elems|]) &&
      NodeAt(added, [|obj.nodes.elems|]) == InitNode(Some(name), kind)
  {
    var kids := obj.nodes.elems;
    var added := Add(Some(obj), Some(name), kind).value;
    FirstNamedAppend(kids, InitNode(Some(name), kind), name);
    assert NodeAt(added, [|kids|]) == NodeAt(added.nodes.elems[|kids|], []);
  }
}
