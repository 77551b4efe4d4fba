/** Posture expressions: PostureNode, its validating encoder and its permissive decoder. */
module Posture {
  import opened GoBase
  import opened Json

  /**
   * PostureNode. A nil slice and an empty one are the same here, as they are to the encoder.
   * The condition's value is None for a nil any; Some(JNull) is a non-nil any that encodes as null.
   */
  datatype Node = Node(andNodes: seq<Node>, orNodes: seq<Node>, notNode: Option<Node>,
                       field: bytes, op: bytes, value: Option<Value>, rows: bytes)

  const ZERO: Node := Node([], [], None, "", "", None, "")

  function PostureAnd(children: seq<Node>): Node { ZERO.(andNodes := children) }
  function PostureOr(children: seq<Node>): Node { ZERO.(orNodes := children) }
  function PostureNot(child: Node): Node { ZERO.(notNode := Some(child)) }
  function PostureCheck(field: bytes, op: bytes, value: Option<Value>): Node {
    ZERO.(field := field, op := op, value := value)
  }

  function WithRows(n: Node, rows: bytes): Node { n.(rows := rows) }

  datatype ShapeError = NeedsFieldAndOperator | ShapeCount(n: nat) | RowsOffLeaf | RowsOnFirezone

  const FIREZONE: bytes := "firezone."

  function Count(b: bool): nat { if b then 1 else 0 }

  function Shapes(n: Node): nat {
    Count(n.andNodes != []) + Count(n.orNodes != []) + Count(n.notNode.Some?) + Count(n.field != "" || n.op != "")
  }

  /** The node's own fault, children aside, in the order MarshalJSON looks for one. */
  function Fault(n: Node): Option<ShapeError> {
    if (n.field == "") != (n.op == "") then Some(NeedsFieldAndOperator)
    else if Shapes(n) != 1 then Some(ShapeCount(Shapes(n)))
    else if n.rows != "" && n.field == "" then Some(RowsOffLeaf)
    else if n.rows != "" && FIREZONE <= n.field then Some(RowsOnFirezone)
    else None
  }

  /** The members of a node's object: every field that is not empty, in the order of postureWire. */
  function Members(n: Node, ands: seq<Value>, ors: seq<Value>, neg: Option<Value>): seq<Member> {
    (if ands != [] then [Member("and", JArray(ands))] else []) +
    (if ors != [] then [Member("or", JArray(ors))] else []) +
    (if neg.Some? then [Member("not", neg.value)] else []) +
    (if n.field != "" then [Member("field", JString(n.field))] else []) +
    (if n.op != "" then [Member("op", JString(n.op))] else []) +
    (if n.rows != "" then [Member("rows", JString(n.rows))] else []) +
    (if n.value.Some? then [Member("value", n.value.value)] else [])
  }

  /** What MarshalJSON produces, as a JSON value. */
  function Encode(n: Node): Result<Value, ShapeError>
    decreases n, 1
  {
    if Fault(n).Some? then Err(Fault(n).value)
    else match EncodeAll(n.andNodes)
      case Err(e) => Err(e)
      case Ok(ands) =>
        match EncodeAll(n.orNodes)
        case Err(e) => Err(e)
        case Ok(ors) =>
          match EncodeChild(n.notNode)
          case Err(e) => Err(e)
          case Ok(neg) => Ok(JObject(Members(n, ands, ors, neg)))
  }

  function EncodeAll(ns: seq<Node>): (r: Result<seq<Value>, ShapeError>)
    ensures r.Ok? ==> |r.value| == |ns| && forall i :: 0 <= i < |ns| ==> Encode(ns[i]) == Ok(r.value[i])
    ensures r.Err? ==> exists i :: 0 <= i < |ns| && Encode(ns[i]).Err?
    decreases ns, 0
  {
    if ns == [] then Ok([])
    else
      var init := EncodeAll(ns[..|ns| - 1]);
      if init.Err? then Err(init.error)
      else
        var last := Encode(ns[|ns| - 1]);
        if last.Err? then Err(last.error) else Ok(init.value + [last.value])
  }

  function EncodeChild(n: Option<Node>): Result<Option<Value>, ShapeError>
    decreases n, 2
  {
    match n
    case None => Ok(None)
    case Some(child) => match Encode(child) case Ok(v) => Ok(Some(v)) case Err(e) => Err(e)
  }

  /** MarshalJSON: it counts shapes, checks rows, and lets json.Marshal recurse into the children. */
  method MarshalJSON(n: Node) returns (r: Result<Value, ShapeError>)
    ensures r == Encode(n)
    decreases n, 1
  {
    var shapes := 0;
    if |n.andNodes| > 0 { shapes := shapes + 1; }
    if |n.orNodes| > 0 { shapes := shapes + 1; }
    if n.notNode.Some? { shapes := shapes + 1; }
    if n.field != "" || n.op != "" {
      shapes := shapes + 1;
      if n.field == "" || n.op == "" { return Err(NeedsFieldAndOperator); }
    }
    if shapes != 1 { return Err(ShapeCount(shapes)); }
    if n.rows != "" && n.field == "" { return Err(RowsOffLeaf); }
    if n.rows != "" && FIREZONE <= n.field { return Err(RowsOnFirezone); }
    var ands := MarshalAll(n.andNodes);
    if ands.Err? { return Err(ands.error); }
    var ors := MarshalAll(n.orNodes);
    if ors.Err? { return Err(ors.error); }
    var neg: Option<Value> := None;
    if n.notNode.Some? {
      var child := MarshalJSON(n.notNode.value);
      if child.Err? { return Err(child.error); }
      neg := Some(child.value);
    }
    r := Ok(JObject(Members(n, ands.value, ors.value, neg)));
  }

  lemma {:induction false} EncodeAllStops(ns: seq<Node>, i: nat)
    requires i < |ns| && EncodeAll(ns[..i]).Ok? && Encode(ns[i]).Err?
    ensures EncodeAll(ns) == Err(Encode(ns[i]).error)
  {
    if i < |ns| - 1 {
      assert ns[..|ns| - 1][..i] == ns[..i];
      EncodeAllStops(ns[..|ns| - 1], i);
    }
  }

  method MarshalAll(ns: seq<Node>) returns (r: Result<seq<Value>, ShapeError>)
    ensures r == EncodeAll(ns)
    decreases ns, 0
  {
    var items := [];
    for i := 0 to |ns|
      invariant EncodeAll(ns[..i]) == Ok(items)
    {
      assert ns[..i + 1][..i] == ns[..i];
      var item := MarshalJSON(ns[i]);
      if item.Err? {
        EncodeAllStops(ns, i);
        return Err(item.error);
      }
      items := items + [item.value];
    }
    assert ns[..|ns|] == ns;
    r := Ok(items);
  }

  // ----- decoding

  /** What json.Unmarshal makes of a value for a PostureNode. None stands for its error. */
  function Decode(v: Value): Option<Node>
    decreases v, 0
  {
    match v
    case JNull => Some(ZERO)
    case JObject(members) => DecodeMembers(members, ZERO)
    case _ => None
  }

  /** The members are applied one after the other; a later one of the same key overwrites. */
  function DecodeMembers(members: seq<Member>, w: Node): Option<Node>
    decreases members, 1
  {
    if members == [] then Some(w)
    else
      var w' := SetKey(w, members[0]);
      if w'.None? then None else DecodeMembers(members[1..], w'.value)
  }

  /** A null leaves a string alone but empties a list, a child or an any; unknown keys are ignored. */
  function SetKey(w: Node, m: Member): Option<Node>
    decreases m, 1
  {
    if m.key == "and" || m.key == "or" then
      var items := DecodeList(m.value);
      if items.None? then None
      else Some(if m.key == "and" then w.(andNodes := items.value) else w.(orNodes := items.value))
    else if m.key == "not" then
      if m.value.JNull? then Some(w.(notNode := None))
      else
        var child := Decode(m.value);
        if child.None? then None else Some(w.(notNode := child))
    else if m.key == "value" then
      Some(w.(value := if m.value.JNull? then None else Some(m.value)))
    else if m.key == "field" || m.key == "op" || m.key == "rows" then
      if m.value.JNull? then Some(w)
      else if !m.value.JString? then None
      else if m.key == "field" then Some(w.(field := m.value.s))
      else if m.key == "op" then Some(w.(op := m.value.s))
      else Some(w.(rows := m.value.s))
    else Some(w)
  }

  function DecodeList(v: Value): Option<seq<Node>>
    decreases v, 1
  {
    match v
    case JNull => Some([])
    case JArray(items) => DecodeAll(items)
    case _ => None
  }

  function DecodeAll(items: seq<Value>): (r: Option<seq<Node>>)
    decreases items, 0
  {
    if items == [] then Some([])
    else
      var first, rest := Decode(items[0]), DecodeAll(items[1..]);
      if first.None? || rest.None? then None else Some([first.value] + rest.value)
  }

  /** A variable holding a node, for UnmarshalJSON to overwrite. */
  class NodeVar {
    var node: Node

    constructor (n: Node)
      ensures node == n
    {
      node := n;
    }

    /** UnmarshalJSON: the receiver is overwritten as a whole, or on an error not at all. */
    method UnmarshalJSON(data: seq<Token>) returns (ok: bool)
      modifies this
      ensures ok <==> Parse(data).Some? && Decode(Parse(data).value).Some?
      ensures node == if ok then Decode(Parse(data).value).value else old(node)
    {
      var v := Parse(data);
      if v.None? { return false; }
      var n := Decode(v.value);
      if n.None? { return false; }
      node := n.value;
      ok := true;
    }
  }
}
