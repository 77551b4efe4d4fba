/** What the posture codec guarantees: exactly which trees it accepts, and that they survive the trip. */
module PostureProofs {
  import opened GoBase
  import opened Json
  import opened Posture

  // ----- acceptance

  predicate IsAnd(n: Node) {
    n.andNodes != [] && n == ZERO.(andNodes := n.andNodes, value := n.value)
  }

  predicate IsOr(n: Node) {
    n.orNodes != [] && n == ZERO.(orNodes := n.orNodes, value := n.value)
  }

  predicate IsNot(n: Node) {
    n.notNode.Some? && n == ZERO.(notNode := n.notNode, value := n.value)
  }

  /** A field check: both field and operator, and rows only off the connecting device's own record. */
  predicate IsLeaf(n: Node) {
    && n.field != "" && n.op != ""
    && n == PostureCheck(n.field, n.op, n.value).(rows := n.rows)
    && (n.rows != "" ==> !("firezone." <= n.field))
  }

  predicate OneShape(n: Node) { IsAnd(n) || IsOr(n) || IsNot(n) || IsLeaf(n) }

  lemma FaultlessIffOneShape(n: Node)
    ensures Fault(n).None? <==> OneShape(n)
  {
  }

  /** A way down from a node to one of its children. */
  datatype Turn = IntoAnd(i: nat) | IntoOr(i: nat) | IntoNot

  function Child(n: Node, t: Turn): Option<Node> {
    match t
    case IntoAnd(i) => if i < |n.andNodes| then Some(n.andNodes[i]) else None
    case IntoOr(i) => if i < |n.orNodes| then Some(n.orNodes[i]) else None
    case IntoNot => n.notNode
  }

  /** The node a path leads to, if there is one. */
  function At(n: Node, path: seq<Turn>): Option<Node>
    decreases |path|
  {
    if path == [] then Some(n)
    else match Child(n, path[0]) case None => None case Some(c) => At(c, path[1..])
  }

  ghost predicate EveryNodeOneShape(n: Node) {
    forall path :: At(n, path).Some? ==> OneShape(At(n, path).value)
  }

  lemma ChildrenAccepted(n: Node, t: Turn)
    requires Encode(n).Ok? && Child(n, t).Some?
    ensures Encode(Child(n, t).value).Ok?
  {
  }

  lemma {:induction false} AcceptedIsSound(n: Node, path: seq<Turn>)
    requires Encode(n).Ok? && At(n, path).Some?
    ensures OneShape(At(n, path).value)
    decreases |path|
  {
    if path == [] {
      FaultlessIffOneShape(n);
    } else {
      ChildrenAccepted(n, path[0]);
      AcceptedIsSound(Child(n, path[0]).value, path[1..]);
    }
  }

  lemma ChildInherits(n: Node, t: Turn)
    requires EveryNodeOneShape(n) && Child(n, t).Some?
    ensures EveryNodeOneShape(Child(n, t).value)
  {
    var c := Child(n, t).value;
    forall path | At(c, path).Some? ensures OneShape(At(c, path).value) {
      assert ([t] + path)[1..] == path;
      assert At(n, [t] + path) == At(c, path);
    }
  }

  lemma {:induction false} OneShapeIsAccepted(n: Node)
    requires EveryNodeOneShape(n)
    ensures Encode(n).Ok?
    decreases n
  {
    assert At(n, []) == Some(n);
    FaultlessIffOneShape(n);
    forall i | 0 <= i < |n.andNodes| ensures Encode(n.andNodes[i]).Ok? {
      ChildInherits(n, IntoAnd(i));
      OneShapeIsAccepted(n.andNodes[i]);
    }
    forall i | 0 <= i < |n.orNodes| ensures Encode(n.orNodes[i]).Ok? {
      ChildInherits(n, IntoOr(i));
      OneShapeIsAccepted(n.orNodes[i]);
    }
    if n.notNode.Some? {
      ChildInherits(n, IntoNot);
      OneShapeIsAccepted(n.notNode.value);
    }
  }

  /** A tree is accepted exactly when every node in it, at any depth, is of one shape. */
  lemma AcceptedIffEveryNodeOneShape(n: Node)
    ensures Encode(n).Ok? <==> EveryNodeOneShape(n)
  {
    if Encode(n).Ok? {
      forall path | At(n, path).Some? ensures OneShape(At(n, path).value) {
        AcceptedIsSound(n, path);
      }
    }
    if EveryNodeOneShape(n) {
      OneShapeIsAccepted(n);
    }
  }

  // ----- round trip

  /** The tree with every value that encodes as null taken for no value. */
  function EraseNulls(n: Node): Node
    decreases n, 1
  {
    n.(andNodes := EraseAll(n.andNodes), orNodes := EraseAll(n.orNodes),
       notNode := match n.notNode case None => None case Some(c) => Some(EraseNulls(c)),
       value := if n.value == Some(JNull) then None else n.value)
  }

  function EraseAll(ns: seq<Node>): (r: seq<Node>)
    ensures |r| == |ns|
    decreases ns, 0
  {
    if ns == [] then [] else [EraseNulls(ns[0])] + EraseAll(ns[1..])
  }

  function Then(first: Option<Node>, members: seq<Member>): Option<Node> {
    if first.None? then None else DecodeMembers(members, first.value)
  }

  lemma {:induction false} DecodeAppend(a: seq<Member>, b: seq<Member>, w: Node)
    ensures DecodeMembers(a + b, w) == Then(DecodeMembers(a, w), b)
  {
    if a == [] {
      assert a + b == b;
    } else {
      assert (a + b)[1..] == a[1..] + b;
      var w' := SetKey(w, a[0]);
      if w'.Some? { DecodeAppend(a[1..], b, w'.value); }
    }
  }

  /** Decoding a member that is there only under a condition. */
  lemma DecodePart(present: bool, m: Member, w: Node)
    ensures DecodeMembers(if present then [m] else [], w) == if present then SetKey(w, m) else Some(w)
  {
    if present {
      assert [m][1..] == [];
      var w' := SetKey(w, m);
      if w'.Some? { assert DecodeMembers([], w'.value) == Some(w'.value); }
    }
  }

  function Part(present: bool, m: Member): seq<Member> { if present then [m] else [] }

  lemma DecodeMore(a: seq<Member>, present: bool, m: Member, w: Node)
    requires DecodeMembers(a, ZERO) == Some(w)
    ensures DecodeMembers(a + Part(present, m), ZERO) == if present then SetKey(w, m) else Some(w)
  {
    DecodeAppend(a, Part(present, m), ZERO);
    DecodePart(present, m, w);
  }

  /** The part of a node's members that holds its children. */
  function ChildMembers(ands: seq<Value>, ors: seq<Value>, neg: Option<Value>): seq<Member> {
    Part(ands != [], Member("and", JArray(ands))) +
    Part(ors != [], Member("or", JArray(ors))) +
    Part(neg.Some?, Member("not", if neg.Some? then neg.value else JNull))
  }

  ghost predicate ChildrenDecode(ands: seq<Value>, ors: seq<Value>, neg: Option<Value>, m: Node) {
    && DecodeAll(ands) == Some(m.andNodes) && DecodeAll(ors) == Some(m.orNodes)
    && if neg.None? then m.notNode.None? else !neg.value.JNull? && m.notNode.Some? && Decode(neg.value) == m.notNode
  }

  lemma DecodeOfChildMembers(ands: seq<Value>, ors: seq<Value>, neg: Option<Value>, m: Node)
    requires ChildrenDecode(ands, ors, neg, m)
    ensures DecodeMembers(ChildMembers(ands, ors, neg), ZERO)
            == Some(ZERO.(andNodes := m.andNodes, orNodes := m.orNodes, notNode := m.notNode))
  {
    hide Decode, DecodeMembers;
    var w1 := ZERO.(andNodes := m.andNodes);
    var w2 := w1.(orNodes := m.orNodes);
    var mand, mor := Member("and", JArray(ands)), Member("or", JArray(ors));
    var mnot := Member("not", if neg.Some? then neg.value else JNull);
    DecodePart(ands != [], mand, ZERO);
    assert DecodeMembers(Part(ands != [], mand), ZERO) == Some(w1);
    DecodeMore(Part(ands != [], mand), ors != [], mor, w1);
    DecodeMore(Part(ands != [], mand) + Part(ors != [], mor), neg.Some?, mnot, w2);
  }

  /** Decoding the members of a node: the children as they decode, the value unless it is null. */
  lemma DecodeOfMembers(n: Node, ands: seq<Value>, ors: seq<Value>, neg: Option<Value>, m: Node)
    requires ChildrenDecode(ands, ors, neg, m)
    requires (m.field, m.op, m.rows) == (n.field, n.op, n.rows)
    requires m.value == if n.value == Some(JNull) then None else n.value
    ensures DecodeMembers(Members(n, ands, ors, neg), ZERO) == Some(m)
  {
    hide Decode, DecodeMembers, DecodeAll;
    DecodeOfChildMembers(ands, ors, neg, m);
    var w3 := ZERO.(andNodes := m.andNodes, orNodes := m.orNodes, notNode := m.notNode);
    var w4 := w3.(field := n.field);
    var w5 := w4.(op := n.op);
    var w6 := w5.(rows := n.rows);
    var mfield, mop := Member("field", JString(n.field)), Member("op", JString(n.op));
    var mrows := Member("rows", JString(n.rows));
    var mvalue := Member("value", if n.value.Some? then n.value.value else JNull);
    var p3 := ChildMembers(ands, ors, neg);
    var p4 := p3 + Part(n.field != "", mfield);
    var p5 := p4 + Part(n.op != "", mop);
    var p6 := p5 + Part(n.rows != "", mrows);
    DecodeMore(p3, n.field != "", mfield, w3);
    DecodeMore(p4, n.op != "", mop, w4);
    DecodeMore(p5, n.rows != "", mrows, w5);
    DecodeMore(p6, n.value.Some?, mvalue, w6);
  }

  lemma {:induction false} DecodeOfEncode(n: Node)
    requires Encode(n).Ok?
    ensures Decode(Encode(n).value) == Some(EraseNulls(n)) && Encode(n).value.JObject?
    decreases n, 1
  {
    var ands, ors, neg := EncodeAll(n.andNodes).value, EncodeAll(n.orNodes).value, EncodeChild(n.notNode).value;
    DecodeOfEncodeAll(n.andNodes);
    DecodeOfEncodeAll(n.orNodes);
    if n.notNode.Some? { DecodeOfEncode(n.notNode.value); }
    DecodeOfMembers(n, ands, ors, neg, EraseNulls(n));
  }

  lemma EncodeAllTail(ns: seq<Node>)
    requires ns != [] && EncodeAll(ns).Ok?
    ensures EncodeAll(ns[1..]) == Ok(EncodeAll(ns).value[1..])
  {
    var tail := EncodeAll(ns[1..]);
    assert forall i :: 0 <= i < |ns[1..]| ==> Encode(ns[1..][i]) == Encode(ns[i + 1]);
    assert tail.Ok?;
    assert tail.value == EncodeAll(ns).value[1..];
  }

  lemma {:induction false} DecodeOfEncodeAll(ns: seq<Node>)
    requires EncodeAll(ns).Ok?
    ensures DecodeAll(EncodeAll(ns).value) == Some(EraseAll(ns))
    decreases ns, 0
  {
    var vs := EncodeAll(ns).value;
    if ns != [] {
      DecodeOfEncode(ns[0]);
      EncodeAllTail(ns);
      DecodeOfEncodeAll(ns[1..]);
    }
  }

  /** No value in the tree encodes as null. */
  ghost predicate NullFree(n: Node) {
    forall path :: At(n, path).Some? ==> At(n, path).value.value != Some(JNull)
  }

  lemma EraseAllAt(ns: seq<Node>, i: nat)
    requires i < |ns|
    ensures EraseAll(ns)[i] == EraseNulls(ns[i])
  {
    if i > 0 { EraseAllAt(ns[1..], i - 1); }
  }

  lemma {:induction false} FixedHasNoNull(n: Node, path: seq<Turn>)
    requires EraseNulls(n) == n && At(n, path).Some?
    ensures At(n, path).value.value != Some(JNull)
    decreases |path|
  {
    if path != [] {
      match path[0]
      case IntoAnd(i) => EraseAllAt(n.andNodes, i);
      case IntoOr(i) => EraseAllAt(n.orNodes, i);
      case IntoNot =>
    }
    if path != [] { FixedHasNoNull(Child(n, path[0]).value, path[1..]); }
  }

  lemma NullFreeChild(n: Node, t: Turn)
    requires NullFree(n) && Child(n, t).Some?
    ensures NullFree(Child(n, t).value)
  {
    var c := Child(n, t).value;
    forall path | At(c, path).Some? ensures At(c, path).value.value != Some(JNull) {
      assert ([t] + path)[1..] == path;
      assert At(n, [t] + path) == At(c, path);
    }
  }

  lemma {:induction false} NullFreeIsFixed(n: Node)
    requires NullFree(n)
    ensures EraseNulls(n) == n
    decreases n
  {
    assert At(n, []) == Some(n);
    forall i | 0 <= i < |n.andNodes| ensures EraseAll(n.andNodes)[i] == n.andNodes[i] {
      EraseAllAt(n.andNodes, i);
      NullFreeChild(n, IntoAnd(i));
      NullFreeIsFixed(n.andNodes[i]);
    }
    forall i | 0 <= i < |n.orNodes| ensures EraseAll(n.orNodes)[i] == n.orNodes[i] {
      EraseAllAt(n.orNodes, i);
      NullFreeChild(n, IntoOr(i));
      NullFreeIsFixed(n.orNodes[i]);
    }
    if n.notNode.Some? {
      NullFreeChild(n, IntoNot);
      NullFreeIsFixed(n.notNode.value);
    }
  }

  /** Erasing nulls changes nothing exactly in a tree that has none. */
  lemma EraseIsIdentityIff(n: Node)
    ensures EraseNulls(n) == n <==> NullFree(n)
  {
    if EraseNulls(n) == n {
      forall path | At(n, path).Some? ensures At(n, path).value.value != Some(JNull) {
        FixedHasNoNull(n, path);
      }
    }
    if NullFree(n) {
      NullFreeIsFixed(n);
    }
  }

  /**
   * The round trip: the tokens of every accepted tree parse back to its JSON value and decode to the tree with
   * its nulls erased, which is the tree itself exactly when no value in it encodes as null.
   */
  lemma RoundTrip(n: Node)
    requires Encode(n).Ok?
    ensures Parse(Print(Encode(n).value)) == Some(Encode(n).value)
    ensures Decode(Encode(n).value) == Some(EraseNulls(n))
    ensures Decode(Encode(n).value) == Some(n) <==> NullFree(n)
  {
    ParseInvertsPrint(Encode(n).value);
    DecodeOfEncode(n);
    EraseIsIdentityIff(n);
  }

  /** A check whose value encodes as null, a nil pointer say, comes back as a check without a value. */
  lemma NullValueIsLost(field: bytes, op: bytes)
    requires field != "" && op != ""
    ensures var sent := PostureCheck(field, op, Some(JNull));
            && Encode(sent).Ok?
            && Decode(Encode(sent).value) == Some(PostureCheck(field, op, None))
  {
    var sent := PostureCheck(field, op, Some(JNull));
    FaultlessIffOneShape(sent);
    DecodeOfEncode(sent);
  }

  lemma {:induction false} DecodedIsFixed(v: Value)
    requires Decode(v).Some?
    ensures EraseNulls(Decode(v).value) == Decode(v).value
    decreases v, 0
  {
    if v.JObject? {
      DecodedMembersAreFixed(v.members, ZERO);
    }
  }

  lemma {:induction false} DecodedMembersAreFixed(members: seq<Member>, w: Node)
    requires EraseNulls(w) == w && DecodeMembers(members, w).Some?
    ensures EraseNulls(DecodeMembers(members, w).value) == DecodeMembers(members, w).value
    decreases members, 1
  {
    if members != [] {
      SetKeyIsFixed(w, members[0]);
      DecodedMembersAreFixed(members[1..], SetKey(w, members[0]).value);
    }
  }

  lemma {:induction false} SetKeyIsFixed(w: Node, m: Member)
    requires EraseNulls(w) == w && SetKey(w, m).Some?
    ensures EraseNulls(SetKey(w, m).value) == SetKey(w, m).value
    decreases m, 1
  {
    if (m.key == "and" || m.key == "or") && m.value.JArray? {
      DecodedAllAreFixed(m.value.items);
    } else if m.key == "not" && !m.value.JNull? {
      DecodedIsFixed(m.value);
    }
  }

  lemma {:induction false} DecodedAllAreFixed(items: seq<Value>)
    requires DecodeAll(items).Some?
    ensures EraseAll(DecodeAll(items).value) == DecodeAll(items).value
    decreases items, 0
  {
    if items != [] {
      DecodedIsFixed(items[0]);
      DecodedAllAreFixed(items[1..]);
      assert DecodeAll(items).value[1..] == DecodeAll(items[1..]).value;
    }
  }

  /** A tree read back from the API, if it can be sent again at all, comes back unchanged. */
  lemma ReencodingIsStable(v: Value)
    requires Decode(v).Some? && Encode(Decode(v).value).Ok?
    ensures Decode(Encode(Decode(v).value).value) == Decode(v)
  {
    DecodedIsFixed(v);
    DecodeOfEncode(Decode(v).value);
  }

  lemma EncodeAllOkIff(ns: seq<Node>)
    ensures EncodeAll(ns).Ok? <==> forall i :: 0 <= i < |ns| ==> Encode(ns[i]).Ok?
  {
  }

  /** Each constructor builds an accepted node from accepted children, the list ones unless the list is empty. */
  lemma ConstructorsAccepted(children: seq<Node>, child: Node, field: bytes, op: bytes, value: Option<Value>,
                             rows: bytes)
    ensures Encode(PostureAnd(children)).Ok?
            <==> children != [] && forall i :: 0 <= i < |children| ==> Encode(children[i]).Ok?
    ensures Encode(PostureOr(children)).Ok?
            <==> children != [] && forall i :: 0 <= i < |children| ==> Encode(children[i]).Ok?
    ensures Encode(PostureNot(child)).Ok? <==> Encode(child).Ok?
    ensures Encode(WithRows(PostureCheck(field, op, value), rows)).Ok?
            <==> field != "" && op != "" && (rows != "" ==> !("firezone." <= field))
  {
    EncodeAllOkIff(children);
  }

  /**
   * WithRows, on any node whatever: the node has to be acceptable without rows, and naming rows is for checks alone
   * that are not on the device's own record. So it never goes with an and, an or or a not.
   */
  lemma WithRowsAcceptedIff(n: Node, rows: bytes)
    ensures Encode(WithRows(n, rows)).Ok?
            <==> Encode(WithRows(n, "")).Ok? && (rows == "" || (IsLeaf(WithRows(n, "")) && !("firezone." <= n.field)))
    ensures IsAnd(n) || IsOr(n) || IsNot(n) ==> (Encode(WithRows(n, rows)).Ok? <==> rows == "" && Encode(n).Ok?)
  {
    var with, without := WithRows(n, rows), WithRows(n, "");
    FaultlessIffOneShape(with);
    FaultlessIffOneShape(without);
    if IsAnd(n) || IsOr(n) || IsNot(n) {
      assert without == n;
    }
  }

  // ----- what is sent, and what can be read

  /** The object a check makes: its field and operator, its rows if any, and its value if any. */
  function CheckMembers(field: bytes, op: bytes, rows: bytes, value: Option<Value>): seq<Member> {
    [Member("field", JString(field)), Member("op", JString(op))]
    + (if rows == "" then [] else [Member("rows", JString(rows))])
    + (if value.None? then [] else [Member("value", value.value)])
  }

  /** An and or an or is sent as its own key and nothing else, holding its children's encodings in order. */
  lemma ListsSend(children: seq<Node>)
    requires children != [] && EncodeAll(children).Ok?
    ensures Encode(PostureAnd(children)) == Ok(JObject([Member("and", JArray(EncodeAll(children).value))]))
    ensures Encode(PostureOr(children)) == Ok(JObject([Member("or", JArray(EncodeAll(children).value))]))
  {
    var vs := EncodeAll(children).value;
    assert Members(PostureAnd(children), vs, [], None) == [Member("and", JArray(vs))];
    assert Members(PostureOr(children), [], vs, None) == [Member("or", JArray(vs))];
  }

  lemma NotSends(child: Node)
    requires Encode(child).Ok?
    ensures Encode(PostureNot(child)) == Ok(JObject([Member("not", Encode(child).value)]))
  {
    var v := Encode(child).value;
    assert Members(PostureNot(child), [], [], Some(v)) == [Member("not", v)];
  }

  lemma CheckSends(field: bytes, op: bytes, value: Option<Value>, rows: bytes)
    requires field != "" && op != "" && (rows != "" ==> !("firezone." <= field))
    ensures Encode(WithRows(PostureCheck(field, op, value), rows)) == Ok(JObject(CheckMembers(field, op, rows, value)))
  {
    var n := WithRows(PostureCheck(field, op, value), rows);
    assert Members(n, [], [], None) == CheckMembers(field, op, rows, value);
  }

  /** What each constructor's node is sent as, if it is accepted at all. */
  lemma ConstructorsSend(children: seq<Node>, child: Node, field: bytes, op: bytes, value: Option<Value>, rows: bytes)
    ensures var n := PostureAnd(children);
            Encode(n).Ok? ==>
              && EncodeAll(children).Ok?
              && Encode(n).value == JObject([Member("and", JArray(EncodeAll(children).value))])
    ensures var n := PostureOr(children);
            Encode(n).Ok? ==>
              && EncodeAll(children).Ok?
              && Encode(n).value == JObject([Member("or", JArray(EncodeAll(children).value))])
    ensures var n := PostureNot(child);
            Encode(n).Ok? ==> Encode(child).Ok? && Encode(n).value == JObject([Member("not", Encode(child).value)])
    ensures var n := WithRows(PostureCheck(field, op, value), rows);
            Encode(n).Ok? ==> Encode(n).value == JObject(CheckMembers(field, op, rows, value))
  {
    hide Encode, EncodeAll;
    ConstructorsAccepted(children, child, field, op, value, rows);
    EncodeAllOkIff(children);
    if children != [] && EncodeAll(children).Ok? { ListsSend(children); }
    if Encode(child).Ok? { NotSends(child); }
    if field != "" && op != "" && (rows != "" ==> !("firezone." <= field)) { CheckSends(field, op, value, rows); }
  }

  /** A value of the shapes a node can be read from: null, or an object with every known key of its own type or null. */
  predicate WellTyped(v: Value)
    decreases v, 0
  {
    match v
    case JNull => true
    case JObject(members) => forall i :: 0 <= i < |members| ==> MemberTyped(members[i])
    case _ => false
  }

  predicate MemberTyped(m: Member)
    decreases m, 1
  {
    if m.key in {"and", "or"} then
      match m.value
      case JNull => true
      case JArray(items) => forall i :: 0 <= i < |items| ==> WellTyped(items[i])
      case _ => false
    else if m.key == "not" then WellTyped(m.value)
    else if m.key in {"field", "op", "rows"} then m.value.JNull? || m.value.JString?
    else true
  }

  lemma {:induction false} DecodesIffWellTyped(v: Value)
    ensures Decode(v).Some? <==> WellTyped(v)
    decreases v, 0
  {
    if v.JObject? { MembersDecodeIff(v.members, ZERO); }
  }

  lemma {:induction false} MembersDecodeIff(members: seq<Member>, w: Node)
    ensures DecodeMembers(members, w).Some? <==> forall i :: 0 <= i < |members| ==> MemberTyped(members[i])
    decreases members, 1
  {
    hide MemberTyped;
    if members != [] {
      MemberDecodesIff(members[0], w);
      var rest := members[1..];
      if SetKey(w, members[0]).Some? { MembersDecodeIff(rest, SetKey(w, members[0]).value); }
      assert forall i :: 1 <= i < |members| ==> members[i] == rest[i - 1];
    }
  }

  lemma {:induction false} MemberDecodesIff(m: Member, w: Node)
    ensures SetKey(w, m).Some? <==> MemberTyped(m)
    decreases m, 1
  {
    if m.key in {"and", "or"} && m.value.JArray? {
      ItemsDecodeIff(m.value.items);
    } else if m.key == "not" {
      DecodesIffWellTyped(m.value);
    }
  }

  lemma {:induction false} ItemsDecodeIff(items: seq<Value>)
    ensures DecodeAll(items).Some? <==> forall i :: 0 <= i < |items| ==> WellTyped(items[i])
    decreases items, 0
  {
    hide WellTyped, Decode;
    if items != [] {
      DecodesIffWellTyped(items[0]);
      var rest := items[1..];
      ItemsDecodeIff(rest);
      assert forall i :: 1 <= i < |items| ==> items[i] == rest[i - 1];
    }
  }

  /** A null: for a node, the zero one; for any key, what the key means when it is not there. */
  lemma NullIsAbsence(key: bytes)
    ensures Decode(JNull) == Some(Node([], [], None, "", "", None, ""))
    ensures Decode(JObject([Member(key, JNull)])) == Decode(JObject([])) == Decode(JNull)
  {
    var ms := [Member(key, JNull)];
    assert ms[1..] == [];
    assert SetKey(ZERO, ms[0]) == Some(ZERO);
    assert DecodeMembers(ms, ZERO) == DecodeMembers([], ZERO);
  }
}
