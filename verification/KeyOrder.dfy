/** The keys of a posture object may come in any order: which shape a node has never depends on it. */
module KeyOrder {
  import opened GoBase
  import opened Json
  import opened Posture
  import opened PostureProofs

  predicate KeysDistinct(members: seq<Member>) {
    forall i, k :: 0 <= i < k < |members| ==> members[i].key != members[k].key
  }

  /** The same value but for the order of the members of its objects, at every depth outside leaf values. */
  ghost predicate SameUpToOrder(v: Value, w: Value)
    decreases v, 0
  {
    match v
    case JObject(members) =>
      && w.JObject?
      && exists inner :: Aligned(members, inner) && KeysDistinct(inner) && multiset(inner) == multiset(w.members)
    case JArray(items) =>
      w.JArray? && |items| == |w.items| && forall i :: 0 <= i < |items| ==> SameUpToOrder(items[i], w.items[i])
    case _ => v == w
  }

  /** The same keys in the same order, with values that are the same up to order. */
  ghost predicate Aligned(a: seq<Member>, b: seq<Member>)
    decreases a, 1
  {
    && |a| == |b|
    && forall i :: 0 <= i < |a| ==>
         && a[i].key == b[i].key
         && if a[i].key == "value" then a[i].value == b[i].value else SameUpToOrder(a[i].value, b[i].value)
  }

  /** No object in the value, outside leaf values, has a key twice. */
  predicate KeysDistinctThroughout(v: Value)
    decreases v, 0
  {
    match v
    case JObject(members) => KeysDistinct(members) && MembersDistinctThroughout(members)
    case JArray(items) => forall i :: 0 <= i < |items| ==> KeysDistinctThroughout(items[i])
    case _ => true
  }

  predicate MembersDistinctThroughout(members: seq<Member>)
    decreases members, 1
  {
    forall i :: 0 <= i < |members| ==> members[i].key == "value" || KeysDistinctThroughout(members[i].value)
  }

  lemma {:induction false} SameAsItself(v: Value)
    requires KeysDistinctThroughout(v)
    ensures SameUpToOrder(v, v)
    decreases v, 0
  {
    match v
    case JObject(members) => AlignedWithItself(members);
    case JArray(items) =>
      forall i | 0 <= i < |items| ensures SameUpToOrder(items[i], items[i]) {
        SameAsItself(items[i]);
      }
    case _ =>
  }

  lemma {:induction false} AlignedWithItself(members: seq<Member>)
    requires MembersDistinctThroughout(members)
    ensures Aligned(members, members)
    decreases members, 1
  {
    forall i | 0 <= i < |members| && members[i].key != "value"
      ensures SameUpToOrder(members[i].value, members[i].value)
    {
      SameAsItself(members[i].value);
    }
  }

  /** An object whose members hold values that are the same up to order is the same up to order, at any depth so. */
  lemma ReorderedInsideIsSame(a: seq<Member>, b: seq<Member>)
    requires |a| == |b| && KeysDistinct(b)
    requires forall i :: 0 <= i < |a| ==> a[i].key == b[i].key
    requires forall i :: 0 <= i < |a| ==> a[i] == b[i] || (a[i].key != "value" && SameUpToOrder(a[i].value, b[i].value))
    requires KeysDistinctThroughout(JObject(a))
    ensures SameUpToOrder(JObject(a), JObject(b))
  {
    forall i | 0 <= i < |a| && a[i].key != "value" ensures SameUpToOrder(a[i].value, b[i].value) {
      SameAsItself(a[i].value);
    }
    assert Aligned(a, b);
  }

  /** An object with its members in any other order is the same up to order. */
  lemma PermutedIsSame(a: seq<Member>, b: seq<Member>)
    requires KeysDistinctThroughout(JObject(a)) && multiset(a) == multiset(b)
    ensures SameUpToOrder(JObject(a), JObject(b))
  {
    AlignedWithItself(a);
  }

  lemma DecodeSingle(m: Member, w: Node)
    ensures DecodeMembers([m], w) == SetKey(w, m)
  {
    DecodePart(true, m, w);
  }

  /** Setting two different keys gives the same node, or the same error, either way round. */
  lemma SetKeysCommute(w: Node, a: Member, b: Member)
    requires a.key != b.key
    ensures Then(SetKey(w, a), [b]) == Then(SetKey(w, b), [a])
  {
    hide Decode, DecodeAll;
    DecodeSingle(b, w);
    DecodeSingle(a, w);
    if SetKey(w, a).Some? { DecodeSingle(b, SetKey(w, a).value); }
    if SetKey(w, b).Some? { DecodeSingle(a, SetKey(w, b).value); }
  }

  lemma DecodePair(a: Member, b: Member, rest: seq<Member>, w: Node)
    requires a.key != b.key
    ensures DecodeMembers([a, b] + rest, w) == DecodeMembers([b, a] + rest, w)
  {
    hide SetKey;
    SetKeysCommute(w, a, b);
    DecodeAppend([a, b], rest, w);
    DecodeAppend([b, a], rest, w);
    assert [a, b] == [a] + [b] && [b, a] == [b] + [a];
    DecodeAppend([a], [b], w);
    DecodeAppend([b], [a], w);
    DecodeSingle(a, w);
    DecodeSingle(b, w);
  }

  lemma DecodeHead(first: Member, tail: seq<Member>, w: Node)
    ensures DecodeMembers([first] + tail, w) == Then(SetKey(w, first), tail)
  {
    DecodeAppend([first], tail, w);
    DecodeSingle(first, w);
  }

  /** A key given twice: the later value stands, except that a null leaves a string as the earlier one set it. */
  lemma LaterKeyWins(w: Node, a: Member, b: Member)
    requires a.key == b.key && SetKey(w, a).Some?
    ensures DecodeMembers([a, b], w)
            == SetKey(w, if b.value.JNull? && b.key in {"field", "op", "rows"} then a else b)
  {
    hide Decode, DecodeAll;
    assert [a, b] == [a] + [b];
    DecodeHead(a, [b], w);
    DecodeSingle(b, SetKey(w, a).value);
  }

  const KNOWN: set<bytes> := {"and", "or", "not", "field", "op", "rows", "value"}

  function KnownOnly(members: seq<Member>): seq<Member> {
    if members == [] then [] else (if members[0].key in KNOWN then [members[0]] else []) + KnownOnly(members[1..])
  }

  /** Keys a node does not have are read over, whatever their values. */
  lemma {:induction false} UnknownKeysAreIgnored(members: seq<Member>, w: Node)
    ensures DecodeMembers(members, w) == DecodeMembers(KnownOnly(members), w)
  {
    hide Decode, DecodeAll;
    if members != [] {
      var m, rest := members[0], KnownOnly(members[1..]);
      if m.key in KNOWN {
        DecodeHead(m, rest, w);
        if SetKey(w, m).Some? { UnknownKeysAreIgnored(members[1..], SetKey(w, m).value); }
      } else {
        assert [] + rest == rest;
        assert SetKey(w, m) == Some(w);
        UnknownKeysAreIgnored(members[1..], w);
      }
    }
  }

  function ToFront(members: seq<Member>, i: nat): seq<Member>
    requires i < |members|
  {
    [members[i]] + members[..i] + members[i + 1..]
  }

  lemma ToFrontIs(members: seq<Member>, i: nat)
    requires i < |members|
    ensures ToFront(members, i) == [members[i]] + (members[..i] + members[i + 1..])
  {
  }

  /** A member may be decoded before all the earlier ones. */
  lemma {:induction false} DecodeToFront(members: seq<Member>, i: nat, w: Node)
    requires i < |members| && KeysDistinct(members)
    ensures DecodeMembers(ToFront(members, i), w) == DecodeMembers(members, w)
    decreases i
  {
    hide SetKey, DecodeMembers;
    if i == 0 {
      assert ToFront(members, 0) == members;
    } else {
      var first, tail := members[0], members[1..];
      var front := members[1..i] + members[i + 1..];
      assert tail[i - 1] == members[i] && tail[..i - 1] == members[1..i] && tail[i..] == members[i + 1..];
      assert ToFront(tail, i - 1) == [members[i]] + front;
      assert ToFront(members, i) == [members[i], first] + front;
      assert [first, members[i]] + front == [first] + ToFront(tail, i - 1);
      assert members == [first] + tail;
      DecodePair(members[i], first, front, w);
      DecodeHead(first, ToFront(tail, i - 1), w);
      DecodeHead(first, tail, w);
      if SetKey(w, first).Some? { DecodeToFront(tail, i - 1, SetKey(w, first).value); }
    }
  }

  lemma SameRest(a: seq<Member>, rest: seq<Member>, b: seq<Member>)
    requires b != [] && multiset(a) == multiset(b) && multiset(a) == multiset{b[0]} + multiset(rest)
    ensures multiset(rest) == multiset(b[1..])
  {
    assert b == [b[0]] + b[1..];
    assert multiset(b) == multiset{b[0]} + multiset(b[1..]);
    assert multiset(rest) == multiset(a) - multiset{b[0]};
  }

  lemma RemoveOne(a: seq<Member>, i: nat)
    requires i < |a| && KeysDistinct(a)
    ensures KeysDistinct(a[..i] + a[i + 1..])
    ensures multiset(a) == multiset{a[i]} + multiset(a[..i] + a[i + 1..])
  {
    assert a == a[..i] + [a[i]] + a[i + 1..];
  }

  /** Objects with the same members, keys distinct, decode alike. */
  lemma {:induction false} DecodePermuted(a: seq<Member>, b: seq<Member>, w: Node)
    requires KeysDistinct(a) && multiset(a) == multiset(b)
    ensures DecodeMembers(a, w) == DecodeMembers(b, w)
    decreases |b|
  {
    hide SetKey, DecodeMembers, KeysDistinct, ToFront;
    if b == [] {
      assert |multiset(a)| == 0;
      assert a == b;
    } else {
      assert b[0] in multiset(b);
      var i :| 0 <= i < |a| && a[i] == b[0];
      var rest := a[..i] + a[i + 1..];
      RemoveOne(a, i);
      SameRest(a, rest, b);
      DecodeToFront(a, i, w);
      ToFrontIs(a, i);
      assert b == [b[0]] + b[1..];
      DecodeHead(b[0], rest, w);
      DecodeHead(b[0], b[1..], w);
      if SetKey(w, b[0]).Some? { DecodePermuted(rest, b[1..], SetKey(w, b[0]).value); }
    }
  }

  /** Values that are the same up to the order of their keys decode to the same node. */
  lemma {:induction false} OrderIsImmaterial(v: Value, w: Value)
    requires SameUpToOrder(v, w)
    ensures Decode(v) == Decode(w)
    decreases v, 0
  {
    if v.JObject? {
      var inner :| Aligned(v.members, inner) && KeysDistinct(inner) && multiset(inner) == multiset(w.members);
      AlignedDecodeAlike(v.members, inner, ZERO);
      DecodePermuted(inner, w.members, ZERO);
    }
  }

  lemma {:induction false} AlignedDecodeAlike(a: seq<Member>, b: seq<Member>, n: Node)
    requires Aligned(a, b)
    ensures DecodeMembers(a, n) == DecodeMembers(b, n)
    decreases a, 2
  {
    if a != [] {
      assert a[0].key == b[0].key;
      MemberDecodesAlike(a[0], b[0], n);
      assert Aligned(a[1..], b[1..]) by {
        assert forall i :: 0 <= i < |a[1..]| ==> a[1..][i] == a[i + 1] && b[1..][i] == b[i + 1];
      }
      if SetKey(n, a[0]).Some? { AlignedDecodeAlike(a[1..], b[1..], SetKey(n, a[0]).value); }
    }
  }

  lemma {:induction false} MemberDecodesAlike(a: Member, b: Member, n: Node)
    requires a.key == b.key
    requires if a.key == "value" then a.value == b.value else SameUpToOrder(a.value, b.value)
    ensures SetKey(n, a) == SetKey(n, b)
    decreases a, 1
  {
    if a.key != "value" {
      OrderIsImmaterial(a.value, b.value);
      if a.value.JArray? {
        ItemsDecodeAlike(a.value.items, b.value.items);
      }
    }
  }

  lemma {:induction false} ItemsDecodeAlike(a: seq<Value>, b: seq<Value>)
    requires |a| == |b| && forall i :: 0 <= i < |a| ==> SameUpToOrder(a[i], b[i])
    ensures DecodeAll(a) == DecodeAll(b)
    decreases a, 2
  {
    if a != [] {
      OrderIsImmaterial(a[0], b[0]);
      assert forall i :: 0 <= i < |a[1..]| ==> a[1..][i] == a[i + 1] && b[1..][i] == b[i + 1];
      ItemsDecodeAlike(a[1..], b[1..]);
    }
  }

  /** However the objects of an accepted encoding are reordered, they decode to the tree sent, its nulls erased. */
  lemma ReorderedEncodingDecodes(n: Node, w: Value)
    requires Encode(n).Ok? && SameUpToOrder(Encode(n).value, w)
    ensures Decode(w) == Some(EraseNulls(n))
  {
    OrderIsImmaterial(Encode(n).value, w);
    DecodeOfEncode(n);
  }

  ghost predicate HasKey(members: seq<Member>, key: bytes) {
    exists i :: 0 <= i < |members| && members[i].key == key
  }

  /** An object's keys name the shape of the node it was made from. */
  ghost predicate KeysName(members: seq<Member>, n: Node) {
    && KeysDistinct(members)
    && (HasKey(members, "and") <==> IsAnd(n)) && (HasKey(members, "or") <==> IsOr(n))
    && (HasKey(members, "not") <==> IsNot(n)) && (HasKey(members, "field") <==> IsLeaf(n))
  }

  lemma KeysOfLeaf(n: Node)
    requires IsLeaf(n)
    ensures KeysName(Members(n, [], [], None), n)
  {
    var members := Members(n, [], [], None);
    assert members == CheckMembers(n.field, n.op, n.rows, n.value);
    assert members[0].key == "field" && members[1].key == "op";
  }

  lemma KeysOfParent(n: Node, ands: seq<Value>, ors: seq<Value>, neg: Option<Value>)
    requires OneShape(n) && !IsLeaf(n)
    requires |ands| == |n.andNodes| && |ors| == |n.orNodes| && (neg.Some? <==> n.notNode.Some?)
    ensures KeysName(Members(n, ands, ors, neg), n)
  {
    var members := Members(n, ands, ors, neg);
    assert members[0].key == if IsAnd(n) then "and" else if IsOr(n) then "or" else "not";
    assert |members| <= 2 && (|members| == 2 ==> members[1].key == "value");
  }

  lemma KeysOfMembers(n: Node, ands: seq<Value>, ors: seq<Value>, neg: Option<Value>)
    requires OneShape(n) && |ands| == |n.andNodes| && |ors| == |n.orNodes| && (neg.Some? <==> n.notNode.Some?)
    ensures KeysName(Members(n, ands, ors, neg), n)
  {
    hide KeysName, Members;
    if IsLeaf(n) {
      KeysOfLeaf(n);
    } else {
      KeysOfParent(n, ands, ors, neg);
    }
  }

  /**
   * An accepted object has distinct keys, and exactly one of "and", "or", "not" and "field" among them:
   * the node's shape.
   */
  lemma KeysTellTheShape(n: Node)
    requires Encode(n).Ok?
    ensures var members := Encode(n).value.members;
            && KeysDistinct(members)
            && (HasKey(members, "and") <==> IsAnd(n))
            && (HasKey(members, "or") <==> IsOr(n))
            && (HasKey(members, "not") <==> IsNot(n))
            && (HasKey(members, "field") <==> IsLeaf(n))
            && Count(IsAnd(n)) + Count(IsOr(n)) + Count(IsNot(n)) + Count(IsLeaf(n)) == 1
  {
    FaultlessIffOneShape(n);
    KeysOfMembers(n, EncodeAll(n.andNodes).value, EncodeAll(n.orNodes).value, EncodeChild(n.notNode).value);
  }
}
