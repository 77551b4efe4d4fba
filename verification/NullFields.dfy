/** Nullable update fields: three states in a request, and what a run of requests does to a resource. */
module NullFields {
  import opened GoBase
  import opened Json

  /** Null[T], with T's values as they encode. */
  datatype Nullable = Nullable(value: Value, valid: bool)

  /** *Null[T]: nil leaves the field out of the request. */
  type NullPtr = Option<Nullable>

  /**
   * A type T as encoding/json sees it, in terms of what its values encode as: its zero value, and how decoding data
   * into a variable goes, which for some types depends on what the variable held.
   */
  datatype Kind = Kind(zero: Value, decode: (Value, Value) -> Option<Value>)
  {
    /** Decoding the T that v stands for into a variable that held another gives it whole. */
    predicate Overwrites(was: Value, v: Value) { decode(v, was) == Some(v) }
  }

  function Set(v: Value): NullPtr { Some(Nullable(v, true)) }

  function Clear(t: Kind): NullPtr { Some(Nullable(t.zero, false)) }

  function MarshalNull(n: Nullable): Value { if !n.valid then JNull else n.value }

  /** A *Null field as encoding/json sends it, if at all. */
  function EncodeField(p: NullPtr): Option<Value> { if p.None? then None else Some(MarshalNull(p.value)) }

  /** One field of a request struct, by its JSON name. */
  datatype ReqField = ReqField(name: bytes, ptr: NullPtr)

  type Request = seq<ReqField>

  /** encoding/json with omitempty: a nil *Null is no member at all. */
  function EncodeRequest(req: Request): seq<Member> {
    if req == [] then []
    else
      (if req[0].ptr.None? then [] else [Member(req[0].name, MarshalNull(req[0].ptr.value))]) + EncodeRequest(req[1..])
  }

  /** The documented update: a member present replaces the field whole, an absent one keeps it. */
  function Merge(doc: map<bytes, Value>, patch: seq<Member>): map<bytes, Value>
    decreases patch
  {
    if patch == [] then doc else Merge(doc[patch[0].key := patch[0].value], patch[1..])
  }

  function Update(doc: map<bytes, Value>, req: Request): map<bytes, Value> { Merge(doc, EncodeRequest(req)) }

  function UpdateAll(doc: map<bytes, Value>, reqs: seq<Request>): map<bytes, Value>
    decreases |reqs|
  {
    if reqs == [] then doc else Update(UpdateAll(doc, reqs[..|reqs| - 1]), reqs[|reqs| - 1])
  }

  /** What a request says about a field: nothing, or the value it is to have. */
  function Says(req: Request, name: bytes): Option<Value> {
    if req == [] then None
    else if req[0].name == name then (if req[0].ptr.None? then None else Some(MarshalNull(req[0].ptr.value)))
    else Says(req[1..], name)
  }

  /** A struct's fields have different JSON names. */
  ghost predicate NamesDistinct(req: Request) {
    forall i, k :: 0 <= i < k < |req| ==> req[i].name != req[k].name
  }

  function Read(doc: map<bytes, Value>, name: bytes): Option<Value> { if name in doc then Some(doc[name]) else None }

  function OrElse(a: Option<Value>, b: Option<Value>): Option<Value> { if a.Some? then a else b }

  lemma {:induction false} SaysNothing(req: Request, name: bytes)
    requires forall i :: 0 <= i < |req| ==> req[i].name != name
    ensures Says(req, name).None?
  {
    if req != [] { SaysNothing(req[1..], name); }
  }

  /** One request gives each field what it says about it, and leaves it alone if it says nothing. */
  lemma {:induction false} UpdateField(doc: map<bytes, Value>, req: Request, name: bytes)
    requires NamesDistinct(req)
    ensures Read(Update(doc, req), name) == OrElse(Says(req, name), Read(doc, name))
    decreases req
  {
    if req != [] {
      var f, tail := req[0], req[1..];
      var rest := EncodeRequest(tail);
      assert forall i :: 0 <= i < |tail| ==> tail[i] == req[i + 1];
      if f.ptr.None? {
        assert EncodeRequest(req) == rest;
        UpdateField(doc, tail, name);
        if f.name == name { SaysNothing(tail, name); }
      } else {
        var m := Member(f.name, MarshalNull(f.ptr.value));
        assert ([m] + rest)[1..] == rest;
        UpdateField(doc[m.key := m.value], tail, name);
        if f.name == name { SaysNothing(tail, name); }
      }
    }
  }

  /** What a request says about a field is what its struct field holds. */
  lemma {:induction false} SaysIsField(req: Request, i: nat)
    requires NamesDistinct(req) && i < |req|
    ensures Says(req, req[i].name) == EncodeField(req[i].ptr)
  {
    if i > 0 {
      assert forall k :: 0 <= k < |req[1..]| ==> req[1..][k] == req[k + 1];
      SaysIsField(req[1..], i - 1);
    }
  }

  /** The three states of a field in a request: Set gives it the value, Clear gives it null, nil leaves it alone. */
  lemma ThreeStates(doc: map<bytes, Value>, req: Request, i: nat, t: Kind, v: Value)
    requires NamesDistinct(req) && i < |req|
    ensures var now := Read(Update(doc, req), req[i].name);
            && (req[i].ptr == Set(v) ==> now == Some(v))
            && (req[i].ptr == Clear(t) ==> now == Some(JNull))
            && (req[i].ptr == None ==> now == Read(doc, req[i].name))
  {
    UpdateField(doc, req, req[i].name);
    SaysIsField(req, i);
  }

  /**
   * After any run of updates a field has what the last request that mentioned it said: Set its value, Clear null;
   * a field no request mentioned is as it was.
   */
  lemma {:induction false} LastMentionWins(doc: map<bytes, Value>, reqs: seq<Request>, name: bytes, k: nat)
    requires forall i :: 0 <= i < |reqs| ==> NamesDistinct(reqs[i])
    requires k <= |reqs| && forall i :: k <= i < |reqs| ==> Says(reqs[i], name).None?
    requires k > 0 ==> Says(reqs[k - 1], name).Some?
    ensures Read(UpdateAll(doc, reqs), name) == if k == 0 then Read(doc, name) else Says(reqs[k - 1], name)
    decreases |reqs|
  {
    if reqs != [] {
      var init, last := reqs[..|reqs| - 1], reqs[|reqs| - 1];
      UpdateField(UpdateAll(doc, init), last, name);
      if k < |reqs| { LastMentionWins(doc, init, name, k); }
    }
  }

  // ----- decoding

  /** Null.UnmarshalJSON: null is asked about before T's decoder is. None stands for that decoder's error. */
  function UnmarshalNull(t: Kind, was: Value, data: Value): Option<Nullable> {
    if data.JNull? then Clear(t)
    else match t.decode(data, was) case None => None case Some(v) => Set(v)
  }

  /** A Null variable. */
  class NullVar {
    const t: Kind
    var value: Value
    var valid: bool

    constructor (t: Kind)
      ensures this.t == t && value == t.zero && !valid
    {
      this.t, value, valid := t, t.zero, false;
    }

    /** Null.UnmarshalJSON. A failure leaves Valid as it was, though T's decoder may by then have written to Value. */
    method UnmarshalJSON(data: Value) returns (ok: bool)
      modifies this
      ensures ok <==> old(UnmarshalNull(t, value, data)).Some?
      ensures ok ==> Some(Nullable(value, valid)) == old(UnmarshalNull(t, value, data))
      ensures !ok ==> valid == old(valid)
    {
      if data.JNull? {
        value, valid := t.zero, false;
        return true;
      }
      var v := t.decode(data, value);
      if v.None? {
        value := *;
        return false;
      }
      value := v.value;
      valid := true;
      ok := true;
    }
  }

  /**
   * UnmarshalJSON gives back what MarshalJSON took exactly when a valid Null does not hold a null of its own, and an
   * invalid one holds what Clear leaves in it.
   */
  lemma UnmarshalInvertsIff(t: Kind, was: Value, n: Nullable)
    requires n.valid ==> t.Overwrites(was, n.value)
    ensures UnmarshalNull(t, was, MarshalNull(n)) == Some(n)
            <==> if n.valid then !n.value.JNull? else Some(n) == Clear(t)
  {
  }

  /** How encoding/json decodes a *Null field into a new struct: null makes it nil without asking UnmarshalJSON. */
  function DecodeField(t: Kind, v: Option<Value>): Option<NullPtr> {
    if v.None? || v.value.JNull? then Some(None)
    else match UnmarshalNull(t, t.zero, v.value) case None => None case Some(n) => Some(Some(n))
  }

  /**
   * Decoding gives a nullable field back exactly when it did not encode as null: a cleared field reads as
   * an omitted one.
   */
  lemma DecodeFieldInvertsIff(t: Kind, p: NullPtr)
    requires p.Some? && p.value.valid ==> t.Overwrites(t.zero, p.value.value)
    ensures DecodeField(t, EncodeField(p)) == Some(p) <==> EncodeField(p) != Some(JNull)
  {
  }

  // ----- how this differs from JSON Merge Patch (RFC 7396)

  function Remove(members: seq<Member>, key: bytes): seq<Member> {
    if members == [] then [] else (if members[0].key == key then [] else [members[0]]) + Remove(members[1..], key)
  }

  function Lookup(members: seq<Member>, key: bytes): Option<Value> {
    if members == [] then None
    else if members[0].key == key then Some(members[0].value) else Lookup(members[1..], key)
  }

  /** MergePatch of RFC 7396, section 2, for one value. */
  function MergePatch(target: Option<Value>, patch: Value): Value
    decreases patch, 1
  {
    match patch
    case JObject(members) =>
      JObject(MergeMembers(match target case Some(JObject(ms)) => ms case _ => [], members))
    case _ => patch
  }

  function MergeMembers(target: seq<Member>, patch: seq<Member>): seq<Member>
    decreases patch, 0
  {
    if patch == [] then target
    else
      var k, v := patch[0].key, patch[0].value;
      var rest := Remove(target, k);
      MergeMembers(if v.JNull? then rest else rest + [Member(k, MergePatch(Lookup(target, k), v))], patch[1..])
  }

  function Keys(members: seq<Member>): set<bytes> { set i | 0 <= i < |members| :: members[i].key }

  lemma {:induction false} RemoveKeepsOthers(members: seq<Member>, key: bytes, other: bytes)
    requires other != key && other in Keys(members)
    ensures other in Keys(Remove(members, key))
  {
    var rest := Remove(members[1..], key);
    var kept := if members[0].key == key then [] else [members[0]];
    if members[0].key == other {
      assert Remove(members, key)[0].key == other;
    } else {
      assert forall i :: 0 <= i < |members[1..]| ==> members[1..][i] == members[i + 1];
      assert other in Keys(members[1..]);
      RemoveKeepsOthers(members[1..], key, other);
      var i :| 0 <= i < |rest| && rest[i].key == other;
      assert (kept + rest)[|kept| + i].key == other;
    }
  }

  /** The first three examples of RFC 7396, appendix A: a member replaced, one added, one removed. */
  lemma MergePatchExamples()
    ensures var was := Some(JObject([Member("a", JString("b"))]));
            && MergePatch(was, JObject([Member("a", JString("c"))])) == JObject([Member("a", JString("c"))])
            && MergePatch(was, JObject([Member("b", JString("c"))]))
               == JObject([Member("a", JString("b")), Member("b", JString("c"))])
            && MergePatch(was, JObject([Member("a", JNull)])) == JObject([])
  {
    var a, b := Member("a", JString("b")), Member("a", JString("c"));
    var c, d := Member("b", JString("c")), Member("a", JNull);
    assert [a][1..] == [] && [b][1..] == [] && [c][1..] == [] && [d][1..] == [];
    assert Remove([a], "a") == [] && Remove([a], "b") == [a];
    assert MergeMembers([a], [b]) == MergeMembers([b], []);
    assert MergeMembers([a], [c]) == MergeMembers([a, c], []);
    assert MergeMembers([a], [d]) == MergeMembers([], []);
  }

  /** The example of RFC 7396, section 1, where it goes inside: an inner member removed, its sibling kept. */
  lemma NestedMergePatchExample()
    ensures var d, f := Member("d", JString("e")), Member("f", JString("g"));
            MergePatch(Some(JObject([Member("c", JObject([d, f]))])),
                       JObject([Member("c", JObject([Member("f", JNull)]))]))
            == JObject([Member("c", JObject([d]))])
  {
    var d, f, n := Member("d", JString("e")), Member("f", JString("g")), Member("f", JNull);
    var was, patch := Member("c", JObject([d, f])), Member("c", JObject([n]));
    assert [d, f][1..] == [f] && [f][1..] == [] && [n][1..] == [] && [was][1..] == [] && [patch][1..] == [];
    assert Remove([f], "f") == [];
    assert Remove([d, f], "f") == [d];
    assert MergeMembers([d, f], [n]) == MergeMembers([d], []);
    assert Remove([was], "c") == [];
    assert MergeMembers([was], [patch]) == MergeMembers([Member("c", JObject([d]))], []);
  }

  /** A nested merge keeps every key the patch does not mention. */
  lemma {:induction false} MergeKeepsOthers(target: seq<Member>, patch: seq<Member>, other: bytes)
    requires other in Keys(target) && other !in Keys(patch)
    ensures other in Keys(MergeMembers(target, patch))
    decreases patch
  {
    if patch != [] {
      var k, v := patch[0].key, patch[0].value;
      var rest := Remove(target, k);
      var next := if v.JNull? then rest else rest + [Member(k, MergePatch(Lookup(target, k), v))];
      RemoveKeepsOthers(target, k, other);
      assert other in Keys(next) by {
        var i :| 0 <= i < |rest| && rest[i].key == other;
        assert next[i].key == other;
      }
      assert forall i :: 0 <= i < |patch[1..]| ==> patch[1..][i] == patch[i + 1];
      MergeKeepsOthers(next, patch[1..], other);
    }
  }

  /** A key longer than all of an object's keys together. */
  function FreshKey(members: seq<Member>): bytes {
    if members == [] then "x" else members[0].key + FreshKey(members[1..])
  }

  lemma {:induction false} FreshKeyIsNotEmpty(members: seq<Member>)
    ensures FreshKey(members) != []
  {
    if members != [] { FreshKeyIsNotEmpty(members[1..]); }
  }

  lemma {:induction false} FreshKeyIsLonger(members: seq<Member>, i: nat)
    requires i < |members|
    ensures |members[i].key| < |FreshKey(members)|
  {
    if i > 0 {
      FreshKeyIsLonger(members[1..], i - 1);
    } else {
      FreshKeyIsNotEmpty(members[1..]);
    }
  }

  lemma {:induction false} FreshKeyIsFresh(members: seq<Member>)
    ensures FreshKey(members) !in Keys(members)
  {
    forall i | 0 <= i < |members| ensures |members[i].key| < |FreshKey(members)| {
      FreshKeyIsLonger(members, i);
    }
  }

  /**
   * Replacing a field whole, as the SDK documents, agrees with JSON Merge Patch on every old value exactly when the
   * value sent is not an object: an object such as a posture expression would be merged into the old one instead.
   */
  lemma ReplacingIsMergingIff(v: Value)
    ensures (forall target: Option<Value> :: MergePatch(target, v) == v) <==> !v.JObject?
  {
    if v.JObject? {
      var k := FreshKey(v.members);
      var was := [Member(k, JBool(true))];
      FreshKeyIsFresh(v.members);
      assert was[0].key == k;
      MergeKeepsOthers(was, v.members, k);
      assert MergePatch(Some(JObject(was)), v) == JObject(MergeMembers(was, v.members));
    }
  }
}
