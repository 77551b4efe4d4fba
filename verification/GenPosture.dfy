/** The posture field generator: it cross-checks two registries of fields, names constants, and renders them. */
module GenPosture {
  import opened GoBase
  import opened Sorting

  /** goType: the column types of the field table. */
  const GO_TYPE: map<bytes, bytes> := map[
    "boolean" := "PostureBoolField", "string" := "PostureStringField", "enum_string" := "PostureStringField",
    "integer" := "PostureIntegerField", "float" := "PostureFloatField", "version" := "PostureVersionField",
    "datetime" := "PostureTimestampField", "ip" := "PostureIPField", "ipv4" := "PostureIPField",
    "ipv6" := "PostureIPField", "json" := "PostureJSONField", "string_array" := "PostureStringArrayField"
  ]

  const INITIALISMS: map<bytes, bytes> := map[
    "id" := "ID", "ip" := "IP", "ipv4" := "IPv4", "ipv6" := "IPv6", "os" := "OS",
    "mdm" := "MDM", "dns" := "DNS", "uuid" := "UUID", "udid" := "UDID", "imei" := "IMEI",
    "meid" := "MEID", "iccid" := "ICCID", "mac" := "MAC", "tpm" := "TPM", "vm" := "VM",
    "pac" := "PAC", "pcr" := "PCR", "pcr0" := "PCR0", "sid" := "SID", "ssv" := "SSV",
    "sip" := "SIP", "cpu" := "CPU", "eas" := "EAS", "ad" := "AD", "rbac" := "RBAC",
    "gb" := "GB", "pe" := "PE", "api" := "API", "url" := "URL", "sentinelone" := "SentinelOne"
  ]

  /** The twelve column types; the kinds of string share a Go type, and so do the kinds of address. */
  lemma ColumnTypes(a: bytes, b: bytes)
    ensures a in GO_TYPE
            <==> a in {"boolean", "string", "enum_string", "integer", "float", "version", "datetime", "ip", "ipv4",
                       "ipv6", "json", "string_array"}
    ensures a in GO_TYPE && b in GO_TYPE && GO_TYPE[a] == GO_TYPE[b] ==>
              a == b || {a, b} <= {"string", "enum_string"} || {a, b} <= {"ip", "ipv4", "ipv6"}
  {
  }

  /** One matched row of the description's field table. */
  datatype Row = Row(name: bytes, specType: bytes, platforms: bytes)

  /** One alternative of the leaf schema: a type word with prose after it, and the fields it accepts. */
  datatype Leaf = Leaf(description: bytes, names: seq<bytes>)

  datatype Field = Field(name: bytes, specType: bytes, platforms: bytes, ident: bytes)

  datatype LoadError =
    | UnknownType(name: bytes)
    | Drift(name: bytes)
    | SameIdent(first: bytes, second: bytes)
    | CountsDiffer

  /** strings.Cut, before the separator; the whole string if there is none. */
  function Before(s: bytes, sep: byte): (p: bytes)
    ensures sep !in p && p <= s
    ensures |p| < |s| ==> s[|p|] == sep
  {
    if s == [] || s[0] == sep then [] else [s[0]] + Before(s[1..], sep)
  }

  /** p comes before the first separator exactly when it holds none and the text is p, or p, a separator and more. */
  lemma BeforeIff(s: bytes, sep: byte, p: bytes)
    ensures Before(s, sep) == p <==> sep !in p && (s == p || p + [sep] <= s)
  {
    var q := Before(s, sep);
    if sep !in p && (s == p || p + [sep] <= s) {
      assert p <= s;
      assert |p| < |s| ==> s[|p|] == (p + [sep])[|p|] == sep;
      assert p == s[..|p|] && q == s[..|q|];
    }
  }

  // ----- identFor

  const PREFIX: bytes := "Posture"

  /** The name alphabet of the field table: no byte of it is smaller than the dot. */
  predicate NameByte(c: byte) { 'a' <= c <= 'z' || '0' <= c <= '9' || c == '_' || c == '.' }

  ghost predicate IsName(s: bytes) { forall i :: 0 <= i < |s| ==> NameByte(s[i]) }

  predicate IsBreak(c: byte) { c == '.' || c == '_' }

  /** strings.FieldsFunc: the maximal runs without a break; cur is the run being read. */
  function Words(s: bytes, cur: bytes): (ws: seq<bytes>)
    requires forall i :: 0 <= i < |cur| ==> !IsBreak(cur[i])
    ensures forall i :: 0 <= i < |ws| ==> ws[i] != []
  {
    var flushed: seq<bytes> := if cur == [] then [] else [cur];
    if s == [] then flushed
    else if IsBreak(s[0]) then flushed + Words(s[1..], [])
    else Words(s[1..], cur + [s[0]])
  }

  function Upper(c: byte): byte { if 'a' <= c <= 'z' then (c as int - 32) as char else c }

  function Capitalise(w: bytes): bytes
    requires w != []
  {
    if w in INITIALISMS then INITIALISMS[w] else [Upper(w[0])] + w[1..]
  }

  function Capitals(ws: seq<bytes>): bytes
    requires forall i :: 0 <= i < |ws| ==> ws[i] != []
  {
    if ws == [] then [] else Capitals(ws[..|ws| - 1]) + Capitalise(ws[|ws| - 1])
  }

  lemma NoCapitals()
    ensures Capitals([]) == []
  {
  }

  lemma CapitalsSnoc(ws: seq<bytes>, i: nat)
    requires i < |ws| && forall k :: 0 <= k < |ws| ==> ws[k] != []
    ensures PREFIX + Capitals(ws[..i + 1]) == PREFIX + Capitals(ws[..i]) + Capitalise(ws[i])
  {
    hide Capitalise;
    assert ws[..i + 1][..i] == ws[..i];
    assert PREFIX + (Capitals(ws[..i]) + Capitalise(ws[i])) == PREFIX + Capitals(ws[..i]) + Capitalise(ws[i]);
  }

  function Ident(name: bytes): bytes { PREFIX + Capitals(Words(name, [])) }

  /** identFor. */
  method IdentFor(name: bytes) returns (ident: bytes)
    ensures ident == Ident(name)
  {
    hide INITIALISMS, Words, Capitals;
    NoCapitals();
    var b := PREFIX;
    var ws := Words(name, []);
    for i := 0 to |ws|
      invariant b == PREFIX + Capitals(ws[..i])
    {
      var w := ws[i];
      assert ws[..i + 1][..i] == ws[..i];
      var word: bytes;
      if w in INITIALISMS {
        word := INITIALISMS[w];
      } else {
        word := [Upper(w[0])] + w[1..];
      }
      CapitalsSnoc(ws, i);
      b := b + word;
    }
    assert ws[..|ws|] == ws;
    ident := b;
  }

  function Lower(c: byte): byte { if 'A' <= c <= 'Z' then (c as int + 32) as char else c }

  function LowerAll(s: bytes): (t: bytes)
    ensures |t| == |s| && forall i :: 0 <= i < |s| ==> t[i] == Lower(s[i])
  {
    seq(|s|, i requires 0 <= i < |s| => Lower(s[i]))
  }

  /** A name without its dots and underscores. */
  function Squeeze(s: bytes): bytes {
    if s == [] then [] else (if IsBreak(s[0]) then [] else [s[0]]) + Squeeze(s[1..])
  }

  function Flatten(ws: seq<bytes>): bytes { if ws == [] then [] else Flatten(ws[..|ws| - 1]) + ws[|ws| - 1] }

  lemma {:induction false} FlattenConcat(a: seq<bytes>, b: seq<bytes>)
    ensures Flatten(a + b) == Flatten(a) + Flatten(b)
    decreases |b|
  {
    if b == [] {
      assert a + b == a;
    } else {
      var init := b[..|b| - 1];
      assert (a + b)[..|a + b| - 1] == a + init;
      FlattenConcat(a, init);
    }
  }

  /** Taking a name apart into words loses its breaks and nothing else. */
  lemma {:induction false} WordsKeepTheRest(s: bytes, cur: bytes)
    requires forall i :: 0 <= i < |cur| ==> !IsBreak(cur[i])
    ensures Flatten(Words(s, cur)) == cur + Squeeze(s)
    decreases s
  {
    var flushed: seq<bytes> := if cur == [] then [] else [cur];
    assert Flatten(flushed) == cur by { assert flushed != [] ==> flushed[..0] == []; }
    if s == [] {
    } else if IsBreak(s[0]) {
      WordsKeepTheRest(s[1..], []);
      FlattenConcat(flushed, Words(s[1..], []));
    } else {
      WordsKeepTheRest(s[1..], cur + [s[0]]);
    }
  }

  lemma InitialismsOnlyChangeCase(w: bytes)
    requires w in INITIALISMS
    ensures LowerAll(INITIALISMS[w]) == w
  {
    assert |INITIALISMS[w]| == |w|;
    forall i | 0 <= i < |w| ensures Lower(INITIALISMS[w][i]) == w[i] {
    }
  }

  /** The initialisms are all capitals, but for the two addresses and the brand. */
  lemma InitialismsAreCapitals(w: bytes)
    requires w in INITIALISMS
    ensures w !in {"ipv4", "ipv6", "sentinelone"} ==>
              forall i :: 0 <= i < |INITIALISMS[w]| ==> !('a' <= INITIALISMS[w][i] <= 'z')
    ensures w == "ipv4" ==> INITIALISMS[w] == "IPv4"
    ensures w == "ipv6" ==> INITIALISMS[w] == "IPv6"
    ensures w == "sentinelone" ==> INITIALISMS[w] == "SentinelOne"
  {
  }

  lemma LowerConcat(a: bytes, b: bytes)
    ensures LowerAll(a + b) == LowerAll(a) + LowerAll(b)
  {
    hide Lower;
  }

  lemma CapitaliseOnlyChangesCase(w: bytes)
    requires w != []
    ensures LowerAll(Capitalise(w)) == LowerAll(w)
  {
    hide INITIALISMS;
    if w in INITIALISMS {
      InitialismsOnlyChangeCase(w);
      assert LowerAll(w) == LowerAll(LowerAll(INITIALISMS[w])) == LowerAll(INITIALISMS[w]);
    }
  }

  lemma {:induction false} CapitalsOnlyChangeCase(ws: seq<bytes>)
    requires forall i :: 0 <= i < |ws| ==> ws[i] != []
    ensures LowerAll(Capitals(ws)) == LowerAll(Flatten(ws))
  {
    hide LowerAll, Lower, Capitalise;
    if ws != [] {
      var init, w := ws[..|ws| - 1], ws[|ws| - 1];
      CapitalsOnlyChangeCase(init);
      CapitaliseOnlyChangesCase(w);
      LowerConcat(Capitals(init), Capitalise(w));
      LowerConcat(Flatten(init), w);
    }
  }

  /**
   * What an identifier says: after the prefix it spells the name without its breaks, letter case aside, so two
   * names that differ in more than breaks and case never collide.
   */
  lemma IdentSpellsName(name: bytes)
    ensures PREFIX <= Ident(name)
    ensures LowerAll(Ident(name)[|PREFIX|..]) == LowerAll(Squeeze(name))
  {
    hide INITIALISMS;
    var ws := Words(name, []);
    WordsKeepTheRest(name, []);
    CapitalsOnlyChangeCase(ws);
    assert Ident(name)[|PREFIX|..] == Capitals(ws);
    assert [] + Squeeze(name) == Squeeze(name);
  }

  lemma {:induction false} SqueezedBytes(s: bytes)
    ensures forall c :: c in Squeeze(s) ==> c in s && !IsBreak(c)
  {
    if s != [] {
      SqueezedBytes(s[1..]);
      assert s == [s[0]] + s[1..];
    }
  }

  predicate IsAlphanumeric(c: byte) { 'a' <= c <= 'z' || 'A' <= c <= 'Z' || '0' <= c <= '9' }

  /** A name over the table's alphabet makes an exported Go identifier: the prefix, then letters and digits alone. */
  lemma IdentIsAnIdentifier(name: bytes)
    requires IsName(name)
    ensures PREFIX <= Ident(name) && forall i :: 0 <= i < |Ident(name)| ==> IsAlphanumeric(Ident(name)[i])
  {
    hide Ident;
    IdentSpellsName(name);
    SqueezedBytes(name);
    var id, sq := Ident(name), Squeeze(name);
    var tail := id[|PREFIX|..];
    forall i | 0 <= i < |tail| ensures IsAlphanumeric(tail[i]) {
      assert LowerAll(tail)[i] == LowerAll(sq)[i];
      assert sq[i] in name && NameByte(sq[i]);
    }
    assert id == PREFIX + tail;
  }

  ghost predicate BreakFree(w: bytes) { forall i :: 0 <= i < |w| ==> w[i] != '.' && w[i] != '_' }

  lemma {:induction false} WordsOfWord(w: bytes, cur: bytes)
    requires BreakFree(w) && BreakFree(cur)
    ensures Words(w, cur) == if cur + w == [] then [] else [cur + w]
  {
    if w == [] {
      assert cur + w == cur;
    } else {
      WordsOfWord(w[1..], cur + [w[0]]);
      assert cur + [w[0]] + w[1..] == cur + w;
    }
  }

  lemma {:induction false} WordsAtBreak(a: bytes, c: byte, b: bytes, cur: bytes)
    requires c in "._" && BreakFree(cur)
    ensures Words(a + ([c] + b), cur) == Words(a, cur) + Words(b, [])
  {
    var s := a + ([c] + b);
    if a == [] {
      assert s == [c] + b && s[1..] == b;
    } else {
      assert s[0] == a[0] && s[1..] == a[1..] + ([c] + b);
      if IsBreak(a[0]) {
        var flushed: seq<bytes> := if cur == [] then [] else [cur];
        WordsAtBreak(a[1..], c, b, []);
        assert flushed + (Words(a[1..], []) + Words(b, [])) == (flushed + Words(a[1..], [])) + Words(b, []);
      } else {
        WordsAtBreak(a[1..], c, b, cur + [a[0]]);
      }
    }
  }

  lemma {:induction false} CapitalsConcat(a: seq<bytes>, b: seq<bytes>)
    requires forall i :: 0 <= i < |a| ==> a[i] != []
    requires forall i :: 0 <= i < |b| ==> b[i] != []
    ensures forall i :: 0 <= i < |a + b| ==> (a + b)[i] != []
    ensures Capitals(a + b) == Capitals(a) + Capitals(b)
    decreases |b|
  {
    hide Capitalise;
    if b == [] {
      assert a + b == a;
    } else {
      var init, w := b[..|b| - 1], b[|b| - 1];
      assert (a + b)[..|a + b| - 1] == a + init && (a + b)[|a + b| - 1] == w;
      CapitalsConcat(a, init);
      assert Capitals(a) + Capitals(init) + Capitalise(w) == Capitals(a) + (Capitals(init) + Capitalise(w));
    }
  }

  const CAPITALS: bytes := "ABCDEFGHIJKLMNOPQRSTUVWXYZ"

  /** A word with its first letter, if it starts with a small one, made a capital. */
  function WithCapital(w: bytes): bytes
    requires w != []
  {
    if 'a' <= w[0] <= 'z' then [CAPITALS[w[0] as int - 'a' as int]] + w[1..] else w
  }

  lemma UpperIs(c: byte)
    ensures Upper(c) == if 'a' <= c <= 'z' then CAPITALS[c as int - 'a' as int] else c
  {
  }

  lemma CapitaliseIs(w: bytes)
    requires w != []
    ensures Capitalise(w) == if w in INITIALISMS then INITIALISMS[w] else WithCapital(w)
  {
    hide INITIALISMS;
    assert w == [w[0]] + w[1..];
    UpperIs(w[0]);
  }

  lemma CapitalsOfOne(w: bytes)
    requires w != []
    ensures Capitals([w]) == Capitalise(w)
  {
    hide Capitalise;
    assert [w][..0] == [];
    assert Capitals([]) == [];
  }

  /** The identifier of a word: an initialism as it is spelled, any other word with a capital. */
  lemma IdentOfWord(w: bytes)
    requires BreakFree(w) && w != []
    ensures Ident(w) == "Posture" + if w in INITIALISMS then INITIALISMS[w] else WithCapital(w)
  {
    hide INITIALISMS, WithCapital, Capitalise, Capitals, Words;
    WordsOfWord(w, []);
    assert [] + w == w;
    CapitalsOfOne(w);
    CapitaliseIs(w);
  }

  /** The identifier of a name with a break in it: that of the part before, then that of the part after. */
  lemma IdentAtBreak(a: bytes, c: byte, b: bytes)
    requires c in "._"
    ensures Ident(a + ([c] + b)) == Ident(a) + Ident(b)[|PREFIX|..]
  {
    hide INITIALISMS, Words, Capitals;
    WordsAtBreak(a, c, b, []);
    CapitalsConcat(Words(a, []), Words(b, []));
    assert Ident(b)[|PREFIX|..] == Capitals(Words(b, []));
  }

  /** Two names can want the same identifier, which is why load looks for it. */
  lemma IdentIsNotInjective()
    ensures Ident("a.b") == Ident("a_b") && "a.b" != "a_b"
  {
    hide Capitals;
    assert "a.b"[1..] == ".b" && ".b"[1..] == "b" && "b"[1..] == "";
    assert "a_b"[1..] == "_b" && "_b"[1..] == "b";
    assert [] + ['a'] == "a" && [] + ['b'] == "b";
  }

  // ----- load

  function AddNames(m: map<bytes, bytes>, names: seq<bytes>, t: bytes): map<bytes, bytes> {
    if names == [] then m else AddNames(m, names[..|names| - 1], t)[names[|names| - 1] := t]
  }

  /** The leaf schema's description is a type, or a type, a blank and prose. */
  predicate HasType(l: Leaf, t: bytes) { ' ' !in t && (l.description == t || t + [' '] <= l.description) }

  /** The first word of a leaf schema's description: its type. */
  function TypeWord(l: Leaf): bytes { Before(l.description, ' ') }

  lemma TypeWordIff(l: Leaf, t: bytes)
    ensures TypeWord(l) == t <==> HasType(l, t)
  {
    BeforeIff(l.description, ' ', t);
  }

  /** The leaf schemas' view: field name to type, a later schema overwriting an earlier one. */
  function LeafTypes(leaves: seq<Leaf>): map<bytes, bytes> {
    if leaves == [] then map[]
    else
      var l := leaves[|leaves| - 1];
      AddNames(LeafTypes(leaves[..|leaves| - 1]), l.names, TypeWord(l))
  }

  method ReadLeaves(leaves: seq<Leaf>) returns (leafType: map<bytes, bytes>)
    ensures leafType == LeafTypes(leaves)
  {
    leafType := map[];
    for i := 0 to |leaves|
      invariant leafType == LeafTypes(leaves[..i])
    {
      assert leaves[..i + 1][..i] == leaves[..i];
      var t := TypeWord(leaves[i]);
      ghost var before := leafType;
      var names := leaves[i].names;
      for k := 0 to |names|
        invariant leafType == AddNames(before, names[..k], t)
      {
        assert names[..k + 1][..k] == names[..k];
        leafType := leafType[names[k] := t];
      }
      assert names[..|names|] == names;
    }
    assert leaves[..|leaves|] == leaves;
  }

  /** The fields that any leaf schema accepts. */
  function LeafNames(leaves: seq<Leaf>): set<bytes> {
    set k, name | 0 <= k < |leaves| && name in leaves[k].names :: name
  }

  /** Leaf k is the last one that lists the name. */
  ghost predicate IsLastListing(leaves: seq<Leaf>, k: int, name: bytes) {
    && 0 <= k < |leaves| && name in leaves[k].names
    && forall i :: k < i < |leaves| ==> name !in leaves[i].names
  }

  lemma {:induction false} AddNamesAt(m: map<bytes, bytes>, names: seq<bytes>, t: bytes, name: bytes)
    ensures var added := AddNames(m, names, t);
            && (name in added <==> name in names || name in m)
            && (name in added ==> added[name] == if name in names then t else m[name])
    decreases |names|
  {
    if names != [] {
      var init := names[..|names| - 1];
      AddNamesAt(m, init, t, name);
      assert names == init + [names[|names| - 1]];
    }
  }

  lemma NoLeaves(name: bytes)
    ensures name !in LeafNames([]) && !exists k :: IsLastListing([], k, name)
  {
  }

  lemma ListedByLast(leaves: seq<Leaf>, name: bytes)
    requires leaves != [] && name in leaves[|leaves| - 1].names
    ensures name in LeafNames(leaves)
    ensures forall k :: IsLastListing(leaves, k, name) <==> k == |leaves| - 1
  {
  }

  lemma NotListedByLast(leaves: seq<Leaf>, name: bytes)
    requires leaves != [] && name !in leaves[|leaves| - 1].names
    ensures var init := leaves[..|leaves| - 1];
            && (name in LeafNames(leaves) <==> name in LeafNames(init))
            && forall k :: IsLastListing(leaves, k, name) <==> IsLastListing(init, k, name)
  {
    var init := leaves[..|leaves| - 1];
    assert forall k :: 0 <= k < |init| ==> init[k] == leaves[k];
  }

  lemma {:induction false} LeafTypesAreWords(leaves: seq<Leaf>, name: bytes)
    ensures name in LeafTypes(leaves) <==> name in LeafNames(leaves)
    ensures forall k :: IsLastListing(leaves, k, name) ==>
                          0 <= k < |leaves| && name in LeafTypes(leaves)
                          && LeafTypes(leaves)[name] == TypeWord(leaves[k])
    ensures name in LeafNames(leaves) ==> exists k :: IsLastListing(leaves, k, name)
    decreases |leaves|
  {
    hide TypeWord, AddNames, LeafNames, IsLastListing;
    if leaves == [] {
      NoLeaves(name);
    } else {
      var n := |leaves| - 1;
      var init, last := leaves[..n], leaves[n];
      LeafTypesAreWords(init, name);
      AddNamesAt(LeafTypes(init), last.names, TypeWord(last), name);
      if name in last.names {
        ListedByLast(leaves, name);
        assert IsLastListing(leaves, n, name);
      } else {
        NotListedByLast(leaves, name);
      }
    }
  }

  /** A field is in the leaf schemas' view exactly when a leaf lists it, with the type of the last leaf that does. */
  lemma LeafTypesAt(leaves: seq<Leaf>, name: bytes)
    ensures name in LeafTypes(leaves) <==> name in LeafNames(leaves)
    ensures forall k, t :: IsLastListing(leaves, k, name) ==> (LeafTypes(leaves)[name] == t <==> HasType(leaves[k], t))
    ensures name in LeafNames(leaves) ==> exists k :: IsLastListing(leaves, k, name)
  {
    hide TypeWord, HasType, LeafTypes;
    LeafTypesAreWords(leaves, name);
    forall k, t | IsLastListing(leaves, k, name)
      ensures LeafTypes(leaves)[name] == t <==> HasType(leaves[k], t)
    {
      TypeWordIff(leaves[k], t);
    }
  }

  /** A Go map lookup: the empty string for a missing key. */
  function TypeOf(m: map<bytes, bytes>, name: bytes): bytes { if name in m then m[name] else [] }

  function ToField(r: Row): Field { Field(r.name, r.specType, r.platforms, Ident(r.name)) }

  function ToFields(rows: seq<Row>): (fs: seq<Field>)
    ensures |fs| == |rows| && forall i :: 0 <= i < |rows| ==> fs[i] == ToField(rows[i])
  {
    seq(|rows|, i requires 0 <= i < |rows| => ToField(rows[i]))
  }

  /** A row the leaf schemas agree with. */
  predicate Agrees(r: Row, leafType: map<bytes, bytes>) {
    r.specType in GO_TYPE && TypeOf(leafType, r.name) == r.specType
  }

  ghost predicate IdentsDistinct(rows: seq<Row>) {
    forall i, k :: 0 <= i < k < |rows| ==> Ident(rows[i].name) != Ident(rows[k].name)
  }

  /** What load accepts. */
  ghost predicate Consistent(rows: seq<Row>, leafType: map<bytes, bytes>) {
    && (forall i :: 0 <= i < |rows| ==> Agrees(rows[i], leafType))
    && IdentsDistinct(rows)
    && |rows| == |leafType|
  }

  lemma DistinctSnoc(rows: seq<Row>, i: nat)
    requires i < |rows| && IdentsDistinct(rows[..i])
    requires forall k :: 0 <= k < i ==> Ident(rows[k].name) != Ident(rows[i].name)
    ensures IdentsDistinct(rows[..i + 1])
  {
    hide Ident;
    assert rows[..i + 1] == rows[..i] + [rows[i]];
  }

  lemma ToFieldsSnoc(rows: seq<Row>, i: nat)
    requires i < |rows|
    ensures ToFields(rows[..i + 1]) == ToFields(rows[..i]) + [ToField(rows[i])]
  {
    hide Ident;
  }

  /** Where load's loop stands after i rows: they were accepted, and seen holds their identifiers. */
  ghost predicate Checked(rows: seq<Row>, i: nat, leafType: map<bytes, bytes>, fields: seq<Field>,
                          seen: map<bytes, bytes>)
    requires i <= |rows|
  {
    && fields == ToFields(rows[..i])
    && (forall k :: 0 <= k < i ==> Agrees(rows[k], leafType))
    && IdentsDistinct(rows[..i])
    && (forall id :: id in seen <==> exists k :: 0 <= k < i && Ident(rows[k].name) == id)
    && (forall k :: 0 <= k < i ==> Ident(rows[k].name) in seen && seen[Ident(rows[k].name)] == rows[k].name)
  }

  /** Row i is the first that is not in order, if it is not. */
  ghost predicate FirstFault(rows: seq<Row>, i: int, leafType: map<bytes, bytes>) {
    0 <= i < |rows| && (forall k :: 0 <= k < i ==> Agrees(rows[k], leafType)) && IdentsDistinct(rows[..i])
  }

  /** The error is true of the first row that is not in order, or of the counts. */
  ghost predicate Explains(rows: seq<Row>, leafType: map<bytes, bytes>, e: LoadError) {
    match e
    case UnknownType(name) =>
      exists i :: FirstFault(rows, i, leafType) && rows[i].name == name && rows[i].specType !in GO_TYPE
    case Drift(name) =>
      exists i :: FirstFault(rows, i, leafType) && rows[i].name == name
                  && rows[i].specType in GO_TYPE && TypeOf(leafType, name) != rows[i].specType
    case SameIdent(first, second) =>
      exists i :: FirstFault(rows, i, leafType) && rows[i].name == second && Agrees(rows[i], leafType)
                  && Ident(first) == Ident(second) && exists k :: 0 <= k < i && rows[k].name == first
    case CountsDiffer =>
      (forall k :: 0 <= k < |rows| ==> Agrees(rows[k], leafType)) && IdentsDistinct(rows) && |rows| != |leafType|
  }

  lemma NothingChecked(rows: seq<Row>, leafType: map<bytes, bytes>)
    ensures Checked(rows, 0, leafType, [], map[])
  {
  }

  lemma CheckedOneMore(rows: seq<Row>, i: nat, leafType: map<bytes, bytes>, fields: seq<Field>,
                       seen: map<bytes, bytes>)
    requires i < |rows| && Checked(rows, i, leafType, fields, seen)
    requires Agrees(rows[i], leafType) && Ident(rows[i].name) !in seen
    ensures Checked(rows, i + 1, leafType, fields + [ToField(rows[i])], seen[Ident(rows[i].name) := rows[i].name])
  {
    hide Ident, Agrees;
    DistinctSnoc(rows, i);
    ToFieldsSnoc(rows, i);
  }

  lemma SeenRefutes(rows: seq<Row>, i: nat, leafType: map<bytes, bytes>, fields: seq<Field>, seen: map<bytes, bytes>)
    requires i < |rows| && Checked(rows, i, leafType, fields, seen)
    ensures FirstFault(rows, i, leafType)
    ensures Ident(rows[i].name) in seen ==>
              && !IdentsDistinct(rows)
              && (Agrees(rows[i], leafType) ==>
                    Explains(rows, leafType, SameIdent(seen[Ident(rows[i].name)], rows[i].name)))
  {
    hide Ident, Agrees;
  }

  lemma BadTypeExplains(rows: seq<Row>, i: nat, leafType: map<bytes, bytes>)
    requires FirstFault(rows, i, leafType)
    ensures rows[i].specType !in GO_TYPE ==> Explains(rows, leafType, UnknownType(rows[i].name))
    ensures rows[i].specType in GO_TYPE && TypeOf(leafType, rows[i].name) != rows[i].specType ==>
              Explains(rows, leafType, Drift(rows[i].name))
  {
    hide Ident, GO_TYPE, TypeOf, FirstFault;
  }

  lemma AllChecked(rows: seq<Row>, leafType: map<bytes, bytes>, fields: seq<Field>, seen: map<bytes, bytes>)
    requires Checked(rows, |rows|, leafType, fields, seen)
    ensures fields == ToFields(rows) && (Consistent(rows, leafType) <==> |fields| == |leafType|)
    ensures |fields| != |leafType| ==> Explains(rows, leafType, CountsDiffer)
  {
    hide Ident, Agrees;
    assert rows[..|rows|] == rows;
  }

  function FieldName(): Field -> bytes { (f: Field) => f.name }

  /**
   * load, from the decoded schemas on: it succeeds exactly on consistent registries, with every row's field
   * in name order, and says truly what is wrong with any others.
   */
  method Load(leaves: seq<Leaf>, rows: seq<Row>) returns (r: Result<seq<Field>, LoadError>)
    ensures r.Ok? <==> Consistent(rows, LeafTypes(leaves))
    ensures r.Ok? ==> SortedBy(r.value, FieldName()) && multiset(r.value) == multiset(ToFields(rows))
    ensures r.Err? ==> Explains(rows, LeafTypes(leaves), r.error)
  {
    hide Ident, GO_TYPE, LeafTypes, TypeOf, IdentsDistinct, Checked, Explains, FirstFault;
    var leafType := ReadLeaves(leaves);
    var fields: seq<Field> := [];
    var seen: map<bytes, bytes> := map[];
    NothingChecked(rows, leafType);
    for i := 0 to |rows|
      invariant Checked(rows, i, leafType, fields, seen)
    {
      var row := rows[i];
      SeenRefutes(rows, i, leafType, fields, seen);
      BadTypeExplains(rows, i, leafType);
      if row.specType !in GO_TYPE {
        return Err(UnknownType(row.name));
      }
      if TypeOf(leafType, row.name) != row.specType {
        return Err(Drift(row.name));
      }
      var ident := IdentFor(row.name);
      if ident in seen {
        return Err(SameIdent(seen[ident], row.name));
      }
      CheckedOneMore(rows, i, leafType, fields, seen);
      seen := seen[ident := row.name];
      fields := fields + [Field(row.name, row.specType, row.platforms, ident)];
    }
    AllChecked(rows, leafType, fields, seen);
    if |fields| != |leafType| {
      return Err(CountsDiffer);
    }
    var sorted := SortBy(fields, FieldName());
    r := Ok(sorted);
  }

  /** The names a sequence of rows lists. */
  function Names(rows: seq<Row>): set<bytes> { set i | 0 <= i < |rows| :: rows[i].name }

  lemma {:induction false} DistinctNamesCount(rows: seq<Row>)
    requires IdentsDistinct(rows)
    ensures |Names(rows)| == |rows|
  {
    hide Ident;
    if rows == [] {
      assert Names(rows) == {};
    } else {
      var init, last := rows[..|rows| - 1], rows[|rows| - 1];
      DistinctNamesCount(init);
      assert last.name !in Names(init);
      assert Names(rows) == Names(init) + {last.name};
    }
  }

  lemma SubsetOfSameSize(a: set<bytes>, b: set<bytes>)
    requires a <= b && |a| == |b|
    ensures a == b
  {
    assert |b - a| == |b| - |a|;
  }

  lemma TableCoversMap(rows: seq<Row>, leafType: map<bytes, bytes>)
    requires Consistent(rows, leafType)
    ensures Names(rows) == leafType.Keys
    ensures forall i :: 0 <= i < |rows| ==> leafType[rows[i].name] == rows[i].specType && rows[i].specType in GO_TYPE
    ensures forall i, k :: 0 <= i < k < |rows| ==> rows[i].name != rows[k].name
  {
    hide Ident;
    assert [] !in GO_TYPE;
    assert forall i :: 0 <= i < |rows| ==> Agrees(rows[i], leafType);
    hide GO_TYPE;
    assert Names(rows) <= leafType.Keys;
    DistinctNamesCount(rows);
    SubsetOfSameSize(Names(rows), leafType.Keys);
  }

  /** Every row has a known type, the one the last leaf schema that lists its field gives it. */
  ghost predicate TypedByLastLeaf(rows: seq<Row>, leaves: seq<Leaf>) {
    forall i :: 0 <= i < |rows| ==>
                  && rows[i].specType in GO_TYPE
                  && forall k :: IsLastListing(leaves, k, rows[i].name) ==> HasType(leaves[k], rows[i].specType)
  }

  lemma NamesOfLeafTypes(leaves: seq<Leaf>)
    ensures LeafTypes(leaves).Keys == LeafNames(leaves)
  {
    hide LeafTypes, LeafNames;
    forall name ensures name in LeafTypes(leaves) <==> name in LeafNames(leaves) {
      LeafTypesAt(leaves, name);
    }
  }

  /**
   * The cross-check is complete in both directions: though load only looks from the table to the leaf schemas
   * and compares two counts, what it accepts lists exactly the fields that some leaf schema lists, each once, and
   * each with a type the SDK has a Go type for: that of the last leaf schema to list it.
   */
  lemma RegistriesCoincide(rows: seq<Row>, leaves: seq<Leaf>)
    requires Consistent(rows, LeafTypes(leaves))
    ensures Names(rows) == LeafNames(leaves)
    ensures forall i, k :: 0 <= i < k < |rows| ==> rows[i].name != rows[k].name
    ensures TypedByLastLeaf(rows, leaves)
  {
    hide Ident, GO_TYPE, LeafTypes, LeafNames, Consistent, HasType;
    TableCoversMap(rows, LeafTypes(leaves));
    NamesOfLeafTypes(leaves);
    forall i | 0 <= i < |rows|
      ensures forall k :: IsLastListing(leaves, k, rows[i].name) ==> HasType(leaves[k], rows[i].specType)
    {
      LeafTypesAt(leaves, rows[i].name);
    }
  }

  /** And the converse: registries that coincide and name distinct constants are accepted. */
  lemma CoincidingRegistriesAreAccepted(rows: seq<Row>, leaves: seq<Leaf>)
    requires Names(rows) == LeafNames(leaves) && IdentsDistinct(rows)
    requires TypedByLastLeaf(rows, leaves)
    ensures Consistent(rows, LeafTypes(leaves))
  {
    hide Ident, GO_TYPE, LeafTypes, LeafNames, HasType;
    DistinctNamesCount(rows);
    NamesOfLeafTypes(leaves);
    assert |LeafTypes(leaves)| == |LeafTypes(leaves).Keys|;
    forall i | 0 <= i < |rows| ensures Agrees(rows[i], LeafTypes(leaves)) {
      assert rows[i].name in Names(rows);
      LeafTypesAt(leaves, rows[i].name);
    }
  }

  /** No two leaf schemas list a field with different types. */
  ghost predicate LeavesAgree(leaves: seq<Leaf>) {
    forall j, k, name, t ::
      0 <= j < |leaves| && 0 <= k < |leaves| && name in leaves[j].names && name in leaves[k].names ==>
        HasType(leaves[j], t) ==> HasType(leaves[k], t)
  }

  /** Every leaf schema that lists a row's field gives it the row's type. */
  ghost predicate TypedByEveryLeaf(rows: seq<Row>, leaves: seq<Leaf>) {
    forall i, k :: 0 <= i < |rows| && 0 <= k < |leaves| && rows[i].name in leaves[k].names ==>
                     HasType(leaves[k], rows[i].specType)
  }

  /** In an accepted table the rows agree with every leaf schema exactly when the leaf schemas agree with each other. */
  lemma EveryLeafAgreesIff(rows: seq<Row>, leaves: seq<Leaf>)
    requires Consistent(rows, LeafTypes(leaves))
    ensures TypedByEveryLeaf(rows, leaves) <==> LeavesAgree(leaves)
  {
    hide Ident, GO_TYPE, LeafTypes, Consistent, HasType;
    RegistriesCoincide(rows, leaves);
    if TypedByEveryLeaf(rows, leaves) {
      forall j, k, name, t
        | 0 <= j < |leaves| && 0 <= k < |leaves| && name in leaves[j].names && name in leaves[k].names
        && HasType(leaves[j], t)
        ensures HasType(leaves[k], t)
      {
        assert name in Names(rows);
        var i :| 0 <= i < |rows| && rows[i].name == name;
        TypeWordIff(leaves[j], t);
        TypeWordIff(leaves[j], rows[i].specType);
      }
    }
    if LeavesAgree(leaves) {
      forall i, k | 0 <= i < |rows| && 0 <= k < |leaves| && rows[i].name in leaves[k].names
        ensures HasType(leaves[k], rows[i].specType)
      {
        assert rows[i].name in LeafNames(leaves);
        LeafTypesAt(leaves, rows[i].name);
      }
    }
  }

  /** Two leaf schemas that give a field different types are not noticed, so long as the table follows the later one. */
  lemma DisagreeingLeavesAreAccepted(name: bytes, platforms: bytes, earlier: bytes, later: bytes, prose: bytes)
    requires later in GO_TYPE && earlier != later && ' ' !in earlier && ' ' !in later
    ensures var leaves := [Leaf(earlier + [' '] + prose, [name]), Leaf(later + [' '] + prose, [name])];
            Consistent([Row(name, later, platforms)], LeafTypes(leaves)) && !LeavesAgree(leaves)
  {
    hide Ident, GO_TYPE, LeafTypes;
    var rows := [Row(name, later, platforms)];
    var leaves := [Leaf(earlier + [' '] + prose, [name]), Leaf(later + [' '] + prose, [name])];
    assert HasType(leaves[0], earlier) && HasType(leaves[1], later);
    TypeWordIff(leaves[1], later);
    TypeWordIff(leaves[1], earlier);
    assert leaves[0].names == leaves[1].names == [name];
    assert rows[0].name == name;
    assert Names(rows) == {name};
    assert forall k :: 0 <= k < 2 ==> leaves[k].names == [name];
    assert name in leaves[0].names && name in leaves[1].names;
    assert LeafNames(leaves) == {name};
    CoincidingRegistriesAreAccepted(rows, leaves);
  }

  /** Load's answer does not depend on the sorting algorithm: any sorted arrangement of the fields is this one. */
  lemma LoadOrderIsDetermined(rows: seq<Row>, leafType: map<bytes, bytes>, a: seq<Field>, b: seq<Field>)
    requires Consistent(rows, leafType)
    requires SortedBy(a, FieldName()) && multiset(a) == multiset(ToFields(rows))
    requires SortedBy(b, FieldName()) && multiset(b) == multiset(ToFields(rows))
    ensures a == b
  {
    hide Ident, GO_TYPE;
    TableCoversMap(rows, leafType);
    assert DistinctBy(ToFields(rows), FieldName());
    SortedArrangementsAgree(ToFields(rows), a, b, FieldName());
  }
}
