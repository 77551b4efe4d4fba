/** Rendering the fields: one const block per run of equal providers, and why that is one block per provider. */
module Render {
  import opened GoBase
  import opened Strings
  import opened Sorting
  import opened GenPosture

  /** The pieces of the generated file. */
  datatype Line = Header | Open(provider: bytes)
                | Doc(ident: bytes, specType: bytes, name: bytes, platforms: bytes)
                | Const(ident: bytes, goType: bytes, name: bytes) | Close

  /** The comment above a field's constant. */
  function DocOf(f: Field): Line { Doc(f.ident, f.specType, f.name, f.platforms) }

  /** The constant of a field: its identifier, the Go type of its column type, and its name as the value. */
  function ConstOf(f: Field): Line { Const(f.ident, TypeOf(GO_TYPE, f.specType), f.name) }

  /** provider: the part of the name before the first dot, or the whole name. */
  function Provider(f: Field): bytes { Before(f.name, '.') }

  /** The provider is the part before the first dot: all of the name, or what a dot follows. */
  lemma ProviderIff(f: Field, p: bytes)
    ensures Provider(f) == p <==> '.' !in p && (f.name == p || p + ['.'] <= f.name)
  {
    BeforeIff(f.name, '.', p);
  }

  /** Field i starts a block. */
  predicate Starts(fs: seq<Field>, i: nat)
    requires i < |fs|
  {
    i == 0 || Provider(fs[i]) != Provider(fs[i - 1])
  }

  /** Field i ends a block. */
  predicate Ends(fs: seq<Field>, i: nat)
    requires i < |fs|
  {
    i == |fs| - 1 || Provider(fs[i]) != Provider(fs[i + 1])
  }

  /** What render writes for field i. */
  function Chunk(fs: seq<Field>, i: nat): seq<Line>
    requires i < |fs|
  {
    (if Starts(fs, i) then [Open(Provider(fs[i]))] else []) +
    [DocOf(fs[i]), ConstOf(fs[i])] +
    (if Ends(fs, i) then [Close] else [])
  }

  /** What render writes from field i on. */
  function Lines(fs: seq<Field>, i: nat): seq<Line>
    requires i <= |fs|
    decreases |fs| - i
  {
    if i == |fs| then [] else Chunk(fs, i) + Lines(fs, i + 1)
  }

  lemma LinesStep(fs: seq<Field>, i: nat)
    requires i < |fs|
    ensures Lines(fs, i) == Chunk(fs, i) + Lines(fs, i + 1)
  {
  }

  lemma NoLinesLeft(fs: seq<Field>)
    ensures Lines(fs, |fs|) == []
  {
  }

  lemma Associate(a: seq<Line>, b: seq<Line>, c: seq<Line>)
    ensures a + (b + c) == (a + b) + c
  {
  }

  /** render, up to gofmt. */
  method RenderFields(fs: seq<Field>) returns (out: seq<Line>)
    ensures out == [Header] + Lines(fs, 0)
  {
    hide Provider, GO_TYPE, TypeOf, Lines;
    NoLinesLeft(fs);
    out := [Header];
    for i := 0 to |fs|
      invariant out + Lines(fs, i) == [Header] + Lines(fs, 0)
    {
      ghost var before := out;
      LinesStep(fs, i);
      if i == 0 || Provider(fs[i]) != Provider(fs[i - 1]) {
        out := out + [Open(Provider(fs[i]))];
      }
      out := out + [Doc(fs[i].ident, fs[i].specType, fs[i].name, fs[i].platforms),
                    Const(fs[i].ident, TypeOf(GO_TYPE, fs[i].specType), fs[i].name)];
      if i == |fs| - 1 || Provider(fs[i]) != Provider(fs[i + 1]) {
        out := out + [Close];
      }
      assert out == before + Chunk(fs, i);
      Associate(before, Chunk(fs, i), Lines(fs, i + 1));
    }
  }

  // ----- blocks

  /** A run of fields of one provider. */
  datatype Run = Run(provider: bytes, fields: seq<Field>)

  ghost predicate IsRun(r: Run) {
    r.fields != [] && forall i :: 0 <= i < |r.fields| ==> Provider(r.fields[i]) == r.provider
  }

  function Body(fs: seq<Field>): seq<Line> {
    if fs == [] then [] else [DocOf(fs[0]), ConstOf(fs[0])] + Body(fs[1..])
  }

  /** A const block: opened once, a constant for each of its fields, closed once. */
  function Block(r: Run): seq<Line> { [Open(r.provider)] + Body(r.fields) + [Close] }

  function Blocks(rs: seq<Run>): seq<Line> { if rs == [] then [] else Block(rs[0]) + Blocks(rs[1..]) }

  function Concat(rs: seq<Run>): seq<Field> { if rs == [] then [] else rs[0].fields + Concat(rs[1..]) }

  /** A field joins the run that follows it, or makes one of its own. */
  function Push(f: Field, rs: seq<Run>): seq<Run> {
    if rs != [] && rs[0].provider == Provider(f) then [Run(Provider(f), [f] + rs[0].fields)] + rs[1..]
    else [Run(Provider(f), [f])] + rs
  }

  /** The maximal runs of equal providers. */
  function Runs(fs: seq<Field>): seq<Run> { if fs == [] then [] else Push(fs[0], Runs(fs[1..])) }

  lemma PushKeepsRuns(f: Field, rs: seq<Run>)
    requires forall i :: 0 <= i < |rs| ==> IsRun(rs[i])
    ensures forall i :: 0 <= i < |Push(f, rs)| ==> IsRun(Push(f, rs)[i])
    ensures Push(f, rs) != [] && Push(f, rs)[0].provider == Provider(f)
    ensures Concat(Push(f, rs)) == [f] + Concat(rs)
  {
    hide Provider;
    var ps := Push(f, rs);
    if rs != [] && rs[0].provider == Provider(f) {
      assert IsRun(rs[0]);
      assert ps[1..] == rs[1..];
      assert forall i :: 1 <= i < |ps| ==> ps[i] == rs[i];
      assert [f] + rs[0].fields + Concat(rs[1..]) == [f] + (rs[0].fields + Concat(rs[1..]));
    } else {
      assert ps[1..] == rs;
      assert forall i :: 1 <= i < |ps| ==> ps[i] == rs[i - 1];
    }
  }

  lemma {:induction false} RunsAreRuns(fs: seq<Field>)
    ensures forall i :: 0 <= i < |Runs(fs)| ==> IsRun(Runs(fs)[i])
    ensures fs != [] ==> Runs(fs) != [] && Runs(fs)[0].provider == Provider(fs[0])
  {
    hide Provider;
    if fs != [] {
      RunsAreRuns(fs[1..]);
      PushKeepsRuns(fs[0], Runs(fs[1..]));
    }
  }

  /** The runs hold every field exactly once, in order. */
  lemma {:induction false} RunsConcat(fs: seq<Field>)
    ensures Concat(Runs(fs)) == fs
  {
    hide Provider, IsRun;
    if fs != [] {
      RunsAreRuns(fs[1..]);
      RunsConcat(fs[1..]);
      PushKeepsRuns(fs[0], Runs(fs[1..]));
      assert fs == [fs[0]] + fs[1..];
    }
  }

  /** Finishing the run field i is in, and then a block for every later run. */
  function Rest(fs: seq<Field>, i: nat, rs: seq<Run>): seq<Line>
    requires i < |fs| && rs != []
  {
    (if Starts(fs, i) then [Open(rs[0].provider)] else []) + Body(rs[0].fields) + [Close] + Blocks(rs[1..])
  }

  lemma LinesOfLast(fs: seq<Field>, i: nat)
    requires i + 1 == |fs|
    ensures Lines(fs, i) == Rest(fs, i, Push(fs[i], []))
  {
    hide Provider;
    assert Body([fs[i]]) == [DocOf(fs[i]), ConstOf(fs[i])] + Body([]);
    assert Lines(fs, i + 1) == [];
  }

  lemma LinesOfEnd(fs: seq<Field>, i: nat, next: seq<Run>)
    requires i + 1 < |fs| && Ends(fs, i) && next != [] && next[0].provider == Provider(fs[i + 1])
    ensures Chunk(fs, i) + Rest(fs, i + 1, next) == Rest(fs, i, Push(fs[i], next))
  {
    hide Provider;
    var f, rs := fs[i], Push(fs[i], next);
    assert rs[1..] == next;
    assert Body([f]) == [DocOf(f), ConstOf(f)] + Body([]);
    assert Rest(fs, i + 1, next) == Blocks(next);
  }

  lemma Regroup(a: seq<Line>, b: seq<Line>, c: seq<Line>, d: seq<Line>)
    ensures (a + b) + (c + d) == a + (b + c) + d
  {
  }

  lemma LinesOfInner(fs: seq<Field>, i: nat, next: seq<Run>)
    requires i + 1 < |fs| && !Ends(fs, i) && next != [] && next[0].provider == Provider(fs[i + 1])
    ensures Chunk(fs, i) + Rest(fs, i + 1, next) == Rest(fs, i, Push(fs[i], next))
  {
    hide Provider, Blocks;
    var f, rs := fs[i], Push(fs[i], next);
    var two := [DocOf(f), ConstOf(f)];
    var opening := if Starts(fs, i) then [Open(rs[0].provider)] else [];
    assert rs[1..] == next[1..];
    assert ([f] + next[0].fields)[1..] == next[0].fields;
    assert Body(rs[0].fields) == two + Body(next[0].fields);
    Regroup(opening, two, Body(next[0].fields), [Close] + Blocks(next[1..]));
    assert Rest(fs, i + 1, next) == Body(next[0].fields) + ([Close] + Blocks(next[1..]));
    assert Rest(fs, i, rs) == opening + Body(rs[0].fields) + ([Close] + Blocks(next[1..]));
  }

  lemma LinesOfOne(fs: seq<Field>, i: nat, next: seq<Run>)
    requires i + 1 < |fs| && next != [] && next[0].provider == Provider(fs[i + 1])
    requires Lines(fs, i + 1) == Rest(fs, i + 1, next)
    ensures Lines(fs, i) == Rest(fs, i, Push(fs[i], next))
  {
    hide Provider, Body, Blocks, Lines;
    assert Lines(fs, i) == Chunk(fs, i) + Lines(fs, i + 1) by { LinesStep(fs, i); }
    if Ends(fs, i) {
      LinesOfEnd(fs, i, next);
    } else {
      LinesOfInner(fs, i, next);
    }
  }

  /** That is what render does from field i on. */
  lemma {:induction false} LinesFollowRuns(fs: seq<Field>, i: nat)
    requires i < |fs|
    ensures Runs(fs[i..]) != [] && Lines(fs, i) == Rest(fs, i, Runs(fs[i..]))
    decreases |fs| - i
  {
    hide Provider, Lines, Rest, Push;
    RunsAreRuns(fs[i..]);
    assert fs[i..][1..] == fs[i + 1..];
    if i + 1 == |fs| {
      LinesOfLast(fs, i);
    } else {
      RunsAreRuns(fs[i + 1..]);
      LinesFollowRuns(fs, i + 1);
      LinesOfOne(fs, i, Runs(fs[i + 1..]));
    }
  }

  /** For any list of fields, the output is one block per maximal run, in order, and nothing else. */
  lemma LinesAreBlocks(fs: seq<Field>)
    ensures Lines(fs, 0) == Blocks(Runs(fs))
  {
    if fs != [] {
      assert fs[0..] == fs;
      LinesFollowRuns(fs, 0);
    }
  }

  /** Every constant stands inside a block, and no block inside another. */
  predicate WellNested(ls: seq<Line>, inside: bool) {
    if ls == [] then !inside
    else match ls[0]
      case Header => false
      case Open(_) => !inside && WellNested(ls[1..], true)
      case Close => inside && WellNested(ls[1..], false)
      case _ => inside && WellNested(ls[1..], inside)
  }

  lemma TwoInside(f: Field, tail: seq<Line>)
    ensures WellNested([DocOf(f), ConstOf(f)] + tail, true) <==> WellNested(tail, true)
  {
    assert ([DocOf(f), ConstOf(f)] + tail)[1..] == [ConstOf(f)] + tail;
    assert ([ConstOf(f)] + tail)[1..] == tail;
  }

  lemma {:induction false} BodyIsInside(fs: seq<Field>, rest: seq<Line>)
    ensures WellNested(Body(fs) + rest, true) <==> WellNested(rest, true)
  {
    if fs == [] {
      assert Body(fs) + rest == rest;
    } else {
      var tail := Body(fs[1..]) + rest;
      BodyIsInside(fs[1..], rest);
      assert Body(fs) + rest == [DocOf(fs[0]), ConstOf(fs[0])] + tail by { hide WellNested; }
      TwoInside(fs[0], tail);
    }
  }

  lemma OpenThen(provider: bytes, rest: seq<Line>)
    ensures WellNested([Open(provider)] + rest, false) <==> WellNested(rest, true)
  {
    assert ([Open(provider)] + rest)[1..] == rest;
  }

  lemma CloseThen(rest: seq<Line>)
    ensures WellNested([Close] + rest, true) <==> WellNested(rest, false)
  {
    assert ([Close] + rest)[1..] == rest;
  }

  lemma {:induction false} BlocksAreWellNested(rs: seq<Run>)
    ensures WellNested(Blocks(rs), false)
  {
    if rs != [] {
      hide WellNested, Body;
      var r, rest := rs[0], Blocks(rs[1..]);
      BlocksAreWellNested(rs[1..]);
      CloseThen(rest);
      BodyIsInside(r.fields, [Close] + rest);
      OpenThen(r.provider, Body(r.fields) + ([Close] + rest));
      assert Blocks(rs) == [Open(r.provider)] + (Body(r.fields) + ([Close] + rest));
    }
  }

  /** For any list of fields at all, what render writes is balanced and never nested. */
  lemma RenderIsWellNested(fs: seq<Field>)
    ensures WellNested(Lines(fs, 0), false)
  {
    LinesAreBlocks(fs);
    BlocksAreWellNested(Runs(fs));
  }

  // ----- one block per provider

  /** Fields that share a provider have nothing else between them. */
  ghost predicate Contiguous(fs: seq<Field>) {
    forall i, j, k :: 0 <= i < j < k < |fs| && Provider(fs[i]) == Provider(fs[k]) ==> Provider(fs[j]) == Provider(fs[i])
  }

  ghost predicate ProvidersDistinct(rs: seq<Run>) {
    forall i, j :: 0 <= i < j < |rs| ==> rs[i].provider != rs[j].provider
  }

  function Providers(fs: seq<Field>): set<bytes> { set i | 0 <= i < |fs| :: Provider(fs[i]) }

  function RunProviders(rs: seq<Run>): set<bytes> { set i | 0 <= i < |rs| :: rs[i].provider }

  lemma RunProvidersSplit(rs: seq<Run>)
    requires rs != []
    ensures RunProviders(rs) == {rs[0].provider} + RunProviders(rs[1..])
    ensures ProvidersDistinct(rs) <==> ProvidersDistinct(rs[1..]) && rs[0].provider !in RunProviders(rs[1..])
  {
    assert forall i :: 0 <= i < |rs[1..]| ==> rs[1..][i] == rs[i + 1];
    assert forall i :: 1 <= i < |rs| ==> rs[i] == rs[1..][i - 1];
  }

  lemma ProvidersSplit(fs: seq<Field>)
    requires fs != []
    ensures Providers(fs) == {Provider(fs[0])} + Providers(fs[1..])
  {
    hide Provider;
    assert forall i :: 0 <= i < |fs[1..]| ==> fs[1..][i] == fs[i + 1];
    assert forall i :: 1 <= i < |fs| ==> fs[i] == fs[1..][i - 1];
  }

  lemma {:induction false} RunsCover(fs: seq<Field>)
    ensures RunProviders(Runs(fs)) == Providers(fs)
  {
    hide Provider;
    if fs != [] {
      var rest, rs := Runs(fs[1..]), Runs(fs);
      RunsCover(fs[1..]);
      ProvidersSplit(fs);
      RunProvidersSplit(rs);
      if rest != [] && rest[0].provider == Provider(fs[0]) {
        RunProvidersSplit(rest);
        assert rs[1..] == rest[1..];
      } else {
        assert rs[1..] == rest;
      }
    }
  }

  lemma BrokenFurtherOn(fs: seq<Field>, i: nat, j: nat, k: nat)
    requires 0 < i < j < k < |fs| && Provider(fs[i]) == Provider(fs[k]) && Provider(fs[j]) != Provider(fs[i])
    ensures !Contiguous(fs[1..])
  {
    hide Provider;
    var rest := fs[1..];
    assert rest[i - 1] == fs[i] && rest[j - 1] == fs[j] && rest[k - 1] == fs[k];
    assert Provider(rest[i - 1]) == Provider(rest[k - 1]) && Provider(rest[j - 1]) != Provider(rest[i - 1]);
  }

  lemma BrokenAtHead(fs: seq<Field>, j: nat, k: nat)
    requires 0 < j < k < |fs| && Provider(fs[0]) == Provider(fs[k]) && Provider(fs[j]) != Provider(fs[0])
    ensures Provider(fs[0]) in Providers(fs[1..])
    ensures Provider(fs[0]) == Provider(fs[1]) ==> !Contiguous(fs[1..])
  {
    hide Provider, Contiguous;
    assert Provider(fs[1..][k - 1]) == Provider(fs[0]);
    if Provider(fs[0]) == Provider(fs[1]) { BrokenFurtherOn(fs, 1, j, k); }
  }

  lemma ContiguousTail(fs: seq<Field>)
    requires |fs| > 1
    ensures Contiguous(fs) <==>
            Contiguous(fs[1..]) && (Provider(fs[0]) == Provider(fs[1]) || Provider(fs[0]) !in Providers(fs[1..]))
  {
    hide Provider;
    var rest := fs[1..];
    if Contiguous(fs) {
      forall i, j, k | 0 <= i < j < k < |rest| && Provider(rest[i]) == Provider(rest[k])
        ensures Provider(rest[j]) == Provider(rest[i])
      {
        assert rest[i] == fs[i + 1] && rest[j] == fs[j + 1] && rest[k] == fs[k + 1];
      }
      if Provider(fs[0]) in Providers(rest) {
        var k :| 0 <= k < |rest| && Provider(rest[k]) == Provider(fs[0]);
        assert rest[k] == fs[k + 1] && (k > 0 ==> Provider(fs[1]) == Provider(fs[0]));
      }
    } else {
      var i, j, k :| 0 <= i < j < k < |fs| && Provider(fs[i]) == Provider(fs[k]) && Provider(fs[j]) != Provider(fs[i]);
      if i > 0 { BrokenFurtherOn(fs, i, j, k); } else { BrokenAtHead(fs, j, k); }
    }
  }

  /** No two blocks are of the same provider exactly when the list is contiguous. */
  lemma {:induction false} OneBlockPerProviderIff(fs: seq<Field>)
    ensures ProvidersDistinct(Runs(fs)) <==> Contiguous(fs)
  {
    hide Provider;
    if |fs| > 1 {
      var rest, rs := Runs(fs[1..]), Runs(fs);
      OneBlockPerProviderIff(fs[1..]);
      ContiguousTail(fs);
      RunsAreRuns(fs[1..]);
      RunsCover(fs[1..]);
      RunProvidersSplit(rs);
      RunProvidersSplit(rest);
      assert fs[1..][0] == fs[1];
      if Provider(fs[0]) == Provider(fs[1]) {
        assert rs[1..] == rest[1..];
      } else {
        assert rs[1..] == rest;
      }
    } else if |fs| == 1 {
      assert Runs(fs[1..]) == [];
    }
  }

  /** Between two names of one provider, in the order of names, lie only names of that provider. */
  lemma {:induction false} ProviderBetween(a: bytes, b: bytes, c: bytes)
    requires !Less(b, a) && !Less(c, b) && IsName(b)
    requires Before(a, '.') == Before(c, '.')
    ensures Before(b, '.') == Before(a, '.')
  {
    var p := Before(a, '.');
    if p == [] {
      if b != [] && c != [] {
        assert NameByte(b[0]);
      }
    } else {
      assert a[0] == b[0] == c[0];
      assert IsName(b[1..]) by { assert forall i :: 0 <= i < |b[1..]| ==> b[1..][i] == b[i + 1]; }
      assert Before(a[1..], '.') == p[1..] == Before(c[1..], '.');
      ProviderBetween(a[1..], b[1..], c[1..]);
    }
  }

  /** Sorting by name puts each provider's fields together, because the dot is the smallest byte of the alphabet. */
  lemma SortedIsContiguous(fs: seq<Field>)
    requires SortedBy(fs, FieldName())
    requires forall i :: 0 <= i < |fs| ==> IsName(fs[i].name)
    ensures Contiguous(fs)
  {
    forall i, j, k | 0 <= i < j < k < |fs| && Provider(fs[i]) == Provider(fs[k])
      ensures Provider(fs[j]) == Provider(fs[i])
    {
      assert !Less(FieldName()(fs[j]), FieldName()(fs[i]));
      assert !Less(FieldName()(fs[k]), FieldName()(fs[j]));
      ProviderBetween(fs[i].name, fs[j].name, fs[k].name);
    }
  }

  /**
   * What render makes of load's result: blocks that follow one another, none inside another, each of a single
   * provider and no two of the same, holding between them every field exactly once and in name order.
   */
  lemma RenderIsOneBlockPerProvider(fs: seq<Field>)
    requires SortedBy(fs, FieldName())
    requires forall i :: 0 <= i < |fs| ==> IsName(fs[i].name)
    ensures var rs := Runs(fs);
            && Lines(fs, 0) == Blocks(rs)
            && Concat(rs) == fs
            && (forall i :: 0 <= i < |rs| ==> IsRun(rs[i]))
            && ProvidersDistinct(rs)
  {
    LinesAreBlocks(fs);
    RunsAreRuns(fs);
    RunsConcat(fs);
    SortedIsContiguous(fs);
    OneBlockPerProviderIff(fs);
  }

  /** The alphabet matters: one byte below the dot, and a sorted table opens a provider's block twice. */
  lemma DashWouldSplitABlock()
    ensures var names: seq<bytes> := ["a", "a-b", "a.c"];
            var fs := seq(3, i requires 0 <= i < 3 => Field(names[i], "json", "", names[i]));
            SortedBy(fs, FieldName()) && !Contiguous(fs)
  {
    var names: seq<bytes> := ["a", "a-b", "a.c"];
    var fs := seq(3, i requires 0 <= i < 3 => Field(names[i], "json", "", names[i]));
    assert names[0][1..] == [] && names[1][1..] == "-b" && names[2][1..] == ".c";
    assert Less(names[0], names[1]) && Less(names[1], names[2]) && Less(names[0], names[2]);
    LessIsTotal(names[0], names[1]);
    LessIsTotal(names[1], names[2]);
    LessIsTotal(names[0], names[2]);
    assert Provider(fs[0]) == "a" == Provider(fs[2]);
    assert Provider(fs[1]) == "a-b" by {
      assert "-b"[1..] == "b" && "b"[1..] == "";
    }
  }

  lemma SameProviders(a: seq<Field>, b: seq<Field>)
    requires multiset(a) == multiset(b)
    ensures Providers(a) == Providers(b)
  {
    hide Provider;
    forall f ensures f in a <==> f in b {
      assert f in a <==> f in multiset(a);
      assert f in b <==> f in multiset(b);
    }
    assert forall i :: 0 <= i < |a| ==> a[i] in a && a[i] in b;
    assert forall i :: 0 <= i < |b| ==> b[i] in b && b[i] in a;
  }

  /**
   * From registries to file: whatever arrangement of the table's fields load returns in name order, the file has one
   * block for each provider in the table, and the fields in its blocks are the table's rows, each exactly once.
   */
  lemma GeneratedFileCoversTheTable(rows: seq<Row>, fs: seq<Field>)
    requires forall i :: 0 <= i < |rows| ==> IsName(rows[i].name)
    requires SortedBy(fs, FieldName()) && multiset(fs) == multiset(ToFields(rows))
    ensures var rs := Runs(fs);
            && Lines(fs, 0) == Blocks(rs)
            && ProvidersDistinct(rs) && RunProviders(rs) == Providers(ToFields(rows))
            && multiset(Concat(rs)) == multiset(ToFields(rows))
  {
    hide Provider, Lines, Blocks, Concat, Runs, Ident;
    var table := ToFields(rows);
    forall i | 0 <= i < |fs| ensures IsName(fs[i].name) {
      assert fs[i] in multiset(table);
      assert fs[i] in table;
    }
    RenderIsOneBlockPerProvider(fs);
    RunsCover(fs);
    SameProviders(fs, table);
  }

  // ----- the declarations

  function Entry(l: Line): seq<Line> { if l.Const? || l.Doc? then [l] else [] }

  /** The lines inside the blocks. */
  function Entries(ls: seq<Line>): seq<Line> { if ls == [] then [] else Entry(ls[0]) + Entries(ls[1..]) }

  lemma {:induction false} EntriesConcat(a: seq<Line>, b: seq<Line>)
    ensures Entries(a + b) == Entries(a) + Entries(b)
  {
    hide Entry;
    if a == [] {
      assert a + b == b;
    } else {
      assert (a + b)[1..] == a[1..] + b;
      EntriesConcat(a[1..], b);
      Associate(Entry(a[0]), Entries(a[1..]), Entries(b));
    }
  }

  lemma EntriesOfChunk(fs: seq<Field>, i: nat)
    requires i < |fs|
    ensures Entries(Chunk(fs, i)) == [DocOf(fs[i]), ConstOf(fs[i])]
  {
    hide Provider, GO_TYPE, TypeOf;
    var opening := if Starts(fs, i) then [Open(Provider(fs[i]))] else [];
    var two, closing := [DocOf(fs[i]), ConstOf(fs[i])], if Ends(fs, i) then [Close] else [];
    EntriesConcat(opening + two, closing);
    EntriesConcat(opening, two);
    assert two[1..] == [ConstOf(fs[i])] && [ConstOf(fs[i])][1..] == [];
  }

  /** Declaration k of a list of lines is the comment and the constant of field f. */
  predicate Declares(es: seq<Line>, k: nat, f: Field) {
    2 * k + 1 < |es| && es[2 * k] == DocOf(f) && es[2 * k + 1] == ConstOf(f)
  }

  /** The declarations of the file are those of the fields, one each, in order. */
  lemma {:induction false} EntriesOfLines(fs: seq<Field>, i: nat)
    requires i <= |fs|
    ensures |Entries(Lines(fs, i))| == 2 * (|fs| - i)
    ensures forall k :: i <= k < |fs| ==> Declares(Entries(Lines(fs, i)), k - i, fs[k])
    decreases |fs| - i
  {
    hide Chunk, ConstOf, DocOf;
    if i < |fs| {
      EntriesOfChunk(fs, i);
      EntriesConcat(Chunk(fs, i), Lines(fs, i + 1));
      EntriesOfLines(fs, i + 1);
      var es, rest := Entries(Lines(fs, i)), Entries(Lines(fs, i + 1));
      assert es == [DocOf(fs[i]), ConstOf(fs[i])] + rest;
      forall k | i <= k < |fs| ensures Declares(es, k - i, fs[k]) {
        if k > i { assert Declares(rest, k - i - 1, fs[k]); }
      }
    }
  }

  function FieldIdent(): Field -> bytes { (f: Field) => f.ident }

  /** Declaration k says of a row what the file is to say: its identifier, type, name and platforms, and its Go type. */
  predicate DeclaresRow(es: seq<Line>, k: nat, r: Row) {
    && 2 * k + 1 < |es| && r.specType in GO_TYPE
    && es[2 * k] == Doc(Ident(r.name), r.specType, r.name, r.platforms)
    && es[2 * k + 1] == Const(Ident(r.name), GO_TYPE[r.specType], r.name)
  }

  ghost predicate IsDeclared(es: seq<Line>, r: Row) { exists k :: 0 <= k < |es| && DeclaresRow(es, k, r) }

  lemma RowIsDeclared(es: seq<Line>, k: nat, r: Row)
    requires r.specType in GO_TYPE && Declares(es, k, ToField(r))
    ensures IsDeclared(es, r)
  {
    assert DeclaresRow(es, k, r);
    hide Ident, GO_TYPE;
  }

  /**
   * What the file declares for a table that load accepts: for each row a comment and a constant with the row's
   * identifier, type and name, one for one; and no two constants under one identifier.
   */
  lemma GeneratedConstantsAreTheTable(rows: seq<Row>, leafType: map<bytes, bytes>, fs: seq<Field>)
    requires Consistent(rows, leafType) && multiset(fs) == multiset(ToFields(rows))
    ensures var es := Entries(Lines(fs, 0));
            && |es| == 2 * |rows|
            && (forall i :: 0 <= i < |rows| ==> IsDeclared(es, rows[i]))
            && (forall i, k :: 0 <= i < k < |rows| ==>
                  es[2 * i + 1].Const? && es[2 * k + 1].Const? && es[2 * i + 1].ident != es[2 * k + 1].ident)
  {
    hide Ident, GO_TYPE, Lines, Entries, IsDeclared;
    var table, es := ToFields(rows), Entries(Lines(fs, 0));
    EntriesOfLines(fs, 0);
    assert |fs| == |multiset(fs)| == |table|;
    forall i | 0 <= i < |rows| ensures IsDeclared(es, rows[i]) {
      assert table[i] in multiset(table);
      assert table[i] in fs;
      var k :| 0 <= k < |fs| && fs[k] == table[i];
      assert Declares(es, k - 0, fs[k]) && Agrees(rows[i], leafType);
      RowIsDeclared(es, k, rows[i]);
    }
    assert DistinctBy(table, FieldIdent());
    RearrangedIsDistinct(table, fs, FieldIdent());
    forall i, k | 0 <= i < k < |rows|
      ensures es[2 * i + 1].Const? && es[2 * k + 1].Const? && es[2 * i + 1].ident != es[2 * k + 1].ident
    {
      assert FieldIdent()(fs[i]) != FieldIdent()(fs[k]);
      assert Declares(es, i - 0, fs[i]) && Declares(es, k - 0, fs[k]);
    }
  }
}
