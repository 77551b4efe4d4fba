/** formatValidationErrors: one text for a set of field errors, whatever order the map is walked in. */
module ValidationErrors {
  import opened GoBase
  import opened Strings
  import opened Sorting

  function Self(): bytes -> bytes { (s: bytes) => s }

  function Elements(fs: seq<bytes>): set<bytes> { set f | f in fs }

  /** A listing of a set of names: each once, in strictly increasing order. */
  ghost predicate IsListing(fs: seq<bytes>, names: set<bytes>) {
    && (forall i, j :: 0 <= i < j < |fs| ==> Less(fs[i], fs[j]))
    && Elements(fs) == names
  }

  function Part(field: bytes, messages: seq<bytes>): bytes { field + ": " + Join(messages, ", ") }

  /** A Go map lookup: no messages for a missing field. */
  function Messages(errs: map<bytes, seq<bytes>>, field: bytes): seq<bytes> {
    if field in errs then errs[field] else []
  }

  function Parts(errs: map<bytes, seq<bytes>>, fs: seq<bytes>): (ps: seq<bytes>)
    ensures |ps| == |fs|
  {
    seq(|fs|, i requires 0 <= i < |fs| => Part(fs[i], Messages(errs, fs[i])))
  }

  /** The text for a given listing of the fields. */
  function Text(errs: map<bytes, seq<bytes>>, fs: seq<bytes>): bytes { Join(Parts(errs, fs), "; ") }

  lemma ListingIsSorted(a: seq<bytes>, names: set<bytes>)
    requires IsListing(a, names)
    ensures SortedBy(a, Self()) && DistinctBy(a, Self())
  {
    forall i, j | 0 <= i < j < |a| ensures !Less(a[j], a[i]) && a[i] != a[j] {
      LessIsTotal(a[i], a[j]);
    }
  }

  lemma {:induction false} ListingMultiset(a: seq<bytes>, names: set<bytes>)
    requires DistinctBy(a, Self()) && Elements(a) == names
    ensures multiset(a) == multiset(names)
  {
    forall f ensures multiset(a)[f] == multiset(names)[f] {
      if f in a {
        var k :| 0 <= k < |a| && a[k] == f;
        OnceInMultiset(a, k, Self());
        assert f in names;
      } else {
        assert f !in multiset(a) && f !in names;
      }
    }
  }

  /** A set of names has exactly one listing. */
  lemma ListingIsUnique(a: seq<bytes>, b: seq<bytes>, names: set<bytes>)
    requires IsListing(a, names) && IsListing(b, names)
    ensures a == b
  {
    ListingIsSorted(a, names);
    ListingIsSorted(b, names);
    ListingMultiset(a, names);
    ListingMultiset(b, names);
    SortedArrangementIsUnique(a, b, Self());
  }

  lemma SortedIsListing(a: seq<bytes>)
    requires SortedBy(a, Self()) && DistinctBy(a, Self())
    ensures IsListing(a, Elements(a))
  {
    forall i, j | 0 <= i < j < |a| ensures Less(a[i], a[j]) {
      assert !Less(Self()(a[j]), Self()(a[i])) && Self()(a[i]) != Self()(a[j]);
      LessIsTotal(a[i], a[j]);
    }
  }

  lemma SameElements(a: seq<bytes>, b: seq<bytes>)
    requires multiset(a) == multiset(b)
    ensures Elements(a) == Elements(b)
  {
    assert forall f :: f in a <==> f in multiset(a);
    assert forall f :: f in b <==> f in multiset(b);
  }

  lemma OneMoreField(fields: seq<bytes>, field: bytes)
    requires DistinctBy(fields, Self()) && field !in Elements(fields)
    ensures DistinctBy(fields + [field], Self()) && Elements(fields + [field]) == Elements(fields) + {field}
  {
    assert forall i :: 0 <= i < |fields| ==> fields[i] in Elements(fields);
  }

  lemma SortedFieldsAreListed(fields: seq<bytes>, sorted: seq<bytes>)
    requires DistinctBy(fields, Self()) && SortedBy(sorted, Self()) && multiset(sorted) == multiset(fields)
    ensures IsListing(sorted, Elements(fields))
  {
    hide Less;
    RearrangedIsDistinct(fields, sorted, Self());
    SameElements(fields, sorted);
    SortedIsListing(sorted);
  }

  /**
   * formatValidationErrors. The map is walked in an arbitrary order, a different one each time; the text is that
   * of the one listing of its fields all the same, with each field's messages in their stored order.
   */
  method FormatValidationErrors(errs: map<bytes, seq<bytes>>) returns (text: bytes)
    ensures exists fs :: IsListing(fs, errs.Keys)
    ensures forall fs :: IsListing(fs, errs.Keys) ==> text == Text(errs, fs)
  {
    hide Less;
    var fields: seq<bytes> := [];
    var remaining := errs.Keys;
    while remaining != {}
      invariant remaining <= errs.Keys
      invariant DistinctBy(fields, Self()) && Elements(fields) == errs.Keys - remaining
      decreases remaining
    {
      var field :| field in remaining;
      OneMoreField(fields, field);
      fields, remaining := fields + [field], remaining - {field};
    }
    var sorted := SortBy(fields, Self());
    SortedFieldsAreListed(fields, sorted);
    assert Elements(fields) == errs.Keys && IsListing(sorted, errs.Keys);
    hide IsListing;
    var parts: seq<bytes> := [];
    for i := 0 to |sorted|
      invariant parts == Parts(errs, sorted)[..i]
    {
      parts := parts + [Part(sorted[i], Messages(errs, sorted[i]))];
    }
    assert parts == Parts(errs, sorted);
    forall fs | IsListing(fs, errs.Keys) ensures fs == sorted {
      ListingIsUnique(fs, sorted, errs.Keys);
    }
    text := Join(parts, "; ");
  }

  // ----- reading the text back

  /** A blank before every part but the first, as a list joined by a separator and a blank splits at the separator. */
  function Indent(parts: seq<bytes>): (r: seq<bytes>)
    ensures |r| == |parts|
    ensures forall i :: 0 <= i < |parts| ==> r[i] == if i == 0 then parts[i] else [' '] + parts[i]
  {
    seq(|parts|, i requires 0 <= i < |parts| => if i == 0 then parts[i] else [' '] + parts[i])
  }

  ghost predicate FreeOf(parts: seq<bytes>, sep: byte) { forall i :: 0 <= i < |parts| ==> sep !in parts[i] }

  lemma JoinFirst(head: bytes, parts: seq<bytes>, sep: bytes)
    requires parts != []
    ensures Join([head + parts[0]] + parts[1..], sep) == head + Join(parts, sep)
  {
    var longer := [head + parts[0]] + parts[1..];
    assert longer[1..] == parts[1..];
    if |parts| > 1 {
      assert head + parts[0] + sep + Join(parts[1..], sep) == head + (parts[0] + sep + Join(parts[1..], sep));
    }
  }

  lemma {:induction false} JoinIndented(parts: seq<bytes>, sep: byte)
    ensures Join(parts, [sep, ' ']) == Join(Indent(parts), [sep])
  {
    if |parts| > 1 {
      var tail, rest := parts[1..], Indent(parts)[1..];
      JoinIndented(tail, sep);
      assert rest == [[' '] + tail[0]] + Indent(tail)[1..];
      JoinFirst([' '], Indent(tail), [sep]);
      assert [[' '] + Indent(tail)[0]] + Indent(tail)[1..] == rest;
      assert [sep, ' '] + Join(tail, [sep, ' ']) == [sep] + ([' '] + Join(Indent(tail), [sep]));
      assert parts[0] + [sep, ' '] + Join(tail, [sep, ' ']) == parts[0] + ([sep, ' '] + Join(tail, [sep, ' ']));
      assert parts[0] + [sep] + Join(rest, [sep]) == parts[0] + ([sep] + Join(rest, [sep]));
    }
  }

  lemma SplitOfSpaced(parts: seq<bytes>, sep: byte)
    requires parts != [] && FreeOf(parts, sep) && sep != ' '
    ensures Split(Join(parts, [sep, ' ']), sep) == Indent(parts)
  {
    JoinIndented(parts, sep);
    SplitOfJoin(Indent(parts), sep);
  }

  lemma {:induction false} JoinFree(parts: seq<bytes>, glue: bytes, sep: byte)
    requires FreeOf(parts, sep) && sep !in glue
    ensures sep !in Join(parts, glue)
  {
    if |parts| > 1 { JoinFree(parts[1..], glue, sep); }
  }

  lemma NothingJoined(glue: bytes)
    ensures Join([], glue) == []
  {
  }

  /**
   * The text can be read back when no field or message has a separator of its own: at semicolons it falls into one part
   * per field, in order, which starts with the field and a colon; and the rest of a part falls at commas into the
   * field's messages, in their stored order.
   */
  lemma TextReadsBack(errs: map<bytes, seq<bytes>>, fs: seq<bytes>, i: nat)
    requires i < |fs| && FreeOf(fs, ';')
    requires forall k :: 0 <= k < |fs| ==> fs[k] in errs && FreeOf(errs[fs[k]], ';')
    ensures var parts := Split(Text(errs, fs), ';');
            var head := (if i == 0 then "" else " ") + fs[i] + ": ";
            && |parts| == |fs| && head <= parts[i]
            && var ms, rest := errs[fs[i]], parts[i][|head|..];
               if ms == [] then rest == [] else FreeOf(ms, ',') ==> Split(rest, ',') == Indent(ms)
  {
    hide Join, Split;
    forall k | 0 <= k < |fs| ensures ';' !in Part(fs[k], Messages(errs, fs[k])) {
      JoinFree(Messages(errs, fs[k]), ", ", ';');
    }
    SplitOfSpaced(Parts(errs, fs), ';');
    assert [';', ' '] == "; " && [',', ' '] == ", ";
    var ms := Messages(errs, fs[i]);
    var lead: bytes := if i == 0 then "" else " ";
    var head := lead + fs[i] + ": ";
    var part := Indent(Parts(errs, fs))[i];
    assert part == head + Join(ms, ", ");
    assert part[|head|..] == Join(ms, ", ");
    if ms == [] {
      NothingJoined(", ");
    } else if FreeOf(ms, ',') {
      SplitOfSpaced(ms, ',');
    }
  }
}
