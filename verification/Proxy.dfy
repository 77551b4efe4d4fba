/**
 * A path-normalising proxy in front of the API: percent-encoding normalisation
 * (RFC 3986, sections 6.2.2.1 and 6.2.2.2) followed by dot-segment removal (section 5.2.4).
 * path.go promises that such a proxy cannot redirect a request.
 */
module Proxy {
  import opened GoBase
  import opened Strings
  import opened UrlPath

  lemma Associate(a: bytes, b: bytes, c: bytes)
    ensures a + (b + c) == (a + b) + c
  {
  }

  // ----- percent-encoding normalisation

  /** A triplet of an unreserved byte becomes that byte; any other triplet gets upper-case digits. */
  function NormaliseTriplet(s: bytes): bytes
    requires StartsTriplet(s)
  {
    if IsUnreserved(TripletByte(s)) then [TripletByte(s)]
    else [PERCENT, UpperHex(Unhex(s[1])), UpperHex(Unhex(s[2]))]
  }

  function NormalisePercent(s: bytes): bytes {
    if s == [] then []
    else if StartsTriplet(s) then NormaliseTriplet(s) + NormalisePercent(s[3..])
    else [s[0]] + NormalisePercent(s[1..])
  }

  lemma {:induction false} NormalisePercentShrinks(s: bytes)
    ensures |NormalisePercent(s)| <= |s|
    ensures s != [] && s[0] == SLASH ==> NormalisePercent(s) == [SLASH] + NormalisePercent(s[1..])
  {
    if s == [] {
    } else if StartsTriplet(s) {
      NormalisePercentShrinks(s[3..]);
    } else {
      NormalisePercentShrinks(s[1..]);
    }
  }

  predicate NormalAtHead(s: bytes) {
    StartsTriplet(s) ==> !IsUnreserved(TripletByte(s)) && !('a' <= s[1] <= 'f') && !('a' <= s[2] <= 'f')
  }

  /** Wherever a triplet stands it spells a byte that has to be spelled that way, in upper-case digits. */
  ghost predicate IsPercentNormal(s: bytes) { forall i :: 0 <= i < |s| ==> NormalAtHead(s[i..]) }

  lemma NoTripletHere(s: bytes, i: nat)
    requires i < |s| && s[i] != '%'
    ensures NormalAtHead(s[i..])
  {
  }

  lemma NormalAfter(s: bytes, n: nat)
    requires 0 < n <= |s| && forall i :: 0 < i < n ==> s[i] != '%'
    ensures IsPercentNormal(s) <==> NormalAtHead(s) && IsPercentNormal(s[n..])
  {
    hide NormalAtHead;
    assert s[0..] == s;
    forall i | n <= i < |s| ensures s[n..][i - n..] == s[i..] {
    }
    forall i | 0 < i < n ensures NormalAtHead(s[i..]) {
      NoTripletHere(s, i);
    }
    if IsPercentNormal(s) {
      forall i | 0 <= i < |s[n..]| ensures NormalAtHead(s[n..][i..]) {
        assert s[n..][i..] == s[n + i..];
      }
    }
    if NormalAtHead(s) && IsPercentNormal(s[n..]) {
      forall i | 0 <= i < |s| ensures NormalAtHead(s[i..]) {
        if i >= n { assert s[n..][i - n..] == s[i..]; }
      }
    }
  }

  lemma TripletIsNormalIff(s: bytes)
    requires StartsTriplet(s)
    ensures NormaliseTriplet(s) == s[..3] <==> NormalAtHead(s)
  {
  }

  /** Percent-encoding normalisation leaves alone exactly the strings that are percent-normal. */
  lemma {:induction false} NormalisePercentIsIdentityIff(s: bytes)
    ensures NormalisePercent(s) == s <==> IsPercentNormal(s)
  {
    if s != [] {
      var n := if StartsTriplet(s) then 3 else 1;
      var t, rest := if StartsTriplet(s) then NormaliseTriplet(s) else [s[0]], NormalisePercent(s[n..]);
      NormalisePercentIsIdentityIff(s[n..]);
      NormalisePercentShrinks(s[n..]);
      NormalAfter(s, n);
      if StartsTriplet(s) { TripletIsNormalIff(s); }
      assert s == s[..n] + s[n..] && NormalisePercent(s) == t + rest;
      if t + rest == s {
        assert |t| == n;
        assert t == (t + rest)[..n] && rest == (t + rest)[n..];
      }
    }
  }

  lemma NormalisedTriplet(s: bytes, rest: bytes)
    requires StartsTriplet(s)
    ensures var t := NormaliseTriplet(s);
            && PathUnescape(t + rest) == Prepend([TripletByte(s)], PathUnescape(rest))
            && t != [] && NormalAtHead(t + rest) && forall i :: 0 < i < |t| ==> t[i] != '%'
  {
    var t := NormaliseTriplet(s);
    assert (t + rest)[|t|..] == rest;
  }

  /** What a well-escaped string is normalised to is percent-normal and unescapes to the same. */
  lemma {:induction false} NormalisePercentKeepsMeaning(s: bytes)
    requires PathUnescape(s).Some?
    ensures IsPercentNormal(NormalisePercent(s))
    ensures PathUnescape(NormalisePercent(s)) == PathUnescape(s)
  {
    if s != [] {
      var n := if StartsTriplet(s) then 3 else 1;
      var t, rest := if StartsTriplet(s) then NormaliseTriplet(s) else [s[0]], NormalisePercent(s[n..]);
      NormalisePercentKeepsMeaning(s[n..]);
      if StartsTriplet(s) { NormalisedTriplet(s, rest); }
      assert NormalisePercent(s) == t + rest && (t + rest)[|t|..] == rest;
      NormalAfter(t + rest, |t|);
    }
  }

  lemma NormaliseEscapedByte(c: byte, rest: bytes)
    ensures NormalisePercent(EscapeByte(c, Segment) + rest) == EscapeByte(c, Segment) + NormalisePercent(rest)
  {
    var e := EscapeByte(c, Segment);
    var s := e + rest;
    assert s[|e|..] == rest;
    if ShouldEscape(c, Segment) {
      assert StartsTriplet(s) && TripletByte(s) == c;
    }
  }

  /** An escaped segment is already normal: it spells no unreserved byte as a triplet and uses upper-case digits. */
  lemma {:induction false} EscapedSegmentIsNormal(s: bytes, rest: bytes)
    ensures NormalisePercent(PathEscape(s) + rest) == PathEscape(s) + NormalisePercent(rest)
  {
    if s == [] {
      assert PathEscape(s) + rest == rest;
      assert PathEscape(s) + NormalisePercent(rest) == NormalisePercent(rest);
    } else {
      var e, t := EscapeByte(s[0], Segment), PathEscape(s[1..]);
      hide NormalisePercent, EscapeByte;
      EscapedSegmentIsNormal(s[1..], rest);
      NormaliseEscapedByte(s[0], t + rest);
      Associate(e, t, rest);
      Associate(e, t, NormalisePercent(rest));
    }
  }

  /** Normalisation works on each side of a slash separately. */
  lemma {:induction false} NormaliseAtSlash(a: bytes, b: bytes)
    ensures NormalisePercent(a + ([SLASH] + b)) == NormalisePercent(a) + ([SLASH] + NormalisePercent(b))
  {
    var s := a + ([SLASH] + b);
    if a == [] {
      assert s == [SLASH] + b && s[1..] == b;
      NormalisePercentShrinks(s);
    } else if StartsTriplet(a) {
      assert StartsTriplet(s) && s[3..] == a[3..] + ([SLASH] + b);
      NormaliseAtSlash(a[3..], b);
      assert NormaliseTriplet(s) == NormaliseTriplet(a);
      Associate(NormaliseTriplet(a), NormalisePercent(a[3..]), [SLASH] + NormalisePercent(b));
    } else {
      assert !StartsTriplet(s) && s[1..] == a[1..] + ([SLASH] + b);
      NormaliseAtSlash(a[1..], b);
      Associate([a[0]], NormalisePercent(a[1..]), [SLASH] + NormalisePercent(b));
    }
  }

  lemma {:induction false} PathIsNormal(segments: seq<bytes>)
    ensures NormalisePercent(Path(segments)) == Path(segments)
  {
    if |segments| > 0 {
      var e := PathEscape(segments[0]);
      EscapedSegmentIsNormal(segments[0], []);
      assert e + [] == e;
      if |segments| > 1 {
        assert EscapeAll(segments)[1..] == EscapeAll(segments[1..]);
        PathIsNormal(segments[1..]);
        NormaliseAtSlash(e, Path(segments[1..]));
        Associate(e, [SLASH], Path(segments[1..]));
      }
    }
  }

  // ----- dot-segment removal

  ghost predicate SlashFree(segs: seq<bytes>) { forall i :: 0 <= i < |segs| ==> SLASH !in segs[i] }

  predicate IsDot(s: bytes) { s == "." || s == ".." }

  ghost predicate DotFree(segs: seq<bytes>) { forall i :: 0 <= i < |segs| ==> !IsDot(segs[i]) }

  /** The absolute path with the given segments. */
  function Render(segs: seq<bytes>): bytes {
    if segs == [] then [] else [SLASH] + segs[0] + Render(segs[1..])
  }

  function Pop(out: seq<bytes>): seq<bytes> { if out == [] then [] else out[..|out| - 1] }

  /** One segment that is followed by more. */
  function Enter(out: seq<bytes>, s: bytes): seq<bytes> {
    if s == "." then out else if s == ".." then Pop(out) else out + [s]
  }

  /** What a list of segments leaves behind when more segments follow. */
  function Walk(segs: seq<bytes>, out: seq<bytes>): seq<bytes> {
    if segs == [] then out else Walk(segs[1..], Enter(out, segs[0]))
  }

  /** The meaning of dot segments: a walk down a tree of names, where a final dot segment names the directory. */
  function Reduce(segs: seq<bytes>, out: seq<bytes>): seq<bytes> {
    if segs == [] then out
    else if |segs| == 1 && IsDot(segs[0]) then Enter(out, segs[0]) + [[]]
    else Reduce(segs[1..], Enter(out, segs[0]))
  }

  ghost predicate Rooted(path: bytes) { path != [] && path[0] == SLASH }

  /** The segments of an absolute path. */
  function Segments(path: bytes): seq<bytes>
    requires path == [] || path[0] == SLASH
  {
    if path == [] then [] else Split(path[1..], SLASH)
  }

  lemma {:induction false} RenderIsJoin(segs: seq<bytes>)
    requires segs != []
    ensures Render(segs) == [SLASH] + Join(segs, [SLASH])
  {
    if |segs| == 1 {
      assert Render(segs[1..]) == [];
      assert [SLASH] + segs[0] + [] == [SLASH] + segs[0];
    } else {
      RenderIsJoin(segs[1..]);
      assert [SLASH] + segs[0] + ([SLASH] + Join(segs[1..], [SLASH]))
          == [SLASH] + (segs[0] + [SLASH] + Join(segs[1..], [SLASH]));
    }
  }

  lemma SegmentsOfRender(segs: seq<bytes>)
    requires SlashFree(segs)
    ensures Render(segs) == [] || Render(segs)[0] == SLASH
    ensures Segments(Render(segs)) == segs
  {
    if segs != [] {
      RenderIsJoin(segs);
      assert Render(segs)[1..] == Join(segs, [SLASH]);
      SplitOfJoin(segs, SLASH);
    }
  }

  lemma RenderOfSegments(path: bytes)
    requires path == [] || path[0] == SLASH
    ensures Render(Segments(path)) == path && SlashFree(Segments(path))
  {
    if path != [] {
      RenderIsJoin(Segments(path));
      assert path == [SLASH] + path[1..];
    }
  }

  lemma {:induction false} RenderAppend(a: seq<bytes>, b: seq<bytes>)
    ensures Render(a + b) == Render(a) + Render(b)
  {
    if a == [] {
      assert a + b == b;
    } else {
      assert (a + b)[1..] == a[1..] + b;
      RenderAppend(a[1..], b);
      assert [SLASH] + a[0] + (Render(a[1..]) + Render(b)) == [SLASH] + a[0] + Render(a[1..]) + Render(b);
    }
  }

  /** Where the first segment of an input buffer ends: at the next slash, or at the end. */
  function SegmentEnd(s: bytes, from: nat): (k: nat)
    requires from <= |s|
    ensures from <= k <= |s| && SLASH !in s[from..k]
    ensures k < |s| ==> s[k] == SLASH
    decreases |s| - from
  {
    if from == |s| || s[from] == SLASH then from
    else
      var k := SegmentEnd(s, from + 1);
      assert s[from..k] == [s[from]] + s[from + 1..k];
      k
  }

  lemma {:induction false} SegmentEndIs(s: bytes, from: nat, end: nat)
    requires from <= end <= |s|
    requires SLASH !in s[from..end]
    requires end < |s| ==> s[end] == SLASH
    ensures SegmentEnd(s, from) == end
    decreases end - from
  {
    if from < end {
      assert s[from] == s[from..end][0];
      assert s[from + 1..end] == s[from..end][1..];
      SegmentEndIs(s, from + 1, end);
    }
  }

  /** Removes the last segment and its preceding slash, if any. */
  function RemoveLast(s: bytes): bytes {
    if s == [] || s[|s| - 1] == SLASH then (if s == [] then [] else s[..|s| - 1])
    else RemoveLast(s[..|s| - 1])
  }

  lemma {:induction false} RemoveLastSegment(a: bytes, seg: bytes)
    requires SLASH !in seg
    ensures RemoveLast(a + ([SLASH] + seg)) == a
  {
    var s := a + ([SLASH] + seg);
    if seg == [] {
      assert s[..|s| - 1] == a;
    } else {
      assert s[|s| - 1] == seg[|seg| - 1];
      assert s[..|s| - 1] == a + ([SLASH] + seg[..|seg| - 1]);
      RemoveLastSegment(a, seg[..|seg| - 1]);
    }
  }

  lemma RemoveLastOfRender(out: seq<bytes>)
    requires SlashFree(out)
    ensures RemoveLast(Render(out)) == Render(Pop(out))
  {
    if out != [] {
      var init, last := out[..|out| - 1], out[|out| - 1];
      assert out == init + [last];
      RenderAppend(init, [last]);
      RenderIsJoin([last]);
      RemoveLastSegment(Render(init), last);
    }
  }

  lemma FirstSegment(segs: seq<bytes>)
    requires SlashFree(segs) && segs != []
    ensures var input := Render(segs);
            && |input| >= 1
            && SegmentEnd(input, 1) == 1 + |segs[0]|
            && input[1..1 + |segs[0]|] == segs[0]
            && input[1 + |segs[0]|..] == Render(segs[1..])
            && (|input| == 1 + |segs[0]| <==> |segs| == 1)
  {
    var input, n := Render(segs), 1 + |segs[0]|;
    assert input[1..n] == segs[0];
    assert input[n..] == Render(segs[1..]);
    assert |segs| > 1 ==> segs[1..] != [];
    SegmentEndIs(input, 1, n);
  }

  lemma PrefixSegment(input: bytes, d: bytes)
    requires SLASH !in d
    requires [SLASH] + d + [SLASH] <= input || input == [SLASH] + d
    ensures SegmentEnd(input, 1) == 1 + |d| && input[1..1 + |d|] == d
  {
    var whole := [SLASH] + d;
    assert input[..|whole|] == whole;
    assert input[1..|whole|] == whole[1..] == d;
    if |input| > |whole| {
      assert input[|whole|] == (whole + [SLASH])[|whole|];
    }
    SegmentEndIs(input, 1, |whole|);
  }

  lemma CutBeforeSlash(whole: bytes, rest: bytes)
    requires rest != [] && rest[0] == SLASH
    ensures whole + [SLASH] <= whole + rest && (whole + rest)[|whole|..] == rest
  {
    assert whole + rest == (whole + [SLASH]) + rest[1..];
  }

  lemma SegmentPrefix(segs: seq<bytes>, d: bytes)
    requires segs != [] && segs[0] == d
    ensures var input, whole := Render(segs), [SLASH] + d;
            if |segs| > 1 then whole + [SLASH] <= input && input[|whole|..] == Render(segs[1..])
            else input == whole && segs == [d]
  {
    RenderIsJoin([d]);
    if |segs| > 1 {
      RenderIsJoin(segs[1..]);
      assert segs == [d] + segs[1..];
      RenderAppend([d], segs[1..]);
      CutBeforeSlash([SLASH] + d, Render(segs[1..]));
    } else {
      assert segs == [d];
    }
  }

  /** An input buffer starts with the segment d exactly when its first segment is d. */
  lemma StartsWithSegment(segs: seq<bytes>, d: bytes)
    requires SlashFree(segs) && segs != [] && SLASH !in d
    ensures var input, whole := Render(segs), [SLASH] + d;
            && (whole + [SLASH] <= input || input == whole <==> segs[0] == d)
            && (whole + [SLASH] <= input ==> |segs| > 1 && input[|whole|..] == Render(segs[1..]))
            && (input == whole ==> segs == [d])
  {
    var input, whole := Render(segs), [SLASH] + d;
    FirstSegment(segs);
    if whole + [SLASH] <= input || input == whole {
      PrefixSegment(input, d);
      assert segs[0] == d;
    }
    if segs[0] == d {
      SegmentPrefix(segs, d);
    }
  }

  /** How the buffer algorithm's prefix tests read the first segment. */
  lemma DotPrefix(segs: seq<bytes>)
    requires SlashFree(segs) && segs != []
    ensures var input := Render(segs);
            && ("/./" <= input || input == "/." <==> segs[0] == ".")
            && ("/./" <= input ==> input[2..] == Render(segs[1..]) && |segs| > 1)
            && (input == "/." ==> segs == ["."])
  {
    hide Render, SlashFree;
    var whole: bytes := "/.";
    assert [SLASH] + "." == whole;
    assert whole + [SLASH] == "/./";
    StartsWithSegment(segs, ".");
  }

  lemma DotDotPrefix(segs: seq<bytes>)
    requires SlashFree(segs) && segs != []
    ensures var input := Render(segs);
            && ("/../" <= input || input == "/.." <==> segs[0] == "..")
            && ("/../" <= input ==> input[3..] == Render(segs[1..]) && |segs| > 1)
            && (input == "/.." ==> segs == [".."])
  {
    hide Render, SlashFree;
    var whole: bytes := "/..";
    assert [SLASH] + ".." == whole;
    assert whole + [SLASH] == "/../";
    StartsWithSegment(segs, "..");
  }

  /** Moving the first segment, slash included, from the input buffer to the output buffer. */
  lemma MoveSegment(segs: seq<bytes>, out: seq<bytes>)
    requires SlashFree(segs) && segs != []
    ensures |Render(segs)| >= 1 && Render(segs)[0] == SLASH
    ensures var k := SegmentEnd(Render(segs), 1);
            && Render(segs)[k..] == Render(segs[1..])
            && Render(out) + Render(segs)[..k] == Render(out + [segs[0]])
  {
    FirstSegment(segs);
    RenderAppend(out, [segs[0]]);
    RenderIsJoin([segs[0]]);
    assert Render(segs)[..1 + |segs[0]|] == Render([segs[0]]);
  }

  /** The two buffers hold the segments still to come and those already placed. */
  ghost predicate Buffers(path: bytes, segs: seq<bytes>, out: seq<bytes>, input: bytes, output: bytes)
    requires Rooted(path)
  {
    && SlashFree(segs) && SlashFree(out)
    && input == Render(segs) && output == Render(out)
    && Reduce(segs, out) == Reduce(Segments(path), [])
  }

  /** The input buffer is empty exactly when no segment is left, and then the walk is over. */
  lemma NothingLeft(segs: seq<bytes>, out: seq<bytes>)
    ensures Render(segs) == [] <==> segs == []
    ensures segs == [] ==> Reduce(segs, out) == out
  {
    if segs != [] { RenderIsJoin(segs); }
  }

  /** One step of the walk, by kind of first segment: a final dot segment becomes an empty one. */
  lemma ReduceStep(segs: seq<bytes>, out: seq<bytes>)
    requires segs != []
    ensures var rest := if |segs| == 1 && IsDot(segs[0]) then [[]] else segs[1..];
            Reduce(segs, out) == Reduce(rest, Enter(out, segs[0]))
  {
    if |segs| == 1 && IsDot(segs[0]) {
      var end: seq<bytes> := [[]];
      assert end[1..] == [];
      assert Reduce(end, Enter(out, segs[0])) == Reduce([], Enter(out, segs[0]) + [[]]);
    }
  }

  /** remove_dot_segments, over its two buffers; on an absolute path it computes the walk that Reduce describes. */
  method RemoveDotSegments(path: bytes) returns (output: bytes)
    ensures Rooted(path) ==> output == Render(Reduce(Segments(path), []))
  {
    hide Render, Segments, SegmentEnd, RemoveLast, Reduce;
    var input := path;
    output := [];
    ghost var segs, out := if Rooted(path) then Segments(path) else [], [];
    RenderIsJoin([[]]);
    if Rooted(path) { RenderOfSegments(path); }
    NothingLeft(segs, out);
    NothingLeft(out, out);
    while input != []
      invariant Rooted(path) ==> Buffers(path, segs, out, input, output)
      decreases |input|
    {
      NothingLeft(segs, out);
      if Rooted(path) {
        DotPrefix(segs);
        DotDotPrefix(segs);
        ReduceStep(segs, out);
        RemoveLastOfRender(out);
        MoveSegment(segs, out);
      }
      if "../" <= input {
        input := input[3..];
      } else if "./" <= input {
        input := input[2..];
      } else if "/./" <= input {
        input := input[2..];
        segs := if segs == [] then [] else segs[1..];
      } else if input == "/." {
        input, segs := [SLASH], [[]];
      } else if "/../" <= input {
        input, output := input[3..], RemoveLast(output);
        segs, out := if segs == [] then [] else segs[1..], Pop(out);
      } else if input == "/.." {
        input, output := [SLASH], RemoveLast(output);
        segs, out := [[]], Pop(out);
      } else if input == "." || input == ".." {
        input := [];
      } else {
        var k := SegmentEnd(input, 1);
        input, output := input[k..], output + input[..k];
        segs, out := if segs == [] then [] else segs[1..], if segs == [] then out else out + [segs[0]];
      }
    }
    NothingLeft(segs, out);
  }

  lemma {:induction false} ReduceOfDotFree(segs: seq<bytes>, out: seq<bytes>)
    requires DotFree(segs)
    ensures Reduce(segs, out) == out + segs
  {
    if segs == [] {
      assert out + segs == out;
    } else {
      ReduceOfDotFree(segs[1..], out + [segs[0]]);
      assert out + [segs[0]] + segs[1..] == out + segs;
    }
  }

  lemma {:induction false} ReduceAfterWalk(a: seq<bytes>, b: seq<bytes>, out: seq<bytes>)
    requires b != []
    ensures Reduce(a + b, out) == Reduce(b, Walk(a, out))
  {
    if a == [] {
      assert a + b == b;
    } else {
      assert (a + b)[1..] == a[1..] + b;
      ReduceAfterWalk(a[1..], b, Enter(out, a[0]));
    }
  }

  lemma RenderSnoc(out: seq<bytes>, s: bytes)
    ensures |Render(out + [s])| == |Render(out)| + 1 + |s|
  {
    RenderAppend(out, [s]);
    RenderIsJoin([s]);
  }

  lemma EnterShrinks(out: seq<bytes>, s: bytes)
    ensures |Render(Enter(out, s))| <= |Render(out)| + (if IsDot(s) then 0 else 1 + |s|)
  {
    RenderSnoc(out, s);
    if out != [] {
      RenderSnoc(Pop(out), out[|out| - 1]);
      assert Pop(out) + [out[|out| - 1]] == out;
    }
  }

  /** Removing dot segments never lengthens a path, and shortens every path that has one. */
  lemma {:induction false} ReduceShrinks(segs: seq<bytes>, out: seq<bytes>)
    ensures |Render(Reduce(segs, out))| <= |Render(out)| + |Render(segs)|
    ensures !DotFree(segs) ==> |Render(Reduce(segs, out))| < |Render(out)| + |Render(segs)|
  {
    if segs != [] {
      EnterShrinks(out, segs[0]);
      if |segs| == 1 && IsDot(segs[0]) {
        RenderSnoc(Enter(out, segs[0]), []);
      } else {
        ReduceShrinks(segs[1..], Enter(out, segs[0]));
        assert !DotFree(segs) && !IsDot(segs[0]) ==> !DotFree(segs[1..]);
      }
    }
  }

  /** What the proxy forwards for an absolute request path. */
  function Normalise(path: bytes): bytes
    requires path != [] && path[0] == SLASH
  {
    NormalisePercentShrinks(path);
    Render(Reduce(Segments(NormalisePercent(path)), []))
  }

  /** The base URL's contribution to a request path, and that contribution percent-normalised. */
  function Prefix(base: UrlValue): bytes { TrimSlash(EscapedPath(base)) }

  lemma PrefixIsAbsolute(base: UrlValue)
    requires HasAbsolutePath(base)
    ensures Prefix(base) == [] || Prefix(base)[0] == SLASH
    ensures NormalisePercent(Prefix(base)) == [] || NormalisePercent(Prefix(base))[0] == SLASH
  {
    NormalisePercentShrinks(Prefix(base));
  }

  function PrefixSegments(base: UrlValue): seq<bytes>
    requires HasAbsolutePath(base)
  {
    PrefixIsAbsolute(base);
    Segments(NormalisePercent(Prefix(base)))
  }

  /** The path that goes on the wire. */
  function WirePath(base: UrlValue, ids: seq<bytes>): bytes { Prefix(base) + ([SLASH] + Path(ids)) }

  lemma WirePathIsAbsolute(base: UrlValue, ids: seq<bytes>)
    requires HasAbsolutePath(base)
    ensures WirePath(base, ids) != [] && WirePath(base, ids)[0] == SLASH
  {
    PrefixIsAbsolute(base);
  }

  lemma EscapedAllSlashFree(ids: seq<bytes>)
    ensures SlashFree(EscapeAll(ids))
  {
    forall i | 0 <= i < |ids| ensures SLASH !in EscapeAll(ids)[i] {
      EscapedSegmentHasNoSlash(ids[i]);
    }
  }

  lemma EscapedDotDot()
    ensures PathEscape(".") == "." && PathEscape("..") == ".."
  {
    assert PathEscape(['.']) == EscapeByte('.', Segment) + PathEscape([]);
    assert ".."[1..] == ".";
  }

  /** Escaping neither makes nor hides a dot segment. */
  lemma EscapedDot(s: bytes)
    ensures IsDot(PathEscape(s)) <==> IsDot(s)
  {
    EscapedDotDot();
    EscapeRoundTrip(s, Segment);
    EscapeRoundTrip(".", Segment);
    EscapeRoundTrip("..", Segment);
  }

  lemma EscapedDots(ids: seq<bytes>)
    ensures DotFree(EscapeAll(ids)) <==> DotFree(ids)
  {
    forall i | 0 <= i < |ids| ensures IsDot(EscapeAll(ids)[i]) <==> IsDot(ids[i]) {
      EscapedDot(ids[i]);
    }
  }

  /** The segments of a percent-normalised wire path: the base's, then the request's. */
  lemma WireSegments(base: UrlValue, ids: seq<bytes>)
    requires HasAbsolutePath(base) && ids != []
    ensures var n := NormalisePercent(WirePath(base, ids));
            && n == NormalisePercent(Prefix(base)) + ([SLASH] + Path(ids))
            && n != [] && n[0] == SLASH
            && Segments(n) == PrefixSegments(base) + EscapeAll(ids)
            && SlashFree(Segments(n))
  {
    var t := NormalisePercent(Prefix(base));
    var segs := PrefixSegments(base) + EscapeAll(ids);
    PrefixIsAbsolute(base);
    NormaliseAtSlash(Prefix(base), Path(ids));
    PathIsNormal(ids);
    RenderOfSegments(t);
    EscapedAllSlashFree(ids);
    RenderIsJoin(EscapeAll(ids));
    RenderAppend(PrefixSegments(base), EscapeAll(ids));
    SegmentsOfRender(segs);
  }

  /**
   * However the base URL is spelled, a normalising proxy forwards the segments of a request unchanged:
   * only the base's own prefix is ever rewritten, and in a way that does not depend on the request.
   */
  lemma ProxyKeepsRequest(base: UrlValue, ids: seq<bytes>)
    requires HasAbsolutePath(base) && ids != []
    requires forall i :: 0 <= i < |ids| ==> CheckId(ids[i]).None?
    ensures WirePath(base, ids) != [] && WirePath(base, ids)[0] == SLASH
    ensures Normalise(WirePath(base, ids)) == Render(Walk(PrefixSegments(base), [])) + ([SLASH] + Path(ids))
  {
    WirePathIsAbsolute(base, ids);
    WireSegments(base, ids);
    assert DotFree(ids);
    EscapedDots(ids);
    ReduceAfterWalk(PrefixSegments(base), EscapeAll(ids), []);
    ReduceOfDotFree(EscapeAll(ids), Walk(PrefixSegments(base), []));
    RenderAppend(Walk(PrefixSegments(base), []), EscapeAll(ids));
    RenderIsJoin(EscapeAll(ids));
  }

  lemma DotFreeAppend(a: seq<bytes>, b: seq<bytes>)
    ensures DotFree(a + b) <==> DotFree(a) && DotFree(b)
  {
    if DotFree(a + b) {
      assert forall i :: 0 <= i < |a| ==> a[i] == (a + b)[i];
      assert forall i :: 0 <= i < |b| ==> b[i] == (a + b)[|a| + i];
    }
  }

  /**
   * The proxy forwards the wire path as it is exactly when base and request are free of dot segments and the base
   * is percent-normal.
   */
  lemma ProxyIsIdentityIff(base: UrlValue, ids: seq<bytes>)
    requires HasAbsolutePath(base) && ids != []
    ensures WirePath(base, ids) != [] && WirePath(base, ids)[0] == SLASH
    ensures Normalise(WirePath(base, ids)) == WirePath(base, ids)
            <==> IsPercentNormal(Prefix(base)) && DotFree(PrefixSegments(base)) && DotFree(ids)
  {
    NormalisePercentIsIdentityIff(Prefix(base));
    WirePathIsAbsolute(base, ids);
    WireSegments(base, ids);
    EscapedDots(ids);
    var w, n := WirePath(base, ids), NormalisePercent(WirePath(base, ids));
    var segs := Segments(n);
    RenderOfSegments(n);
    NormalisePercentShrinks(w);
    ReduceShrinks(segs, []);
    DotFreeAppend(PrefixSegments(base), EscapeAll(ids));
    if DotFree(segs) {
      ReduceOfDotFree(segs, []);
      assert [] + segs == segs;
      SuffixCancels(NormalisePercent(Prefix(base)), Prefix(base), [SLASH] + Path(ids));
    }
  }

  /** Behind a base the proxy leaves alone, checkID accepts exactly the IDs that are there and arrive untouched. */
  lemma CheckIdIsExact(base: UrlValue, collection: bytes, id: bytes)
    requires HasAbsolutePath(base)
    requires IsPercentNormal(Prefix(base)) && DotFree(PrefixSegments(base))
    requires CheckId(collection).None?
    ensures WirePath(base, [collection, id]) != [] && WirePath(base, [collection, id])[0] == SLASH
    ensures CheckId(id).None?
            <==> id != "" && Normalise(WirePath(base, [collection, id])) == WirePath(base, [collection, id])
    ensures CheckId(id) == Some(MissingId) <==> id == ""
  {
    ProxyIsIdentityIff(base, [collection, id]);
    assert DotFree([collection, id]) <==> !IsDot([collection, id][0]) && !IsDot([collection, id][1]);
  }

  /** An unchecked empty ID would address the collection: its path is the collection's with a slash. */
  lemma EmptyIdWouldAddressCollection(base: UrlValue, collection: bytes)
    ensures WirePath(base, [collection, ""]) == WirePath(base, [collection]) + [SLASH]
  {
    var ids: seq<bytes> := [collection, ""];
    var e := PathEscape(collection);
    assert EscapeAll(ids) == [e, []] && EscapeAll([collection]) == [e];
    var parts: seq<bytes> := [e, []];
    assert parts[1..] == [[]] && Join(parts[1..], [SLASH]) == [];
    assert Join(parts, [SLASH]) == e + [SLASH] + [] == e + [SLASH];
    Associate([SLASH], e, [SLASH]);
    Associate(Prefix(base), [SLASH] + e, [SLASH]);
  }

  lemma ReduceDotDot(name: bytes, out: seq<bytes>)
    requires !IsDot(name)
    ensures Reduce([name, ".."], out) == out + [[]]
  {
    var segs: seq<bytes> := [name, ".."];
    assert segs[1..] == [".."];
    assert Reduce(segs, out) == Reduce([".."], out + [name]);
    assert Pop(out + [name]) == out;
  }

  /** What checkID is there for: unchecked, an ID of ".." would make any request one for the prefix itself. */
  lemma DotDotIdWouldRedirect(base: UrlValue, collection: bytes)
    requires HasAbsolutePath(base) && CheckId(collection).None?
    ensures WirePath(base, [collection, ".."]) != [] && WirePath(base, [collection, ".."])[0] == SLASH
    ensures Normalise(WirePath(base, [collection, ".."])) == Render(Walk(PrefixSegments(base), [])) + [SLASH]
    ensures CheckId("..") == Some(DotSegment)
  {
    var ids: seq<bytes> := [collection, ".."];
    var w := Walk(PrefixSegments(base), []);
    WirePathIsAbsolute(base, ids);
    WireSegments(base, ids);
    EscapedDot(collection);
    EscapedDotDot();
    assert EscapeAll(ids) == [PathEscape(collection), ".."];
    ReduceAfterWalk(PrefixSegments(base), EscapeAll(ids), []);
    ReduceDotDot(PathEscape(collection), w);
    RenderAppend(w, [[]]);
    RenderIsJoin([[]]);
  }

  /** The wire path is what resolvePath's URL sends, for every base URL. */
  lemma WirePathIsSent(base: UrlValue, ids: seq<bytes>)
    ensures Resolve(base, Path(ids)).Some?
    ensures EscapedPath(Resolve(base, Path(ids)).value) == WirePath(base, ids)
  {
    hide EscapedPath, Path, Resolve;
    BuiltPathResolves(base, ids);
    Associate(Prefix(base), [SLASH], Path(ids));
  }

  lemma PrefixCancels(head: bytes, a: bytes, b: bytes)
    ensures head + a == head + b <==> a == b
  {
    assert (head + a)[|head|..] == a && (head + b)[|head|..] == b;
  }

  /** Different requests on one base URL never share a wire path. */
  lemma WirePathIsInjective(base: UrlValue, ids: seq<bytes>, others: seq<bytes>)
    requires ids != [] && others != []
    ensures WirePath(base, ids) == WirePath(base, others) <==> ids == others
  {
    hide EscapedPath, Path;
    PathIsInjective(ids, others);
    PrefixCancels(Prefix(base) + [SLASH], Path(ids), Path(others));
    Associate(Prefix(base), [SLASH], Path(ids));
    Associate(Prefix(base), [SLASH], Path(others));
  }

  /** Whatever the base and the IDs, a request cannot grow a query or a fragment, or break its request line. */
  lemma WirePathIsPlain(base: UrlValue, ids: seq<bytes>)
    ensures var w := WirePath(base, ids);
            forall i :: 0 <= i < |w| ==> w[i] !in "?#" && ' ' < w[i] <= '~'
  {
    WirePathIsSent(base, ids);
    EscapedPathEncodesPath(Resolve(base, Path(ids)).value);
    var w := WirePath(base, ids);
    forall i | 0 <= i < |w| ensures w[i] !in "?#" && ' ' < w[i] <= '~' {
      EncodedByteIsPlain(w[i]);
    }
  }
}
